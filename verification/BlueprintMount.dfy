/** Mounting a blueprint: the routes of its leaves, as text, are registered under a prefix. */
module BlueprintMount {
  import opened RouteTree
  import opened RouteLookup
  import opened RouteBuild

  // ---- the routes of a trie, as text

  datatype Route<H> = Route(text: string, handler: VerbHandler<H>)

  function Slashed(prefix: string): string {
    if prefix != "" && prefix[|prefix| - 1] != '/' then prefix + "/" else prefix
  }

  /** `all_routes`: only leaves are listed. */
  function AllRoutes<H>(n: Node<H>, prefix: string): seq<Route<H>>
    decreases n, 1
  {
    if n.children == [] then [Route(prefix, n.handler)] else ChildRoutes(n.children, Slashed(prefix))
  }

  function ChildRoutes<H>(children: seq<Child<H>>, prefix: string): seq<Route<H>>
    decreases children, 0
  {
    if children == [] then [] else
      AllRoutes(children[0].node, prefix + children[0].key) + ChildRoutes(children[1..], prefix)
  }

  /** Where a blueprint's route goes. */
  function MountText(prefix: string, sub: string): string {
    (if prefix != "" && prefix[|prefix| - 1] == '/' then prefix else prefix + "/") + sub
  }

  function MountOne<H>(root: Node<H>, prefix: string, route: Route<H>): Node<H> {
    var text := MountText(prefix, route.text);
    Register(root, text, _ => route.handler.(path := text))
  }

  /** `add_blueprint` */
  function Mount<H>(root: Node<H>, prefix: string, routes: seq<Route<H>>): Node<H>
    decreases |routes|
  {
    if routes == [] then root else Mount(MountOne(root, prefix, routes[0]), prefix, routes[1..])
  }

  // ---- text and keys

  predicate PlainKey(key: string) { key != "" && '/' !in key }

  ghost predicate Plain<H>(n: Node<H>) {
    forall i :: 0 <= i < |n.children| ==> PlainKey(n.children[i].key) && Plain(n.children[i].node)
  }

  function Join(keys: seq<string>): string {
    if keys == [] then "" else if |keys| == 1 then keys[0] else keys[0] + "/" + Join(keys[1..])
  }

  predicate PlainKeys(keys: seq<string>) { forall i :: 0 <= i < |keys| ==> PlainKey(keys[i]) }

  /** One key is read, from its slash to the next one or the end. */
  lemma {:induction false} KeyRead(u: string, c: nat, k: string)
    requires PlainKey(k) && c + 1 + |k| <= |u| && u[c] == '/' && u[c + 1..c + 1 + |k|] == k
    requires c + 1 + |k| < |u| ==> u[c + 1 + |k|] == '/'
    ensures Keys(u, c) == [k] + Keys(u, c + 1 + |k|)
  {
    var e := c + 1 + |k|;
    assert forall i :: c + 1 <= i < e ==> u[i] == k[i - c - 1];
    MidEndIs(u, c + 1, e);
  }

  lemma {:induction false} JoinedText(t: string, keys: seq<string>)
    requires t != "" && t[|t| - 1] == '/' && keys != []
    ensures var u, k := t + Join(keys), keys[0];
            && u == t + k + (if |keys| == 1 then "" else "/" + Join(keys[1..]))
            && |u| >= |t| + |k| && u[|t| - 1] == '/' && u[|t|..|t| + |k|] == k
            && (|keys| == 1 ==> |u| == |t| + |k|)
            && (|keys| > 1 ==> |u| > |t| + |k| && u[|t| + |k|] == '/' && u == (t + k + "/") + Join(keys[1..]))
  {
  }

  /** From a slash on, the keys of a joined text are what was joined. */
  lemma {:induction false} JoinedKeys(t: string, keys: seq<string>)
    requires t != "" && t[|t| - 1] == '/' && PlainKeys(keys) && keys != []
    ensures Keys(t + Join(keys), |t| - 1) == keys
    decreases |keys|
  {
    hide Join;
    hide Keys;
    hide MidEnd;
    hide Skip;
    JoinedText(t, keys);
    var u, k := t + Join(keys), keys[0];
    KeyRead(u, |t| - 1, k);
    if |keys| == 1 {
      NoMoreKeys(u);
      assert keys == [k] + [];
    } else {
      JoinedKeys(t + k + "/", keys[1..]);
      assert |t + k + "/"| - 1 == |t| + |k|;
      assert keys == [k] + keys[1..];
    }
  }

  lemma {:induction false} NoMoreKeys(u: string)
    ensures Keys(u, |u|) == []
  {
  }

  /** A prefix that ends in a slash keeps its keys when more is written after it. */
  lemma {:induction false} KeysAppended(t: string, s: string, cursor: nat)
    requires t != "" && t[|t| - 1] == '/' && cursor < |t|
    ensures Keys(t + s, cursor) == Keys(t, cursor) + Keys(t + s, |t| - 1)
    decreases |t| - cursor
  {
    hide *;
    if cursor == |t| - 1 {
      LastSlash(t);
    } else {
      var u := t + s;
      var a := Skip(t, cursor);
      var e := MidEnd(t, a);
      PrefixMid(t, s, cursor);
      KeysStep(t, cursor);
      KeysStep(u, cursor);
      KeysAppended(t, s, e);
    }
  }

  lemma {:induction false} PrefixMid(t: string, s: string, cursor: nat)
    requires t != "" && t[|t| - 1] == '/' && cursor < |t| - 1
    ensures var u := t + s;
            var a := Skip(t, cursor);
            var e := MidEnd(t, a);
            && cursor < e < |t| && Skip(u, cursor) == a && MidEnd(u, a) == e && u[a..e] == t[a..e]
  {
    var u := t + s;
    var a := Skip(t, cursor);
    var e := MidEnd(t, a);
    assert forall i :: 0 <= i < |t| ==> u[i] == t[i];
    MidEndIs(u, a, e);
  }

  /** So are the parts of a request that goes on with a slash after it. */
  lemma {:induction false} PartsAppended(t: string, p: string, raw: string, cursor: nat)
    requires cursor <= |t| && p != "" && p[0] == '/' && |p| <= |raw|
    ensures var all := Parts(t + p, t + raw, cursor);
            var n := |Keys(t + "/", cursor)|;
            && n <= |all| && Mids(all[..n]) == Keys(t + "/", cursor) && all[n..] == Parts(p, raw, 0)
    decreases |t| - cursor
  {
    if cursor == |t| {
      PartsShifted(t, p, raw, 0);
      LastSlash(t + "/");
    } else {
      var u, s := t + p, t + "/";
      var a := Skip(s, cursor);
      var e := MidEnd(s, a);
      SameMid(t, p, cursor);
      PartsStep(u, t + raw, cursor, a, e);
      KeysStep(s, cursor);
      hide *;
      PartsAppended(t, p, raw, e);
      OnePartMore(Part(u[a..e], (t + raw)[e..]), Parts(u, t + raw, e), |Keys(s, e)|);
    }
  }

  /** Up to its end, the prefix reads the same with a slash after it as with a request. */
  lemma {:induction false} SameMid(t: string, p: string, cursor: nat)
    requires cursor < |t| && p != "" && p[0] == '/'
    ensures var u, s := t + p, t + "/";
            var a := Skip(s, cursor);
            var e := MidEnd(s, a);
            && cursor < e <= |t| && Skip(u, cursor) == a && MidEnd(u, a) == e && u[a..e] == s[a..e]
  {
    var u, s := t + p, t + "/";
    var a := Skip(s, cursor);
    assert forall i :: 0 <= i <= |t| ==> u[i] == s[i];
    assert s[|t|] == '/';
    MidEndIs(u, a, MidEnd(s, a));
  }

  lemma {:induction false} OnePartMore(part: Part, rest: seq<Part>, n: nat)
    requires n <= |rest|
    ensures Mids(([part] + rest)[..n + 1]) == [part.mid] + Mids(rest[..n])
    ensures ([part] + rest)[n + 1..] == rest[n..]
  {
    assert ([part] + rest)[..n + 1] == [part] + rest[..n];
  }

  lemma {:induction false} MidEndShifted(t: string, p: string, a: nat)
    requires a <= |p|
    ensures MidEnd(t + p, |t| + a) == |t| + MidEnd(p, a)
  {
    var e := MidEnd(p, a);
    assert forall i :: a <= i < e ==> (t + p)[|t| + i] == p[i];
    MidEndIs(t + p, |t| + a, |t| + e);
  }

  lemma {:induction false} NoMoreParts(route: string, raw: string)
    requires |route| <= |raw|
    ensures Parts(route, raw, |route|) == []
  {
  }

  lemma {:induction false} PartsShifted(t: string, p: string, raw: string, cursor: nat)
    requires cursor <= |p| <= |raw|
    ensures Parts(t + p, t + raw, |t| + cursor) == Parts(p, raw, cursor)
    decreases |p| - cursor
  {
    hide Parts;
    hide MidEnd;
    if cursor == |p| {
      NoMoreParts(p, raw);
      NoMoreParts(t + p, t + raw);
    } else {
      var a := Skip(p, cursor);
      var e := MidEnd(p, a);
      MidEndShifted(t, p, a);
      PartsStep(p, raw, cursor, a, e);
      PartsStep(t + p, t + raw, |t| + cursor, |t| + a, |t| + e);
      assert (t + p)[|t| + a..|t| + e] == p[a..e];
      assert (t + raw)[|t| + e..] == raw[e..];
      PartsShifted(t, p, raw, e);
    }
  }

  // ---- mounting as insertions of leaves

  /** A handler to be put at the end of a path. */
  datatype Filing<H> = Filing(path: seq<string>, handler: VerbHandler<H>)

  function File<H>(n: Node<H>, f: Filing<H>): Node<H> { Insert(n, f.path, _ => f.handler) }

  function FileAll<H>(n: Node<H>, fs: seq<Filing<H>>): Node<H>
    decreases |fs|
  {
    if fs == [] then n else FileAll(File(n, fs[0]), fs[1..])
  }

  function Prepend<H>(keys: seq<string>, fs: seq<Filing<H>>): (r: seq<Filing<H>>)
    ensures |r| == |fs|
  {
    seq(|fs|, i requires 0 <= i < |fs| => fs[i].(path := keys + fs[i].path))
  }

  /** The leaves below a node of the blueprint, `keys` being its own path; their handlers get the text of
      the route they are mounted at. */
  function Leaves<H>(n: Node<H>, keys: seq<string>, prefix: string): seq<Filing<H>>
    decreases n, 1
  {
    if n.children == [] then [Filing([], n.handler.(path := MountText(prefix, Join(keys))))]
    else ChildLeaves(n.children, keys, prefix)
  }

  function ChildLeaves<H>(children: seq<Child<H>>, keys: seq<string>, prefix: string): seq<Filing<H>>
    decreases children, 0
  {
    if children == [] then [] else
      Prepend([children[0].key], Leaves(children[0].node, keys + [children[0].key], prefix))
      + ChildLeaves(children[1..], keys, prefix)
  }

  lemma {:induction false} InsertSame<H>(n: Node<H>, keys: seq<string>, f: VerbHandler<H> -> VerbHandler<H>,
                                         g: VerbHandler<H> -> VerbHandler<H>)
    requires forall vh :: f(vh) == g(vh)
    ensures Insert(n, keys, f) == Insert(n, keys, g)
    decreases |keys|
  {
    if keys != [] {
      var i := IndexOf(n.children, keys[0]);
      if i < |n.children| {
        InsertSame(n.children[i].node, keys[1..], f, g);
      } else {
        InsertSame(Empty(), keys[1..], f, g);
      }
    }
  }

  lemma {:induction false} FileAllJoined<H>(n: Node<H>, a: seq<Filing<H>>, b: seq<Filing<H>>)
    ensures FileAll(n, a + b) == FileAll(FileAll(n, a), b)
    decreases |a|
  {
    if a == [] {
      assert a + b == b;
    } else {
      assert (a + b)[1..] == a[1..] + b;
      FileAllJoined(File(n, a[0]), a[1..], b);
    }
  }

  lemma {:induction false} MountJoined<H>(root: Node<H>, prefix: string, a: seq<Route<H>>, b: seq<Route<H>>)
    ensures Mount(root, prefix, a + b) == Mount(Mount(root, prefix, a), prefix, b)
    decreases |a|
  {
    if a == [] {
      assert a + b == b;
    } else {
      assert (a + b)[1..] == a[1..] + b;
      MountJoined(MountOne(root, prefix, a[0]), prefix, a[1..], b);
    }
  }

  lemma {:induction false} PrependJoined<H>(keys: seq<string>, a: seq<Filing<H>>, b: seq<Filing<H>>)
    ensures Prepend(keys, a + b) == Prepend(keys, a) + Prepend(keys, b)
  {
  }

  lemma {:induction false} PrependTwice<H>(keys: seq<string>, key: string, fs: seq<Filing<H>>)
    ensures Prepend(keys, Prepend([key], fs)) == Prepend(keys + [key], fs)
  {
    assert forall i :: 0 <= i < |fs| ==> keys + ([key] + fs[i].path) == (keys + [key]) + fs[i].path;
  }

  /** The keys of the prefix. */
  function PrefixKeys(prefix: string): seq<string> { Keys(MountText(prefix, ""), 0) }

  lemma {:induction false} JoinedIsLonger(keys: seq<string>)
    requires keys != [] && PlainKeys(keys)
    ensures Join(keys) != "" && Join(keys)[|Join(keys)| - 1] != '/'
  {
    assert PlainKey(keys[0]);
    if |keys| > 1 {
      JoinedIsLonger(keys[1..]);
    } else {
      assert keys[0][|keys[0]| - 1] in keys[0];
    }
  }

  lemma {:induction false} JoinOneMore(keys: seq<string>, key: string)
    requires PlainKeys(keys)
    ensures Join(keys + [key]) == Slashed(Join(keys)) + key
  {
    if keys != [] {
      JoinedIsLonger(keys);
      JoinSlash(keys, key);
    }
  }

  lemma {:induction false} JoinSlash(keys: seq<string>, key: string)
    requires keys != []
    ensures Join(keys + [key]) == Join(keys) + "/" + key
  {
    if |keys| == 1 {
      assert (keys + [key])[1..] == [key];
    } else {
      assert (keys + [key])[1..] == keys[1..] + [key];
      JoinSlash(keys[1..], key);
    }
  }

  /** Where a leaf's text is filed. */
  lemma {:induction false} MountKeys(prefix: string, keys: seq<string>)
    requires keys != [] && PlainKeys(keys)
    ensures var text := MountText(prefix, Join(keys));
            text != "/" && Keys(text, 0) == PrefixKeys(prefix) + keys
  {
    var t := MountText(prefix, "");
    assert MountText(prefix, Join(keys)) == t + Join(keys);
    JoinedIsLonger(keys);
    KeysAppended(t, Join(keys), 0);
    JoinedKeys(t, keys);
  }

  lemma {:induction false} MountIsFiling<H>(root: Node<H>, prefix: string, n: Node<H>, keys: seq<string>)
    requires Plain(n) && PlainKeys(keys) && (keys == [] ==> n.children != [])
    ensures Mount(root, prefix, AllRoutes(n, Join(keys)))
            == FileAll(root, Prepend(PrefixKeys(prefix) + keys, Leaves(n, keys, prefix)))
    decreases n, 1
  {
    if n.children == [] {
      LeafIsFiled(root, prefix, n, keys);
    } else {
      ChildrenAreFiled(root, prefix, n.children, keys);
    }
  }

  lemma {:induction false} LeafIsFiled<H>(root: Node<H>, prefix: string, n: Node<H>, keys: seq<string>)
    requires n.children == [] && keys != [] && PlainKeys(keys)
    ensures Mount(root, prefix, AllRoutes(n, Join(keys)))
            == FileAll(root, Prepend(PrefixKeys(prefix) + keys, Leaves(n, keys, prefix)))
  {
    hide PrefixKeys;
    hide Keys;
    hide Join;
    hide Insert;
    var text := MountText(prefix, Join(keys));
    MountKeys(prefix, keys);
    var route := Route(Join(keys), n.handler);
    var all := PrefixKeys(prefix) + keys;
    var f := Filing(all, n.handler.(path := text));
    assert AllRoutes(n, Join(keys)) == [route];
    assert all + [] == all;
    assert Prepend(all, Leaves(n, keys, prefix)) == [f];
    InsertSame(root, all, _ => route.handler.(path := text), _ => f.handler);
    assert MountOne(root, prefix, route) == File(root, f);
    assert Mount(root, prefix, [route]) == MountOne(root, prefix, route);
    assert FileAll(root, [f]) == File(root, f);
  }

  lemma {:induction false} ChildrenAreFiled<H>(root: Node<H>, prefix: string, children: seq<Child<H>>,
                                               keys: seq<string>)
    requires PlainKeys(keys) && forall i :: 0 <= i < |children| ==> PlainKey(children[i].key) && Plain(children[i].node)
    ensures Mount(root, prefix, ChildRoutes(children, Slashed(Join(keys))))
            == FileAll(root, Prepend(PrefixKeys(prefix) + keys, ChildLeaves(children, keys, prefix)))
    decreases children, 0
  {
    if children != [] {
      var c, rest := children[0], children[1..];
      var all := PrefixKeys(prefix) + keys;
      var sub := Leaves(c.node, keys + [c.key], prefix);
      var routes := AllRoutes(c.node, Join(keys + [c.key]));
      JoinOneMore(keys, c.key);
      assert PlainKeys(keys + [c.key]);
      MountIsFiling(root, prefix, c.node, keys + [c.key]);
      assert PrefixKeys(prefix) + (keys + [c.key]) == all + [c.key];
      PrependTwice(all, c.key, sub);
      var mid := Mount(root, prefix, routes);
      ChildrenAreFiled(mid, prefix, rest, keys);
      hide *;
      ChildSteps(children, keys, prefix);
      MountJoined(root, prefix, routes, ChildRoutes(rest, Slashed(Join(keys))));
      PrependJoined(all, Prepend([c.key], sub), ChildLeaves(rest, keys, prefix));
      FileAllJoined(root, Prepend(all, Prepend([c.key], sub)), Prepend(all, ChildLeaves(rest, keys, prefix)));
    } else {
      assert Prepend<H>(PrefixKeys(prefix) + keys, []) == [];
    }
  }

  lemma {:induction false} ChildSteps<H>(children: seq<Child<H>>, keys: seq<string>, prefix: string)
    requires children != []
    ensures var c := children[0];
            && ChildRoutes(children, Slashed(Join(keys)))
               == AllRoutes(c.node, Slashed(Join(keys)) + c.key) + ChildRoutes(children[1..], Slashed(Join(keys)))
            && ChildLeaves(children, keys, prefix)
               == Prepend([c.key], Leaves(c.node, keys + [c.key], prefix)) + ChildLeaves(children[1..], keys, prefix)
  {
    hide Leaves;
    hide AllRoutes;
    hide Prepend;
  }
}
