/** A mounted blueprint is the blueprint under its prefix, with the handlers of its leaves; so it routes as
    before exactly when the blueprint has handlers only at its leaves. */
module BlueprintRouting {
  import opened Bytes
  import opened RouteTree
  import opened RouteLookup
  import opened RouteBuild
  import opened BlueprintMount

  /** The trie with only its leaves' handlers, renamed to where they are mounted. */
  function Remade<H>(n: Node<H>, keys: seq<string>, prefix: string): Node<H>
    decreases n, 1
  {
    if n.children == [] then Node(n.handler.(path := MountText(prefix, Join(keys))), [])
    else Node(NoHandler(), RemadeChildren(n.children, keys, prefix))
  }

  function RemadeChildren<H>(children: seq<Child<H>>, keys: seq<string>, prefix: string): (r: seq<Child<H>>)
    ensures |r| == |children|
    ensures forall i :: 0 <= i < |r| ==> r[i].key == children[i].key
                                         && r[i].node == Remade(children[i].node, keys + [children[i].key], prefix)
    decreases children, 0
  {
    if children == [] then [] else
      [Child(children[0].key, Remade(children[0].node, keys + [children[0].key], prefix))]
      + RemadeChildren(children[1..], keys, prefix)
  }

  /** A trie under a chain of keys. */
  function Chain<H>(keys: seq<string>, n: Node<H>): Node<H> {
    if keys == [] then n else Node(NoHandler(), [Child(keys[0], Chain(keys[1..], n))])
  }

  // ---- filing the leaves rebuilds the trie

  /** Filing below the last child. */
  lemma {:induction false} FileUnderLast<H>(done: seq<Child<H>>, key: string, n: Node<H>, fs: seq<Filing<H>>)
    requires forall i :: 0 <= i < |done| ==> done[i].key != key
    ensures FileAll(Node(NoHandler(), done + [Child(key, n)]), Prepend([key], fs))
            == Node(NoHandler(), done + [Child(key, FileAll(n, fs))])
    decreases |fs|
  {
    var all := Prepend([key], fs);
    if fs != [] {
      var z := Node(NoHandler(), done + [Child(key, n)]);
      assert all[1..] == Prepend([key], fs[1..]);
      assert z.children[|done|].key == key;
      assert IndexOf(z.children, key) == |done|;
      assert all[0].path[1..] == fs[0].path && all[0].path[0] == key;
      InsertSame(n, fs[0].path, _ => all[0].handler, _ => fs[0].handler);
      assert File(z, all[0]) == Node(NoHandler(), done + [Child(key, File(n, fs[0]))]);
      hide Insert;
      FileUnderLast(done, key, File(n, fs[0]), fs[1..]);
    }
  }

  /** Filing below a new key that comes after all others. */
  lemma {:induction false} FileUnderNew<H>(done: seq<Child<H>>, key: string, fs: seq<Filing<H>>)
    requires fs != [] && forall i :: 0 <= i < |done| ==> Less(done[i].key, key)
    ensures FileAll(Node(NoHandler(), done), Prepend([key], fs))
            == Node(NoHandler(), done + [Child(key, FileAll(Empty(), fs))])
  {
    var all := Prepend([key], fs);
    var z := Node(NoHandler<H>(), done);
    forall i | 0 <= i < |done| ensures done[i].key != key { LessIsStrict(done[i].key, key); }
    assert all[1..] == Prepend([key], fs[1..]);
    assert IndexOf(done, key) == |done| && Rank(done, key) == |done|;
    assert all[0].path[1..] == fs[0].path && all[0].path[0] == key;
    InsertSame(Empty(), fs[0].path, _ => all[0].handler, _ => fs[0].handler);
    assert File(z, all[0]) == Node(NoHandler(), done + [Child(key, File(Empty(), fs[0]))]);
    hide Insert;
    FileUnderLast(done, key, File(Empty(), fs[0]), fs[1..]);
  }

  lemma {:induction false} LeavesRemake<H>(n: Node<H>, keys: seq<string>, prefix: string)
    requires WellFormed(n)
    ensures Leaves(n, keys, prefix) != []
    ensures FileAll(Empty(), Leaves(n, keys, prefix)) == Remade(n, keys, prefix)
    decreases n, 2
  {
    if n.children == [] {
      var f := Leaves(n, keys, prefix)[0];
      assert FileAll(Empty(), [f]) == File(Empty(), f);
    } else {
      ChildrenRemake(n.children, keys, prefix, []);
      assert [] + RemadeChildren(n.children, keys, prefix) == RemadeChildren(n.children, keys, prefix);
    }
  }

  lemma {:induction false} ChildrenRemake<H>(children: seq<Child<H>>, keys: seq<string>, prefix: string,
                                             done: seq<Child<H>>)
    requires Sorted(children) && forall i :: 0 <= i < |children| ==> WellFormed(children[i].node)
    requires forall i, j :: 0 <= i < |done| && 0 <= j < |children| ==> Less(done[i].key, children[j].key)
    ensures children != [] ==> ChildLeaves(children, keys, prefix) != []
    ensures FileAll(Node(NoHandler(), done), ChildLeaves(children, keys, prefix))
            == Node(NoHandler(), done + RemadeChildren(children, keys, prefix))
    decreases children, 1
  {
    if children == [] {
      NoMoreChildren(done, keys, prefix);
    } else {
      FirstChildRemakes(children, keys, prefix, done);
    }
  }

  lemma {:induction false} NoMoreChildren<H>(done: seq<Child<H>>, keys: seq<string>, prefix: string)
    ensures FileAll(Node(NoHandler(), done), ChildLeaves([], keys, prefix))
            == Node(NoHandler(), done + RemadeChildren([], keys, prefix))
  {
    assert done + [] == done;
  }

  lemma {:induction false} FirstChildRemakes<H>(children: seq<Child<H>>, keys: seq<string>, prefix: string,
                                                done: seq<Child<H>>)
    requires children != [] && Sorted(children) && forall i :: 0 <= i < |children| ==> WellFormed(children[i].node)
    requires forall i, j :: 0 <= i < |done| && 0 <= j < |children| ==> Less(done[i].key, children[j].key)
    ensures ChildLeaves(children, keys, prefix) != []
    ensures FileAll(Node(NoHandler(), done), ChildLeaves(children, keys, prefix))
            == Node(NoHandler(), done + RemadeChildren(children, keys, prefix))
    decreases children, 0
  {
    hide *;
    var c, rest := children[0], children[1..];
    var sub := Leaves(c.node, keys + [c.key], prefix);
    var made := Child(c.key, Remade(c.node, keys + [c.key], prefix));
    RestInOrder(children, done, made);
    LeavesRemake(c.node, keys + [c.key], prefix);
    FileUnderNew(done, c.key, sub);
    ChildSteps(children, keys, prefix);
    FileAllJoined(Node(NoHandler(), done), Prepend([c.key], sub), ChildLeaves(rest, keys, prefix));
    ChildrenRemake(rest, keys, prefix, done + [made]);
    RemadeStep(children, keys, prefix);
    assert done + ([made] + RemadeChildren(rest, keys, prefix)) == (done + [made]) + RemadeChildren(rest, keys, prefix);
  }

  lemma {:induction false} RestInOrder<H>(children: seq<Child<H>>, done: seq<Child<H>>, made: Child<H>)
    requires children != [] && Sorted(children) && made.key == children[0].key
    requires forall i, j :: 0 <= i < |done| && 0 <= j < |children| ==> Less(done[i].key, children[j].key)
    ensures var rest := children[1..];
            && Sorted(rest) && (forall i :: 0 <= i < |done| ==> Less(done[i].key, children[0].key))
            && forall i, j :: 0 <= i < |done + [made]| && 0 <= j < |rest| ==> Less((done + [made])[i].key, rest[j].key)
  {
    hide Less;
  }

  lemma {:induction false} RemadeStep<H>(children: seq<Child<H>>, keys: seq<string>, prefix: string)
    requires children != []
    ensures RemadeChildren(children, keys, prefix)
            == [Child(children[0].key, Remade(children[0].node, keys + [children[0].key], prefix))]
               + RemadeChildren(children[1..], keys, prefix)
  {
  }

  /** Under the prefix's keys, the same. */
  lemma {:induction false} FileUnderChain<H>(keys: seq<string>, fs: seq<Filing<H>>)
    requires fs != []
    ensures FileAll(Empty(), Prepend(keys, fs)) == Chain(keys, FileAll(Empty(), fs))
    decreases |keys|
  {
    if keys == [] {
      assert forall i :: 0 <= i < |fs| ==> [] + fs[i].path == fs[i].path;
      assert Prepend(keys, fs) == fs;
    } else {
      var key, rest := keys[0], keys[1..];
      assert forall i :: 0 <= i < |fs| ==> [key] + (rest + fs[i].path) == keys + fs[i].path;
      assert Prepend([key], Prepend(rest, fs)) == Prepend(keys, fs);
      FileUnderNew([], key, Prepend(rest, fs));
      assert [] + [Child(key, FileAll(Empty(), Prepend(rest, fs)))]
             == [Child(key, FileAll(Empty(), Prepend(rest, fs)))];
      FileUnderChain(rest, fs);
    }
  }

  /** Mounting in an empty table gives exactly the remade blueprint under the prefix; but a blueprint that is
      its root alone, under a prefix of no keys, becomes the route "/". */
  lemma {:induction false} MountedTrie<H>(n: Node<H>, prefix: string)
    requires WellFormed(n) && Plain(n) && (n.children == [] ==> PrefixKeys(prefix) != [])
    ensures Mount(Empty(), prefix, AllRoutes(n, "")) == Chain(PrefixKeys(prefix), Remade(n, [], prefix))
  {
    if n.children == [] {
      RootIsFiled(n, prefix);
    } else {
      MountIsFiling(Empty(), prefix, n, []);
    }
    LeavesRemake(n, [], prefix);
    assert PrefixKeys(prefix) + [] == PrefixKeys(prefix);
    assert Join([]) == "";
    hide *;
    FileUnderChain(PrefixKeys(prefix), Leaves(n, [], prefix));
  }

  lemma {:induction false} RootIsFiled<H>(n: Node<H>, prefix: string)
    requires n.children == [] && PrefixKeys(prefix) != []
    ensures Mount(Empty(), prefix, AllRoutes(n, ""))
            == FileAll(Empty(), Prepend(PrefixKeys(prefix), Leaves(n, [], prefix)))
  {
    hide Keys;
    hide Insert;
    var keys, text := PrefixKeys(prefix), MountText(prefix, "");
    var f := Filing(keys, n.handler.(path := text));
    LastSlash(text);
    assert keys + [] == keys;
    assert Prepend(keys, Leaves(n, [], prefix)) == [f];
    InsertSame(Empty(), keys, _ => n.handler.(path := text), _ => f.handler);
    assert text != "/";
    assert MountOne(Empty(), prefix, Route("", n.handler)) == File(Empty(), f);
    assert Mount(Empty(), prefix, [Route("", n.handler)]) == MountOne(Empty(), prefix, Route("", n.handler));
    assert FileAll(Empty(), [f]) == File(Empty(), f);
  }

  // ---- lookups

  /** No node below has both children and a handler. */
  ghost predicate Silent<H>(n: Node<H>) {
    (n.children != [] ==> n.handler.verbs == map[]) && forall i :: 0 <= i < |n.children| ==> Silent(n.children[i].node)
  }

  ghost predicate SilentBelow<H>(n: Node<H>) {
    forall i :: 0 <= i < |n.children| ==> Silent(n.children[i].node)
  }

  lemma {:induction false} SameKeys<H>(a: seq<Child<H>>, b: seq<Child<H>>, key: string)
    requires |a| == |b| && forall i :: 0 <= i < |a| ==> a[i].key == b[i].key
    ensures IndexOf(a, key) == IndexOf(b, key) && FirstWild(a, key) == FirstWild(b, key)
  {
    hide IndexOf;
    hide FirstWild;
    hide WildFits;
    var i, j := IndexOf(a, key), IndexOf(b, key);
    assert i < |a| ==> b[i].key == key;
    assert j < |b| ==> a[j].key == key;
    var k, l := FirstWild(a, key), FirstWild(b, key);
    assert k < |a| ==> WildFits(b[k].key, key);
    assert l < |b| ==> WildFits(a[l].key, key);
  }

  /** The remade trie finds what the blueprint does, wherever a handler of an inner node plays no part. */
  lemma {:induction false} RemadeFinds<H>(n: Node<H>, keys: seq<string>, prefix: string, parts: seq<Part>,
                                          params: map<string, string>, matchPath: string)
    requires SilentBelow(n) && (n.children != [] && parts == [] ==> n.handler.verbs == map[])
    ensures Find(Remade(n, keys, prefix), parts, params, matchPath) == Find(n, parts, params, matchPath)
    decreases |parts|
  {
    hide Remade;
    hide SilentBelow;
    hide Fits;
    var z := Remade(n, keys, prefix);
    RemadeHas(n, keys, prefix);
    if n.children != [] {
      if parts == [] {
        SameKeys(z.children, n.children, "*");
      } else {
        var mid := parts[0].mid;
        SameKeys(z.children, n.children, mid);
        var e, w := IndexOf(n.children, mid), FirstWild(n.children, mid);
        hide IndexOf;
        hide FirstWild;
        if e < |n.children| {
          SilentChild(n, e);
          RemadeFinds(n.children[e].node, keys + [n.children[e].key], prefix, parts[1..], params, matchPath);
        }
        var exact := FindExact(n, parts, params, matchPath);
        if w < |n.children| && !StarFits(n.children[w].key, mid) {
          SilentChild(n, w);
          var params' := exact.params[ParamName(n.children[w].key) := mid];
          RemadeFinds(n.children[w].node, keys + [n.children[w].key], prefix, parts[1..], params', exact.matchPath);
        }
      }
    }
  }

  lemma {:induction false} SilentChild<H>(n: Node<H>, i: nat)
    requires SilentBelow(n) && i < |n.children|
    ensures var x := n.children[i].node; SilentBelow(x) && (x.children != [] ==> x.handler.verbs == map[])
  {
  }

  lemma {:induction false} RemadeAt<H>(n: Node<H>, keys: seq<string>, prefix: string, path: seq<string>)
    ensures At(Remade(n, keys, prefix), path)
            == match At(n, path) case None => None case Some(x) => Some(Remade(x, keys + path, prefix))
    decreases |path|
  {
    hide *;
    var z := Remade(n, keys, prefix);
    if path == [] {
      assert keys + path == keys;
      AtRoot(n, path);
      AtRoot(z, path);
    } else {
      AtStep(n, path);
      AtStep(z, path);
      RemadeHas(n, keys, prefix);
      SameKeys(z.children, n.children, path[0]);
      var i := IndexOf(n.children, path[0]);
      if i < |n.children| {
        RemadeAt(n.children[i].node, keys + [path[0]], prefix, path[1..]);
        assert (keys + [path[0]]) + path[1..] == keys + path;
      }
    }
  }

  lemma {:induction false} AtRoot<H>(n: Node<H>, path: seq<string>)
    requires path == []
    ensures At(n, path) == Some(n)
  {
  }

  lemma {:induction false} RemadeHas<H>(n: Node<H>, keys: seq<string>, prefix: string)
    ensures var z := Remade(n, keys, prefix);
            && |z.children| == |n.children| && (n.children != [] ==> z.handler == NoHandler())
            && forall i :: 0 <= i < |n.children| ==>
                 z.children[i].key == n.children[i].key
                 && z.children[i].node == Remade(n.children[i].node, keys + [n.children[i].key], prefix)
  {
  }

  function UnderAll(keys: seq<string>, l: Lookup): Lookup {
    if keys == [] then l else Under(keys[0], UnderAll(keys[1..], l))
  }

  lemma {:induction false} UnderAllPath(keys: seq<string>, l: Lookup)
    ensures UnderAll(keys, l) == match l.path case None => l case Some(path) => l.(path := Some(keys + path))
  {
    if keys == [] {
      if l.path.Some? { assert [] + l.path.value == l.path.value; }
    } else {
      UnderAllPath(keys[1..], l);
      if l.path.Some? { assert [keys[0]] + (keys[1..] + l.path.value) == keys + l.path.value; }
    }
  }

  lemma {:induction false} MidsOfRest(parts: seq<Part>)
    requires parts != []
    ensures Mids(parts[1..]) == Mids(parts)[1..]
  {
  }

  /** A chain of plain names leads every request that begins with them to its end, and no other way. */
  lemma {:induction false} ChainFinds<H>(keys: seq<string>, n: Node<H>, parts: seq<Part>, params: map<string, string>,
                                         matchPath: string)
    requires |keys| <= |parts| && Mids(parts[..|keys|]) == keys
    requires forall i :: 0 <= i < |keys| ==> !IsPattern(keys[i])
    ensures Find(Chain(keys, n), parts, params, matchPath)
            == UnderAll(keys, Find(n, parts[|keys|..], params, matchPath))
    decreases |keys|
  {
    if keys == [] {
      assert parts[0..] == parts;
    } else {
      var z := Chain(keys, n);
      assert parts[0].mid == Mids(parts[..|keys|])[0] == keys[0];
      assert parts[1..][..|keys| - 1] == parts[..|keys|][1..];
      MidsOfRest(parts[..|keys|]);
      assert parts[1..][|keys| - 1..] == parts[|keys|..];
      ChainFinds(keys[1..], n, parts[1..], params, matchPath);
      assert IndexOf(z.children, keys[0]) == 0;
      assert FirstWild(z.children, keys[0]) == 1;
    }
  }

  lemma {:induction false} ChainAt<H>(keys: seq<string>, n: Node<H>, path: seq<string>)
    ensures At(Chain(keys, n), keys + path) == At(n, path)
    decreases |keys|
  {
    if keys == [] {
      assert keys + path == path;
    } else {
      assert (keys + path)[1..] == keys[1..] + path;
      ChainAt(keys[1..], n, path);
    }
  }

  /** The prefix without a last slash. */
  function Base(prefix: string): string {
    if prefix != "" && prefix[|prefix| - 1] == '/' then prefix[..|prefix| - 1] else prefix
  }

  function Mounted<H>(n: Node<H>, prefix: string): Node<H> { Mount(Empty(), prefix, AllRoutes(n, "")) }

  /** What is found in the mounted blueprint is what is found in the blueprint itself: the same path, below the
      prefix, with the same bindings, match path and handlers. */
  ghost predicate SameFound<H>(n: Node<H>, prefix: string, l: Lookup, m: Lookup) {
    var keys := PrefixKeys(prefix);
    && (l.path.Some? <==> m.path.Some?)
    && (l.path.Some? ==>
          && m == UnderAll(keys, l) && At(n, l.path.value).Some?
          && (var h, h' := HandlerAt(n, l.path.value), HandlerAt(Mounted(n, prefix), keys + l.path.value);
              && h'.verbs == h.verbs
              && (At(n, l.path.value).value.children == [] ==>
                  h' == h.(path := MountText(prefix, Join(l.path.value))))))
  }

  /** For the prefix and then `p`, the mounted blueprint does what the blueprint itself does for `p`. */
  ghost predicate Agrees<H>(n: Node<H>, prefix: string, p: string, raw: string)
    requires |p| <= |raw|
  {
    var l, m := FindRoute(n, p, raw), FindRoute(Mounted(n, prefix), Base(prefix) + p, Base(prefix) + raw);
    m == UnderAll(PrefixKeys(prefix), l) && SameFound(n, prefix, l, m)
  }

  ghost predicate Mountable<H>(n: Node<H>, prefix: string) {
    && WellFormed(n) && Plain(n) && (n.children == [] ==> PrefixKeys(prefix) != [])
    && forall i :: 0 <= i < |PrefixKeys(prefix)| ==> !IsPattern(PrefixKeys(prefix)[i])
  }

  lemma {:induction false} MountedHandler<H>(n: Node<H>, prefix: string, path: seq<string>)
    requires Mountable(n, prefix) && At(n, path).Some?
    ensures HandlerAt(Mounted(n, prefix), PrefixKeys(prefix) + path)
            == if At(n, path).value.children == [] then HandlerAt(n, path).(path := MountText(prefix, Join(path)))
                else NoHandler()
  {
    MountedTrie(n, prefix);
    ChainAt(PrefixKeys(prefix), Remade(n, [], prefix), path);
    RemadeAt(n, [], prefix, path);
    assert [] + path == path;
  }

  lemma {:induction false} NoSlashChild<H>(children: seq<Child<H>>)
    requires forall i :: 0 <= i < |children| ==> PlainKey(children[i].key)
    ensures !Has(children, "/")
  {
  }

  /** Lookups below the prefix, in terms of the trie that is mounted there. */
  lemma {:induction false} MountedFinds<H>(n: Node<H>, prefix: string, p: string, raw: string)
    requires Mountable(n, prefix) && p != "" && p[0] == '/' && |p| <= |raw|
    ensures FindRoute(n, p, raw) == Find(n, Parts(p, raw, 0), map[], "") && Parts(p, raw, 0) != []
    ensures FindRoute(Mounted(n, prefix), Base(prefix) + p, Base(prefix) + raw)
            == UnderAll(PrefixKeys(prefix), Find(Remade(n, [], prefix), Parts(p, raw, 0), map[], ""))
  {
    var t, keys := Base(prefix), PrefixKeys(prefix);
    var z := Remade(n, [], prefix);
    assert MountText(prefix, "") == t + "/";
    NoSlashChild(n.children);
    MountedTrie(n, prefix);
    KeysHaveNoSlash(t + "/", 0);
    if keys == [] {
      NoSlashChild(z.children);
    } else {
      assert !Has(Chain(keys, z).children, "/");
    }
    PartsAppended(t, p, raw, 0);
    ChainFinds(keys, z, Parts(t + p, t + raw, 0), map[], "");
  }

  /** A lookup that finds the same path in both finds the same handlers. */
  lemma {:induction false} SilentFound<H>(n: Node<H>, prefix: string, parts: seq<Part>, l: Lookup, m: Lookup)
    requires Mountable(n, prefix) && SilentBelow(n) && l == Find(n, parts, map[], "")
    requires (l.path.Some? <==> m.path.Some?) && (l.path.Some? ==> m == UnderAll(PrefixKeys(prefix), l))
    requires l.path.Some? && l.path.value == [] ==> n.children == []
    ensures SameFound(n, prefix, l, m)
  {
    hide Find;
    hide Mounted;
    hide Fits;
    hide ByFirst;
    hide Join;
    FoundFits(n, parts, map[], "");
    if l.path.Some? {
      MountedHandler(n, prefix, l.path.value);
      SilentAt(n, l.path.value);
    }
  }

  lemma {:induction false} SilentAgrees<H>(n: Node<H>, prefix: string, p: string, raw: string)
    requires Mountable(n, prefix) && SilentBelow(n) && p != "" && p[0] == '/' && |p| <= |raw|
    ensures Agrees(n, prefix, p, raw)
  {
    hide Find;
    hide FindRoute;
    hide SameFound;
    hide Mounted;
    hide Mountable;
    hide SilentBelow;
    var parts := Parts(p, raw, 0);
    var l, keys := Find(n, parts, map[], ""), PrefixKeys(prefix);
    MountedFinds(n, prefix, p, raw);
    RemadeFinds(n, [], prefix, parts, map[], "");
    UnderAllPath(keys, l);
    FoundOnlyLeaf(n, parts);
    SilentFound(n, prefix, parts, l, UnderAll(keys, l));
  }

  lemma {:induction false} FoundOnlyLeaf<H>(n: Node<H>, parts: seq<Part>)
    requires parts != []
    ensures var l := Find(n, parts, map[], ""); l.path.Some? && l.path.value == [] ==> n.children == []
  {
  }

  lemma {:induction false} SilentAt<H>(n: Node<H>, path: seq<string>)
    requires SilentBelow(n) && (path == [] ==> n.children == []) && At(n, path).Some?
    ensures At(n, path).value.children == [] || HandlerAt(n, path).verbs == map[]
    decreases |path|
  {
    if |path| > 1 { SilentAt(n.children[IndexOf(n.children, path[0])].node, path[1..]); }
  }

  // ---- a handler at an inner node is lost

  lemma {:induction false} LoudPath<H>(n: Node<H>) returns (path: seq<string>)
    requires WellFormed(n) && !Silent(n)
    ensures At(n, path).Some? && At(n, path).value.children != [] && HandlerAt(n, path).verbs != map[]
    decreases n
  {
    if n.children != [] && n.handler.verbs != map[] {
      path := [];
    } else {
      path := LoudPathBelow(n);
    }
  }

  lemma {:induction false} LoudPathBelow<H>(n: Node<H>) returns (path: seq<string>)
    requires WellFormed(n) && !SilentBelow(n)
    ensures path != [] && At(n, path).Some? && At(n, path).value.children != [] && HandlerAt(n, path).verbs != map[]
    decreases n, 0
  {
    var i :| 0 <= i < |n.children| && !Silent(n.children[i].node);
    var rest := LoudPath(n.children[i].node);
    OwnIndex(n.children, i);
    path := [n.children[i].key] + rest;
    assert path[1..] == rest;
  }

  lemma {:induction false} PathIsPlain<H>(n: Node<H>, path: seq<string>)
    requires Plain(n) && At(n, path).Some?
    ensures PlainKeys(path)
    decreases |path|
  {
    if path != [] {
      PathIsPlain(n.children[IndexOf(n.children, path[0])].node, path[1..]);
      assert forall i :: 0 < i < |path| ==> path[i] == path[1..][i - 1];
    }
  }

  /** A request for a node's own path, as text, finds it. */
  lemma {:induction false} OwnTextIsFound<H>(n: Node<H>, path: seq<string>)
    requires Plain(n) && path != [] && At(n, path).Some? && HandlerAt(n, path).verbs != map[]
    ensures var p := "/" + Join(path); FindRoute(n, p, p) == Lookup(Some(path), map[], "")
  {
    var p := "/" + Join(path);
    PathIsPlain(n, path);
    JoinedKeys("/", path);
    JoinedIsLonger(path);
    PartsAreKeys(p, p, 0);
    NoSlashChild(n.children);
    OwnPathIsFound(n, Parts(p, p, 0), map[], "");
  }
}
