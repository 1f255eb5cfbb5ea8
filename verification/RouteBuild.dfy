/** What a table holds after any registrations: the trie is exactly the map of the registered keys. */
module RouteBuild {
  import opened Bytes
  import opened RouteTree
  import opened RouteLookup

  // ---- one registration

  lemma {:induction false} InsertedSorted<H>(children: seq<Child<H>>, c: Child<H>)
    requires Sorted(children) && !Has(children, c.key)
    ensures var r := Rank(children, c.key); Sorted(children[..r] + [c] + children[r..])
  {
    var r := Rank(children, c.key);
    var z := children[..r] + [c] + children[r..];
    forall i, j | 0 <= i < j < |z| ensures Less(z[i].key, z[j].key) {
      if i == r {
        AfterRank(children, c.key, j - 1);
      }
    }
  }

  /** Every key from a new key's rank on comes after it. */
  lemma {:induction false} AfterRank<H>(children: seq<Child<H>>, key: string, j: nat)
    requires Sorted(children) && !Has(children, key) && Rank(children, key) <= j < |children|
    ensures Less(key, children[j].key)
  {
    var r := Rank(children, key);
    LessIsStrict(children[r].key, key);
    if r < j { LessTransitive(key, children[r].key, children[j].key); }
  }

  lemma {:induction false} InsertWellFormed<H>(n: Node<H>, keys: seq<string>, update: VerbHandler<H> -> VerbHandler<H>)
    requires WellFormed(n)
    ensures WellFormed(Insert(n, keys, update))
    decreases |keys|
  {
    if keys != [] {
      var i := IndexOf(n.children, keys[0]);
      if i < |n.children| {
        InsertWellFormed(n.children[i].node, keys[1..], update);
      } else {
        InsertWellFormed(Empty(), keys[1..], update);
        InsertedSorted(n.children, Child(keys[0], Insert(Empty(), keys[1..], update)));
      }
    }
  }

  function HandlerAt<H>(n: Node<H>, path: seq<string>): VerbHandler<H> {
    match At(n, path) case None => NoHandler() case Some(x) => x.handler
  }

  /** Where a key stands after a child has been replaced. */
  lemma {:induction false} IndexReplaced<H>(children: seq<Child<H>>, i: nat, c: Child<H>, key: string)
    requires i == IndexOf(children, c.key) < |children|
    ensures IndexOf(children[i := c], key) == IndexOf(children, key)
  {
    hide IndexOf;
    var k, z := IndexOf(children, key), children[i := c];
    var y := IndexOf(z, key);
    if k < |children| { assert z[k].key == key; }
    if y < |z| { assert children[y].key == key; }
  }

  /** Where a key stands after a child has been put in. */
  lemma {:induction false} IndexInserted<H>(children: seq<Child<H>>, r: nat, c: Child<H>, key: string)
    requires r <= |children| && !Has(children, c.key)
    ensures var z := children[..r] + [c] + children[r..];
            var k := IndexOf(children, key);
            IndexOf(z, key) == if key == c.key then r else if k < r then k else k + 1
  {
    hide IndexOf;
    var z := children[..r] + [c] + children[r..];
    var k, y := IndexOf(children, key), IndexOf(z, key);
    assert IndexOf(children, c.key) == |children|;
    if key == c.key {
      assert z[r].key == key;
    } else {
      var p := if k < r then k else k + 1;
      if k < |children| { assert z[p] == children[k]; }
      if y < |z| {
        assert y != r;
        assert children[if y < r then y else y - 1] == z[y];
      }
    }
  }

  /** Below which child a path goes on, before and after an insertion. */
  lemma {:induction false} ChildAfter<H>(n: Node<H>, keys: seq<string>, update: VerbHandler<H> -> VerbHandler<H>,
                                         key: string)
    requires keys != []
    ensures var z := Insert(n, keys, update);
            var k, y := IndexOf(n.children, key), IndexOf(z.children, key);
            if key == keys[0] then
              y < |z.children| && z.children[y].node
                  == Insert(if k < |n.children| then n.children[k].node else Empty(), keys[1..], update)
            else (y < |z.children| <==> k < |n.children|) && (k < |n.children| ==> z.children[y] == n.children[k])
  {
    var i := IndexOf(n.children, keys[0]);
    if i < |n.children| {
      IndexReplaced(n.children, i, Child(keys[0], Insert(n.children[i].node, keys[1..], update)), key);
    } else {
      var r := Rank(n.children, keys[0]);
      IndexInserted(n.children, r, Child(keys[0], Insert(Empty(), keys[1..], update)), key);
    }
    hide IndexOf;
    hide Rank;
  }

  /** An insertion makes the nodes on its way, and changes only the handler at its end. */
  lemma {:induction false} AtInserted<H>(n: Node<H>, keys: seq<string>, update: VerbHandler<H> -> VerbHandler<H>,
                                         path: seq<string>)
    ensures var z := Insert(n, keys, update);
            && (At(z, path).Some? <==> At(n, path).Some? || path <= keys)
            && HandlerAt(z, path) == if path == keys then update(HandlerAt(n, path)) else HandlerAt(n, path)
    decreases |keys|
  {
    if keys == [] {
      InsertHere(n, update, path);
    } else if path != [] {
      var z := Insert(n, keys, update);
      var k, y := IndexOf(n.children, path[0]), IndexOf(z.children, path[0]);
      ChildAfter(n, keys, update, path[0]);
      AtStep(n, path);
      AtStep(z, path);
      hide Insert;
      hide At;
      if path[0] == keys[0] {
        var child := if k < |n.children| then n.children[k].node else Empty();
        AtInserted(child, keys[1..], update, path[1..]);
        NothingAt<H>(path[1..]);
        PrefixStep(path, keys);
      }
    }
  }

  lemma {:induction false} PrefixStep(path: seq<string>, keys: seq<string>)
    requires path != [] && keys != [] && path[0] == keys[0]
    ensures path <= keys <==> path[1..] <= keys[1..]
    ensures path == keys <==> path[1..] == keys[1..]
  {
    assert path == [path[0]] + path[1..] && keys == [keys[0]] + keys[1..];
  }

  lemma {:induction false} InsertHere<H>(n: Node<H>, update: VerbHandler<H> -> VerbHandler<H>, path: seq<string>)
    ensures At(Insert(n, [], update), path).Some? <==> At(n, path).Some?
    ensures HandlerAt(Insert(n, [], update), path) == if path == [] then update(HandlerAt(n, path))
            else HandlerAt(n, path)
  {
  }

  lemma {:induction false} AtStep<H>(n: Node<H>, path: seq<string>)
    requires path != []
    ensures var i := IndexOf(n.children, path[0]);
            && At(n, path) == (if i == |n.children| then None else At(n.children[i].node, path[1..]))
            && HandlerAt(n, path) == (if i == |n.children| then NoHandler()
                else HandlerAt(n.children[i].node, path[1..]))
  {
  }

  lemma {:induction false} NothingAt<H>(path: seq<string>)
    ensures At(Empty<H>(), path).Some? <==> path == []
    ensures HandlerAt(Empty<H>(), path) == NoHandler()
  {
  }

  // ---- any registrations, in order

  /** A call of `Router::handle`. */
  datatype Registration<H> = Registration(verb: Verb, route: string, handler: H, queue: int)

  /** A verb that the handler already has is refused. */
  function Handle<H>(vh: VerbHandler<H>, r: Registration<H>): VerbHandler<H> {
    if r.verb in vh.verbs then vh else VerbHandler(vh.verbs[r.verb := r.handler], r.route, r.queue)
  }

  function Build<H>(rs: seq<Registration<H>>): Node<H> {
    if rs == [] then Empty() else
      var last := rs[|rs| - 1];
      Register(Build(rs[..|rs| - 1]), last.route, vh => Handle(vh, last))
  }

  function KeysOf(route: string): seq<string> {
    if route == "/" then ["/"] else Keys(route, 0)
  }

  /** Some route was registered whose keys begin with these. */
  predicate Known<H>(rs: seq<Registration<H>>, path: seq<string>) {
    exists i :: 0 <= i < |rs| && path <= KeysOf(rs[i].route)
  }

  /** What the registrations of routes with exactly these keys come to, one after the other; of those of
      "/", all but the first are lost. */
  function Registered<H>(rs: seq<Registration<H>>, path: seq<string>): VerbHandler<H> {
    if rs == [] then NoHandler() else
      var before, last := rs[..|rs| - 1], rs[|rs| - 1];
      if KeysOf(last.route) != path || (last.route == "/" && Known(before, ["/"])) then Registered(before, path)
      else Handle(Registered(before, path), last)
  }

  lemma {:induction false} KnownStep<H>(rs: seq<Registration<H>>, path: seq<string>)
    requires rs != []
    ensures Known(rs, path) <==> Known(rs[..|rs| - 1], path) || path <= KeysOf(rs[|rs| - 1].route)
  {
    hide KeysOf;
    var before := rs[..|rs| - 1];
    if Known(before, path) {
      var i :| 0 <= i < |before| && path <= KeysOf(before[i].route);
      assert rs[i] == before[i];
    }
    if Known(rs, path) && !(path <= KeysOf(rs[|rs| - 1].route)) {
      var i :| 0 <= i < |rs| && path <= KeysOf(rs[i].route);
      assert before[i] == rs[i];
    }
  }

  /** No key but that of "/" has a slash in it. */
  lemma {:induction false} KeysHaveNoSlash(route: string, cursor: nat)
    requires cursor <= |route|
    ensures forall i :: 0 <= i < |Keys(route, cursor)| ==> '/' !in Keys(route, cursor)[i]
    decreases |route| - cursor
  {
    if cursor < |route| && !(cursor == |route| - 1 && route[cursor] == '/') {
      KeysHaveNoSlash(route, MidEnd(route, Skip(route, cursor)));
    }
  }

  lemma {:induction false} HasIsAt<H>(n: Node<H>, key: string)
    ensures Has(n.children, key) <==> At(n, [key]).Some?
  {
  }

  /** After any registrations in any order, the trie has exactly the nodes on the way to a registered
      route's keys, and each node's handler is what the registrations of its own keys come to. */
  lemma {:induction false} TrieIsRegistered<H>(rs: seq<Registration<H>>, path: seq<string>)
    ensures WellFormed(Build(rs))
    ensures At(Build(rs), path).Some? <==> path == [] || Known(rs, path)
    ensures HandlerAt(Build(rs), path) == Registered(rs, path)
    decreases |rs|
  {
    if rs == [] {
      NothingAt<H>(path);
    } else {
      var before, last := rs[..|rs| - 1], rs[|rs| - 1];
      var n := Build(before);
      var update := vh => Handle(vh, last);
      TrieIsRegistered(before, path);
      KnownStep(rs, path);
      if last.route == "/" && Has(n.children, "/") {
        TrieIsRegistered(before, ["/"]);
        HasIsAt(n, "/");
        assert path <= ["/"] ==> path == [] || path == ["/"];
      } else {
        if last.route == "/" {
          TrieIsRegistered(before, ["/"]);
          HasIsAt(n, "/");
        }
        InsertWellFormed(n, KeysOf(last.route), update);
        AtInserted(n, KeysOf(last.route), update, path);
      }
    }
  }

  // ---- looking up what was registered

  /** The parts of a request that does not end in a slash are the keys it would be registered under. */
  lemma {:induction false} PartsAreKeys(route: string, raw: string, cursor: nat)
    requires cursor <= |route| <= |raw| && (route != "" ==> route[|route| - 1] != '/')
    ensures Mids(Parts(route, raw, cursor)) == Keys(route, cursor)
    decreases |route| - cursor
  {
    if cursor < |route| {
      var e := MidEnd(route, Skip(route, cursor));
      PartsAreKeys(route, raw, e);
      var first := Part(route[Skip(route, cursor)..e], raw[e..]);
      assert Mids([first] + Parts(route, raw, e)) == [first.mid] + Mids(Parts(route, raw, e));
    }
  }

  lemma {:induction false} MidEndIs(route: string, cursor: nat, e: nat)
    requires cursor <= e <= |route| && (e < |route| ==> route[e] == '/')
    requires forall i :: cursor <= i < e ==> route[i] != '/'
    ensures MidEnd(route, cursor) == e
    decreases |route| - cursor
  {
  }

  lemma {:induction false} LastSlash(s: string)
    requires s != "" && s[|s| - 1] == '/'
    ensures Keys(s, |s| - 1) == []
  {
  }

  lemma {:induction false} KeysStep(route: string, cursor: nat)
    requires cursor < |route| && !(cursor == |route| - 1 && route[cursor] == '/')
    ensures var a := Skip(route, cursor);
            Keys(route, cursor) == [route[a..MidEnd(route, a)]] + Keys(route, MidEnd(route, a))
  {
  }

  lemma {:induction false} PartsStep(route: string, raw: string, cursor: nat, a: nat, e: nat)
    requires cursor < |route| <= |raw| && a == Skip(route, cursor) && e == MidEnd(route, a)
    ensures Parts(route, raw, cursor) == [Part(route[a..e], raw[e..])] + Parts(route, raw, e)
  {
  }

  /** The parts of any request are the keys that the request and a slash would be registered under. */
  lemma {:induction false} PartsAreSlashedKeys(route: string, raw: string, cursor: nat)
    requires cursor <= |route| <= |raw|
    ensures Mids(Parts(route, raw, cursor)) == Keys(route + "/", cursor)
    decreases |route| - cursor
  {
    var s := route + "/";
    if cursor == |route| {
      LastSlash(s);
    } else {
      var a := Skip(route, cursor);
      var e := MidEnd(route, a);
      assert forall i :: 0 <= i < |route| ==> s[i] == route[i];
      MidEndIs(s, a, e);
      assert s[a..e] == route[a..e];
      PartsStep(route, raw, cursor, a, e);
      KeysStep(s, cursor);
      PartsAreSlashedKeys(route, raw, e);
      MidsStep(Part(route[a..e], raw[e..]), Parts(route, raw, e));
    }
  }

  lemma {:induction false} MidsStep(part: Part, rest: seq<Part>)
    ensures Mids([part] + rest) == [part.mid] + Mids(rest)
  {
  }

  /** A verb registered first for its keys stays what it is; those of "/" stay only with the very first. */
  lemma {:induction false} FirstWins<H>(rs: seq<Registration<H>>, i: nat)
    requires i < |rs|
    requires forall j :: 0 <= j < i && KeysOf(rs[j].route) == KeysOf(rs[i].route) ==>
             rs[j].verb != rs[i].verb && rs[i].route != "/"
    ensures var vh := Registered(rs, KeysOf(rs[i].route));
            rs[i].verb in vh.verbs && vh.verbs[rs[i].verb] == rs[i].handler
    decreases |rs|
  {
    var before, last, path := rs[..|rs| - 1], rs[|rs| - 1], KeysOf(rs[i].route);
    if i < |before| {
      assert before[i] == rs[i];
      FirstWins(before, i);
    } else {
      NotYet(before, last);
    }
  }

  lemma {:induction false} NotYet<H>(rs: seq<Registration<H>>, last: Registration<H>)
    requires forall j :: 0 <= j < |rs| && KeysOf(rs[j].route) == KeysOf(last.route) ==>
             rs[j].verb != last.verb && last.route != "/"
    ensures last.verb !in Registered(rs, KeysOf(last.route)).verbs
    ensures last.route == "/" ==> !Known(rs, ["/"])
    decreases |rs|
  {
    if rs != [] {
      var before := rs[..|rs| - 1];
      assert forall j :: 0 <= j < |before| ==> before[j] == rs[j];
      NotYet(before, last);
      if last.route == "/" && Known(rs, ["/"]) {
        var i :| 0 <= i < |rs| && ["/"] <= KeysOf(rs[i].route);
        KeysHaveNoSlash(rs[i].route, 0);
      }
    }
  }

  /** The first registration of "/". */
  function FirstSlash<H>(rs: seq<Registration<H>>): (j: nat)
    ensures j <= |rs| && (j < |rs| ==> rs[j].route == "/")
    ensures forall k :: 0 <= k < j ==> rs[k].route != "/"
  {
    if rs == [] || rs[0].route == "/" then 0 else 1 + FirstSlash(rs[1..])
  }

  /** No other route has a key that is a slash. */
  lemma {:induction false} OnlySlash(route: string)
    ensures ["/"] <= KeysOf(route) <==> route == "/"
    ensures KeysOf(route) == ["/"] <==> route == "/"
  {
    if route != "/" {
      var keys := Keys(route, 0);
      KeysHaveNoSlash(route, 0);
      if keys != [] {
        assert '/' !in keys[0];
        assert "/"[0] == '/';
      }
    }
  }

  lemma {:induction false} SlashKnown<H>(rs: seq<Registration<H>>)
    ensures Known(rs, ["/"]) <==> FirstSlash(rs) < |rs|
  {
    hide FirstSlash;
    hide KeysOf;
    var j := FirstSlash(rs);
    if j < |rs| { OnlySlash(rs[j].route); }
    if Known(rs, ["/"]) {
      var k :| 0 <= k < |rs| && ["/"] <= KeysOf(rs[k].route);
      OnlySlash(rs[k].route);
    }
  }

  /** All registrations of "/" come to the first of them. */
  lemma {:induction false} SlashRegistered<H>(rs: seq<Registration<H>>)
    ensures Registered(rs, ["/"]) == if FirstSlash(rs) == |rs| then NoHandler()
            else Handle(NoHandler(), rs[FirstSlash(rs)])
    decreases |rs|
  {
    hide FirstSlash;
    hide Known;
    hide KeysOf;
    hide Handle;
    if rs != [] {
      var before, last := rs[..|rs| - 1], rs[|rs| - 1];
      SlashRegistered(before);
      SlashKnown(before);
      var j, k := FirstSlash(rs), FirstSlash(before);
      if j < |before| { assert before[j] == rs[j]; }
      if k < |before| { assert before[k] == rs[k]; }
      OnlySlash(last.route);
    }
  }

  /** A verb registered for a route is in its handler, unless the route is "/" and the first registration of
      "/" is for another verb. */
  lemma {:induction false} VerbIsKept<H>(rs: seq<Registration<H>>, i: nat)
    requires i < |rs|
    ensures rs[i].verb in Registered(rs, KeysOf(rs[i].route)).verbs
            <==> rs[i].route != "/" || rs[i].verb == rs[FirstSlash(rs)].verb
    decreases |rs|
  {
    hide FirstSlash;
    hide Known;
    if rs[i].route == "/" {
      SlashRegistered(rs);
    } else {
      var before, last := rs[..|rs| - 1], rs[|rs| - 1];
      KeysHaveNoSlash(rs[i].route, 0);
      if i < |before| {
        assert before[i] == rs[i];
        VerbIsKept(before, i);
      }
    }
  }

  /** The handler's path is a registered route with these keys. */
  lemma {:induction false} PathIsRegistered<H>(rs: seq<Registration<H>>, path: seq<string>)
    requires Registered(rs, path).verbs != map[]
    ensures exists i :: 0 <= i < |rs| && KeysOf(rs[i].route) == path && Registered(rs, path).path == rs[i].route
    decreases |rs|
  {
    hide Known;
    hide KeysOf;
    var before, last := rs[..|rs| - 1], rs[|rs| - 1];
    if Registered(rs, path).path != last.route || KeysOf(last.route) != path {
      PathIsRegistered(before, path);
      var i :| 0 <= i < |before| && KeysOf(before[i].route) == path && Registered(before, path).path == before[i].route;
      assert rs[i] == before[i];
    }
  }

  /** A request's text without its last slash asks for a route: the slash is no part of the route's keys. */
  predicate AsksFor(route: string, registered: string) {
    || (route != "" && registered == route + "/")
    || (registered == route && (route in ["", "/"] || route[|route| - 1] != '/'))
  }

  lemma {:induction false} AskedKeys(route: string, raw: string, registered: string)
    requires AsksFor(route, registered) && |route| <= |raw| && registered != "/"
    ensures Mids(Parts(route, raw, 0)) == KeysOf(registered)
    ensures route == "/" <==> registered == "//"
  {
    if registered == route {
      PartsAreKeys(route, raw, 0);
    } else {
      PartsAreSlashedKeys(route, raw, 0);
    }
  }

  /** Whatever was registered, in whatever order: a request for a registered route's own text finds that
      route's node, with nothing bound; but "//" is not found once "/" is registered. */
  lemma {:induction false} RegisteredRouteIsFound<H>(rs: seq<Registration<H>>, i: nat, route: string, raw: string)
    requires i < |rs| && |route| <= |raw| && AsksFor(route, rs[i].route)
    ensures var keys := KeysOf(rs[i].route);
            && (FindRoute(Build(rs), route, raw) == Lookup(Some(keys), map[], "")
                <==> rs[i].route != "//" || FirstSlash(rs) == |rs|)
            && HandlerAt(Build(rs), keys) == Registered(rs, keys) && Registered(rs, keys).verbs != map[]
  {
    hide FirstSlash;
    hide Registered;
    hide Parts;
    hide Keys;
    var registered := rs[i].route;
    var keys := KeysOf(registered);
    TrieIsRegistered(rs, keys);
    assert Known(rs, keys);
    SomethingRegistered(rs, i);
    SlashIsFound(rs, route, raw);
    if registered != "/" {
      AskedKeys(route, raw, registered);
      KeysHaveNoSlash(registered, 0);
      OwnPathIsFound(Build(rs), Parts(route, raw, 0), map[], "");
    }
  }

  lemma {:induction false} SlashIsFound<H>(rs: seq<Registration<H>>, route: string, raw: string)
    requires |route| <= |raw|
    ensures FindRoute(Build(rs), route, raw)
            == if route == "/" && FirstSlash(rs) < |rs| then Lookup(Some(["/"]), map[], "")
                                                else Find(Build(rs), Parts(route, raw, 0), map[], "")
  {
    hide Find;
    hide Parts;
    hide FirstSlash;
    TrieIsRegistered(rs, ["/"]);
    HasIsAt(Build(rs), "/");
    SlashKnown(rs);
  }

  lemma {:induction false} SomethingRegistered<H>(rs: seq<Registration<H>>, i: nat)
    requires i < |rs|
    ensures Registered(rs, KeysOf(rs[i].route)).verbs != map[]
    decreases |rs|
  {
    var before, last, path := rs[..|rs| - 1], rs[|rs| - 1], KeysOf(rs[i].route);
    if last.route == "/" && Known(before, ["/"]) && path == ["/"] {
      var k :| 0 <= k < |before| && ["/"] <= KeysOf(before[k].route);
      KeysHaveNoSlash(before[k].route, 0);
      SomethingRegistered(before, k);
    } else if i < |before| {
      assert before[i] == rs[i];
      SomethingRegistered(before, i);
      assert Handle(Registered(before, path), last).verbs != map[];
    } else {
      assert last.verb in Handle(Registered(before, path), last).verbs;
    }
  }

  /** A node that is found lies on a registered route, and its path fits the request. */
  lemma {:induction false} FoundIsRegistered<H>(rs: seq<Registration<H>>, route: string, raw: string)
    requires |route| <= |raw|
    ensures var l := FindRoute(Build(rs), route, raw);
            l.path.Some? ==>
              && (l.path.value == [] || Known(rs, l.path.value))
              && ((route == "/" && l.path.value == ["/"]) || Fits(Build(rs), Parts(route, raw, 0), l.path.value))
  {
    var n := Build(rs);
    TrieIsRegistered(rs, []);
    FoundFits(n, Parts(route, raw, 0), map[], "");
    var l := FindRoute(n, route, raw);
    if l.path.Some? {
      TrieIsRegistered(rs, l.path.value);
      HasIsAt(n, "/");
    }
  }
}
