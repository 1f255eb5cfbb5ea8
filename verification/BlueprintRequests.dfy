/** Which blueprints, of all that can be registered, route mounted as they do themselves. */
module BlueprintRequests {
  import opened Bytes
  import opened RouteTree
  import opened RouteLookup
  import opened RouteBuild
  import opened RouteParameters
  import opened BlueprintMount
  import opened BlueprintRouting

  // ---- what a mounted trie can hold

  lemma {:induction false} Registers<H>(n: Node<H>, route: string, update: VerbHandler<H> -> VerbHandler<H>,
                                        path: seq<string>)
    requires WellFormed(n)
    ensures var z := Register(n, route, update);
            && WellFormed(z)
            && (At(z, path).Some? ==> At(n, path).Some? || path <= KeysOf(route))
            && (HandlerAt(z, path) == HandlerAt(n, path)
                || (KeysOf(route) == path && HandlerAt(z, path) == update(HandlerAt(n, path))))
  {
    hide Insert;
    if !(route == "/" && Has(n.children, "/")) {
      InsertWellFormed(n, KeysOf(route), update);
      AtInserted(n, KeysOf(route), update, path);
    }
  }

  /** Some listed route is mounted on the way to, or at, this path. */
  predicate MountedBelow<H>(prefix: string, routes: seq<Route<H>>, path: seq<string>) {
    exists k :: 0 <= k < |routes| && path <= KeysOf(MountText(prefix, routes[k].text))
  }

  /** Only nodes on the way to a mounted route are made, and "/" is the path of no other handler. */
  lemma {:induction false} MountMakes<H>(root: Node<H>, prefix: string, routes: seq<Route<H>>, path: seq<string>)
    requires WellFormed(root)
    ensures var z := Mount(root, prefix, routes);
            && WellFormed(z)
            && (At(z, path).Some? ==> At(root, path).Some? || MountedBelow(prefix, routes, path))
            && (path == ["/"] && HandlerAt(z, path) != HandlerAt(root, path) ==> HandlerAt(z, path).path == "/")
    decreases |routes|
  {
    hide Register;
    hide KeysOf;
    hide MountText;
    hide WellFormed;
    if routes != [] {
      var route := routes[0];
      var text := MountText(prefix, route.text);
      Registers(root, text, _ => route.handler.(path := text), path);
      OnlySlash(text);
      MountMakes(MountOne(root, prefix, route), prefix, routes[1..], path);
      assert forall k :: 1 <= k < |routes| ==> routes[k] == routes[1..][k - 1];
    }
  }

  lemma {:induction false} EmptyMakes<H>(n: Node<H>, prefix: string, path: seq<string>)
    requires path != []
    ensures WellFormed(Mounted(n, prefix))
    ensures At(Mounted(n, prefix), path).Some? ==> MountedBelow(prefix, AllRoutes(n, ""), path)
    ensures path == ["/"] && HandlerAt(Mounted(n, prefix), path) != NoHandler() ==>
            HandlerAt(Mounted(n, prefix), path).path == "/"
  {
    hide Mount;
    hide AllRoutes;
    NothingAt<H>(path);
    MountMakes(Empty(), prefix, AllRoutes(n, ""), path);
  }

  // ---- the listed routes have no empty segments

  ghost predicate NoSlash<H>(n: Node<H>) {
    forall i :: 0 <= i < |n.children| ==> '/' !in n.children[i].key && NoSlash(n.children[i].node)
  }

  /** No segment before the last is empty. */
  predicate Tidy(s: string) {
    s != "" ==> s[0] != '/' && forall i :: 0 <= i < |s| - 1 ==> !(s[i] == '/' && s[i + 1] == '/')
  }

  lemma {:induction false} TidyMore(prefix: string, key: string)
    requires Tidy(prefix) && '/' !in key
    ensures Tidy(Slashed(prefix) + key)
  {
  }

  ghost predicate AllTidy<H>(routes: seq<Route<H>>) {
    forall k :: 0 <= k < |routes| ==> Tidy(routes[k].text)
  }

  lemma {:induction false} ListedAreTidy<H>(n: Node<H>, prefix: string)
    requires NoSlash(n) && Tidy(prefix)
    ensures AllTidy(AllRoutes(n, prefix))
    decreases n, 1
  {
    hide Tidy;
    if n.children == [] {
      assert AllRoutes(n, prefix) == [Route(prefix, n.handler)];
    } else {
      ChildrenAreTidy(n.children, prefix);
    }
  }

  lemma {:induction false} ChildrenAreTidy<H>(children: seq<Child<H>>, prefix: string)
    requires Tidy(prefix) && forall i :: 0 <= i < |children| ==> '/' !in children[i].key && NoSlash(children[i].node)
    ensures AllTidy(ChildRoutes(children, Slashed(prefix)))
    decreases children, 0
  {
    hide Tidy;
    hide Slashed;
    if children != [] {
      TidyMore(prefix, children[0].key);
      var first, rest := AllRoutes(children[0].node, Slashed(prefix) + children[0].key),
          ChildRoutes(children[1..], Slashed(prefix));
      ListedAreTidy(children[0].node, Slashed(prefix) + children[0].key);
      ChildrenAreTidy(children[1..], prefix);
      assert ChildRoutes(children, Slashed(prefix)) == first + rest;
    }
  }

  /** From the last slash of a prefix on, a tidy text has no empty key. */
  lemma {:induction false} TidyKeys(t: string, s: string, cursor: nat)
    requires Tidy(s) && t != "" && t[|t| - 1] == '/'
    requires |t| - 1 <= cursor <= |t| + |s| && (cursor < |t| + |s| ==> (t + s)[cursor] == '/')
    ensures forall k :: 0 <= k < |Keys(t + s, cursor)| ==> Keys(t + s, cursor)[k] != ""
    decreases |t| + |s| - cursor
  {
    var u := t + s;
    if cursor < |u| && !(cursor == |u| - 1 && u[cursor] == '/') {
      var a := Skip(u, cursor);
      var e := MidEnd(u, a);
      assert a == cursor + 1;
      assert u[a] != '/' by {
        assert u[a] == s[a - |t|];
        if a > |t| { assert u[cursor] == s[a - |t| - 1]; }
      }
      assert e > a;
      KeysStep(u, cursor);
      TidyKeys(t, s, e);
    }
  }

  /** A mounted tidy route is filed under the prefix's keys and then keys that are not empty. */
  lemma {:induction false} TidyMounted(prefix: string, s: string, path: seq<string>)
    requires Tidy(s) && PrefixKeys(prefix) + path <= KeysOf(MountText(prefix, s))
    ensures forall k :: 0 <= k < |path| ==> path[k] != ""
  {
    hide Tidy;
    hide Keys;
    var t, keys := MountText(prefix, ""), PrefixKeys(prefix);
    var u := MountText(prefix, s);
    assert u == t + s;
    KeysAppended(t, s, 0);
    TidyKeys(t, s, |t| - 1);
    forall k | 0 <= k < |path| ensures path[k] != "" {
      assert (keys + path)[|keys| + k] == path[k] == KeysOf(u)[|keys| + k];
    }
  }

  // ---- a route with an empty segment, or "/", is lost

  lemma {:induction false} InsertNoSlash<H>(n: Node<H>, keys: seq<string>, update: VerbHandler<H> -> VerbHandler<H>)
    requires NoSlash(n) && forall k :: 0 <= k < |keys| ==> '/' !in keys[k]
    ensures NoSlash(Insert(n, keys, update))
    decreases |keys|
  {
    if keys != [] {
      var i := IndexOf(n.children, keys[0]);
      InsertNoSlash(if i < |n.children| then n.children[i].node else Empty(), keys[1..], update);
    }
  }

  lemma {:induction false} BuildNoSlash<H>(rs: seq<Registration<H>>)
    requires FirstSlash(rs) == |rs|
    ensures NoSlash(Build(rs))
  {
    hide Insert;
    hide NoSlash;
    if rs == [] {
      EmptyNoSlash<H>();
    } else {
      var before, last := rs[..|rs| - 1], rs[|rs| - 1];
      assert forall k :: 0 <= k < |before| ==> before[k] == rs[k];
      BuildNoSlash(before);
      KeysHaveNoSlash(last.route, 0);
      InsertNoSlash(Build(before), Keys(last.route, 0), vh => RouteBuild.Handle(vh, last));
    }
  }

  lemma {:induction false} EmptyNoSlash<H>()
    ensures NoSlash(Empty<H>())
  {
  }

  lemma {:induction false} PathHasNoSlash<H>(n: Node<H>, path: seq<string>)
    requires NoSlash(n) && At(n, path).Some?
    ensures forall k :: 0 <= k < |path| ==> '/' !in path[k]
    decreases |path|
  {
    if path != [] {
      PathHasNoSlash(n.children[IndexOf(n.children, path[0])].node, path[1..]);
      assert forall k :: 1 <= k < |path| ==> path[k] == path[1..][k - 1];
    }
  }

  /** A leaf below an empty key. */
  lemma {:induction false} EmptyKeyPath<H>(n: Node<H>) returns (path: seq<string>)
    requires WellFormed(n) && NoSlash(n) && !Plain(n)
    ensures "" in path && At(n, path).Some? && At(n, path).value.children == []
    decreases n
  {
    var i :| 0 <= i < |n.children| && !(PlainKey(n.children[i].key) && Plain(n.children[i].node));
    var c := n.children[i];
    var rest;
    if c.key == "" {
      OwnHopsEnd(c.node);
      rest := HopKeys(OwnHops(c.node));
    } else {
      rest := EmptyKeyPath(c.node);
    }
    OwnIndex(n.children, i);
    path := [c.key] + rest;
    assert path[1..] == rest && path[0] == c.key;
  }

  lemma {:induction false} LeafTextIsFound<H>(n: Node<H>, path: seq<string>, raw: string)
    requires NoSlash(n) && At(n, path).Some? && At(n, path).value.children == []
    requires |TextOf(path)| <= |raw| && raw[..|TextOf(path)|] == TextOf(path)
    ensures FindRoute(n, TextOf(path), raw) == Lookup(Some(path), map[], "")
  {
    hide TextOf;
    hide Parts;
    PathHasNoSlash(n, path);
    TextParts(path, raw);
    OwnPathIsFound(n, Parts(TextOf(path), raw, 0), map[], "");
    assert Has(n.children, "/") ==> '/' in "/";
  }

  /** No lookup in the mounted trie ends where the blueprint's leaf would be. */
  lemma {:induction false} EmptyKeyIsNotMounted<H>(n: Node<H>, prefix: string, path: seq<string>)
    requires NoSlash(n) && "" in path
    ensures At(Mounted(n, prefix), PrefixKeys(prefix) + path).None?
  {
    hide Mounted;
    hide AllRoutes;
    hide KeysOf;
    hide PrefixKeys;
    var all := PrefixKeys(prefix) + path;
    EmptyMakes(n, prefix, all);
    ListedAreTidy(n, "");
    if MountedBelow(prefix, AllRoutes(n, ""), all) {
      var routes := AllRoutes(n, "");
      var k :| 0 <= k < |routes| && all <= KeysOf(MountText(prefix, routes[k].text));
      TidyMounted(prefix, routes[k].text, path);
    }
  }

  lemma {:induction false} FoundIsThere<H>(z: Node<H>, route: string, raw: string)
    requires WellFormed(z) && |route| <= |raw|
    ensures var m := FindRoute(z, route, raw); m.path.Some? ==> At(z, m.path.value).Some?
  {
    hide Find;
    hide Parts;
    FoundFits(z, Parts(route, raw, 0), map[], "");
    HasIsAt(z, "/");
  }

  /** What is found where nothing was mounted is found differently, whatever the mounted trie is asked for. */
  lemma {:induction false} NotMounted<H>(n: Node<H>, prefix: string, path: seq<string>, l: Lookup, route: string,
                                         raw: string)
    requires path != [] && l.path == Some(path) && |route| <= |raw|
    requires At(Mounted(n, prefix), PrefixKeys(prefix) + path).None?
    ensures !SameFound(n, prefix, l, FindRoute(Mounted(n, prefix), route, raw))
  {
    hide FindRoute;
    hide Mounted;
    EmptyMakes(n, prefix, path);
    FoundIsThere(Mounted(n, prefix), route, raw);
    UnderAllPath(PrefixKeys(prefix), l);
  }

  lemma {:induction false} EmptyKeyIsLost<H>(n: Node<H>, prefix: string) returns (p: string)
    requires WellFormed(n) && NoSlash(n) && !Plain(n)
    ensures p != "" && p[0] == '/'
    ensures forall route: string, raw: string :: |route| <= |raw| ==>
              !SameFound(n, prefix, FindRoute(n, p, p + "/"), FindRoute(Mounted(n, prefix), route, raw))
  {
    hide FindRoute;
    hide Mounted;
    hide SameFound;
    hide TextOf;
    hide WellFormed;
    var path := EmptyKeyPath(n);
    p := TextOf(path);
    TextSplit(path);
    LeafTextIsFound(n, path, p + "/");
    EmptyKeyIsNotMounted(n, prefix, path);
    var l := FindRoute(n, p, p + "/");
    forall route: string, raw: string | |route| <= |raw|
      ensures !SameFound(n, prefix, l, FindRoute(Mounted(n, prefix), route, raw))
    {
      NotMounted(n, prefix, path, l, route, raw);
    }
  }

  /** Nothing is registered below "/". */
  lemma {:induction false} SlashIsLeaf<H>(rs: seq<Registration<H>>)
    requires FirstSlash(rs) < |rs|
    ensures var x := At(Build(rs), ["/"]); x.Some? && x.value.children == []
  {
    hide KeysOf;
    hide FirstSlash;
    TrieIsRegistered(rs, ["/"]);
    SlashKnown(rs);
    var x := At(Build(rs), ["/"]).value;
    if x.children != [] {
      var path := ["/", x.children[0].key];
      AtStep(Build(rs), ["/"]);
      AtStep(Build(rs), path);
      assert path[1..] == [x.children[0].key] && ["/"][1..] == [];
      TrieIsRegistered(rs, path);
      var i :| 0 <= i < |rs| && path <= KeysOf(rs[i].route);
      PlainPrefix(rs[i].route, path);
    }
  }

  lemma {:induction false} SlashIsNotBelow<H>(prefix: string, routes: seq<Route<H>>, path: seq<string>)
    requires |path| >= 2 && path[|path| - 1] == "/"
    ensures !MountedBelow(prefix, routes, path)
  {
    hide KeysOf;
    assert '/' in path[|path| - 1] by { assert "/"[0] == '/'; }
    if MountedBelow(prefix, routes, path) {
      var k :| 0 <= k < |routes| && path <= KeysOf(MountText(prefix, routes[k].text));
      PlainPrefix(MountText(prefix, routes[k].text), path);
    }
  }

  /** The route "/" is mounted, if at all, with another path than it is listed with. */
  lemma {:induction false} SlashRouteIsLost<H>(rs: seq<Registration<H>>, prefix: string, route: string, raw: string)
    requires FirstSlash(rs) < |rs| && |route| <= |raw|
    ensures !SameFound(Build(rs), prefix, FindRoute(Build(rs), "/", "/"),
            FindRoute(Mounted(Build(rs), prefix), route, raw))
  {
    hide FindRoute;
    hide Mounted;
    hide Build;
    hide FirstSlash;
    hide AllRoutes;
    hide KeysOf;
    hide Keys;
    var n, keys := Build(rs), PrefixKeys(prefix);
    var all := keys + ["/"];
    SlashIsFound(rs, "/", "/");
    SlashIsLeaf(rs);
    EmptyMakes(n, prefix, all);
    if keys != [] {
      SlashIsNotBelow(prefix, AllRoutes(n, ""), all);
      NotMounted(n, prefix, ["/"], FindRoute(n, "/", "/"), route, raw);
    } else {
      assert all == ["/"];
      assert Join(["/"]) == "/";
      assert |MountText(prefix, "/")| >= 2;
    }
  }

  /** A root alone, mounted where there are no keys, becomes the route "/". */
  lemma {:induction false} RootIsLost<H>(n: Node<H>, prefix: string, route: string, raw: string)
    requires n.children == [] && PrefixKeys(prefix) == [] && |route| <= |raw|
    ensures !SameFound(n, prefix, FindRoute(n, "/", "/"), FindRoute(Mounted(n, prefix), route, raw))
  {
    hide Parts;
    var z := Mounted(n, prefix);
    var l := FindRoute(n, "/", "/");
    RootAsSlash(n, prefix);
    UnderAllPath([], l);
    assert l.path == Some([]);
    RootIsNotFound(z, route, raw);
  }

  lemma {:induction false} RootAsSlash<H>(n: Node<H>, prefix: string)
    requires n.children == [] && PrefixKeys(prefix) == []
    ensures var z := Mounted(n, prefix); z.handler == NoHandler() && z.children != []
  {
    var route := Route("", n.handler);
    assert MountText(prefix, "") == "/";
    assert AllRoutes(n, "") == [route] && [route][1..] == [];
    var z := MountOne(Empty(), prefix, route);
    assert Mount(Empty(), prefix, [route]) == z;
    assert z == Insert(Empty(), ["/"], _ => route.handler.(path := "/"));
  }

  lemma {:induction false} RootIsNotFound<H>(z: Node<H>, route: string, raw: string)
    requires z.handler.verbs == map[] && z.children != [] && |route| <= |raw|
    ensures FindRoute(z, route, raw).path != Some([])
  {
    hide Parts;
    if Parts(route, raw, 0) != [] {
      FoundOnlyLeaf(z, Parts(route, raw, 0));
    }
  }

  lemma {:induction false} LoudIsLost<H>(n: Node<H>, prefix: string) returns (p: string)
    requires WellFormed(n) && Plain(n) && !SilentBelow(n) && n.children != []
    ensures p != "" && p[0] == '/' && Stripped(p) == p
    ensures forall m :: !SameFound(n, prefix, FindRoute(n, p, p), m)
  {
    hide FindRoute;
    hide Mounted;
    hide Join;
    var path := LoudPathBelow(n);
    p := "/" + Join(path);
    PathIsPlain(n, path);
    JoinedIsLonger(path);
    assert p[|p| - 1] == Join(path)[|Join(path)| - 1];
    OwnTextIsFound(n, path);
    LoudHandler(n, prefix, path);
  }

  lemma {:induction false} LoudHandler<H>(n: Node<H>, prefix: string, path: seq<string>)
    requires WellFormed(n) && Plain(n) && n.children != [] && At(n, path).Some? && At(n, path).value.children != []
    ensures HandlerAt(Mounted(n, prefix), PrefixKeys(prefix) + path).verbs == map[]
  {
    MountedTrie(n, prefix);
    ChainAt(PrefixKeys(prefix), Remade(n, [], prefix), path);
    RemadeAt(n, [], prefix, path);
    assert [] + path == path;
  }

  // ---- every blueprint

  /** The blueprint's routes have no empty segment and none is "/", and no node below its root has both children
      and a handler; and it is not its root alone, mounted as the route "/". */
  ghost predicate Mounts<H>(n: Node<H>, prefix: string) {
    Plain(n) && SilentBelow(n) && (n.children == [] ==> PrefixKeys(prefix) != [])
  }

  ghost predicate Literal(prefix: string) {
    forall i :: 0 <= i < |PrefixKeys(prefix)| ==> !IsPattern(PrefixKeys(prefix)[i])
  }

  ghost predicate AllAgree<H>(n: Node<H>, prefix: string) {
    forall p: string, raw: string :: p != "" && p[0] == '/' && |p| <= |raw| ==> Agrees(n, prefix, p, raw)
  }

  lemma {:induction false} NoSlashIsPlain<H>(n: Node<H>)
    requires Plain(n)
    ensures !Has(n.children, "/")
  {
    NoSlashChild(n.children);
  }

  /** If it does not mount, some request is found otherwise or not at all, whatever the mounted trie is asked for. */
  lemma {:induction false} SomeIsLost<H>(rs: seq<Registration<H>>, prefix: string) returns (request: string)
    requires !Mounts(Build(rs), prefix)
    ensures request != "" && request[0] == '/'
    ensures forall route: string, raw: string :: |route| <= |raw| ==>
              !SameFound(Build(rs), prefix, FindRoute(Build(rs), Stripped(request), request),
                         FindRoute(Mounted(Build(rs), prefix), route, raw))
  {
    hide FindRoute;
    hide Mounted;
    hide Build;
    hide SameFound;
    hide FirstSlash;
    hide Plain;
    hide SilentBelow;
    var n := Build(rs);
    TrieIsRegistered(rs, []);
    if FirstSlash(rs) < |rs| {
      request := "/";
      forall route: string, raw: string | |route| <= |raw|
        ensures !SameFound(n, prefix, FindRoute(n, "/", "/"), FindRoute(Mounted(n, prefix), route, raw))
      {
        SlashRouteIsLost(rs, prefix, route, raw);
      }
    } else if !Plain(n) {
      BuildNoSlash(rs);
      var p := EmptyKeyIsLost(n, prefix);
      request := p + "/";
      assert Stripped(request) == p;
    } else if n.children == [] {
      LeafIsSilent(n);
      request := "/";
      forall route: string, raw: string | |route| <= |raw|
        ensures !SameFound(n, prefix, FindRoute(n, "/", "/"), FindRoute(Mounted(n, prefix), route, raw))
      {
        RootIsLost(n, prefix, route, raw);
      }
    } else {
      request := LoudIsLost(n, prefix);
    }
  }

  lemma {:induction false} LeafIsSilent<H>(n: Node<H>)
    requires n.children == []
    ensures SilentBelow(n)
  {
  }

  /** Whatever a blueprint's routes are: mounted in an empty router under a prefix without patterns, it routes as
      it does itself, for every lookup, exactly if it `Mounts`. */
  lemma {:induction false} MountingRoutes<H>(rs: seq<Registration<H>>, prefix: string)
    requires Literal(prefix)
    ensures AllAgree(Build(rs), prefix) <==> Mounts(Build(rs), prefix)
  {
    hide FindRoute;
    hide Mounted;
    hide Build;
    hide SameFound;
    hide Plain;
    hide SilentBelow;
    hide WellFormed;
    var n := Build(rs);
    TrieIsRegistered(rs, []);
    if Mounts(n, prefix) {
      forall p: string, raw: string | p != "" && p[0] == '/' && |p| <= |raw| ensures Agrees(n, prefix, p, raw) {
        SilentAgrees(n, prefix, p, raw);
      }
    } else {
      var request := SomeIsLost(rs, prefix);
      StrippedLeads(request);
      var p := Stripped(request);
      assert !SameFound(n, prefix, FindRoute(n, p, request),
             FindRoute(Mounted(n, prefix), Base(prefix) + p, Base(prefix) + request));
      assert !Agrees(n, prefix, p, request);
    }
  }

  lemma {:induction false} StrippedLeads(request: string)
    requires request != "" && request[0] == '/'
    ensures var p := Stripped(request); p != "" && p[0] == '/' && |p| <= |request|
  {
  }

  // ---- requests, as the router takes their last slash off

  /** The router, asked for the prefix and then the request, finds what the blueprint does for the request. */
  ghost predicate RequestAgrees<H>(n: Node<H>, prefix: string, request: string) {
    var whole := Base(prefix) + request;
    SameFound(n, prefix, FindRoute(n, Stripped(request), request),
        FindRoute(Mounted(n, prefix), Stripped(whole), whole))
  }

  ghost predicate AllRequestsAgree<H>(n: Node<H>, prefix: string) {
    forall request: string :: request != "" && request[0] == '/' ==> RequestAgrees(n, prefix, request)
  }

  /** A request that ends here finds something. */
  predicate EndsWell<H>(n: Node<H>) {
    n.children == [] || n.handler.verbs != map[] || Has(n.children, "*")
  }

  /** The blueprint alone finds something for "/" by a parameter. */
  predicate EmptyParam<H>(n: Node<H>) {
    exists i :: 0 <= i < |n.children| && Followable(n.children, i) && EndsWell(n.children[i].node)
  }

  /** For the empty part, a parameter that can be followed is followed. */
  lemma {:induction false} EmptyFollows<H>(children: seq<Child<H>>, i: nat)
    requires i < |children| && Followable(children, i)
    ensures FirstWild(children, "") == i && !StarFits(children[i].key, "")
  {
    hide FirstWild;
    assert forall k :: 0 <= k < i ==> !WildFits(children[k].key, "") by {
      forall k | 0 <= k < i ensures !WildFits(children[k].key, "") {
        if children[k].key != "" && |children[k].key| == 1 { assert children[k].key == [children[k].key[0]]; }
      }
    }
    assert WildFits(children[i].key, "");
    var w := FirstWild(children, "");
  }

  lemma {:induction false} EndingFinds<H>(n: Node<H>, params: map<string, string>)
    ensures Find(n, [], params, "").path.Some? <==> EndsWell(n)
    ensures n.children != [] && n.handler.verbs == map[] ==>
              Find(n, [], params, "") == Lookup(if Has(n.children, "*") then Some(["*"]) else None, params, "")
  {
  }

  /** What the blueprint finds for "/", against what its root does for no part at all. */
  lemma {:induction false} SlashAlone<H>(n: Node<H>)
    requires WellFormed(n) && Plain(n)
    ensures var l := Find(n, [Part("", "")], map[], "");
            if n.children == [] then l == Lookup(Some([]), map[], "")
            else if Has(n.children, "*") then l == Lookup(Some(["*"]), map[], "")
            else l.path.Some? <==> EmptyParam(n)
  {
    var parts := [Part("", "")];
    if n.children != [] {
      assert parts[1..] == [];
      NoEmptyChild(n.children);
      var w := FirstWild(n.children, "");
      if Has(n.children, "*") {
        StarFirst(n.children);
      } else {
        hide FirstWild;
        hide IndexOf;
        FollowedIsFollowable(n.children, "");
        if w < |n.children| {
          NoStarKey(n.children, w);
          EndingFinds(n.children[w].node, map[][ParamName(n.children[w].key) := ""]);
          UnderPath(n.children[w].key, Find(n.children[w].node, [], map[][ParamName(n.children[w].key) := ""], ""));
        }
        if EmptyParam(n) {
          var i :| 0 <= i < |n.children| && Followable(n.children, i) && EndsWell(n.children[i].node);
          EmptyFollows(n.children, i);
        }
      }
    }
  }

  lemma {:induction false} NoEmptyChild<H>(children: seq<Child<H>>)
    requires forall i :: 0 <= i < |children| ==> PlainKey(children[i].key)
    ensures IndexOf(children, "") == |children|
  {
  }

  lemma {:induction false} NoStarKey<H>(children: seq<Child<H>>, w: nat)
    requires !Has(children, "*") && w < |children|
    ensures !StarFits(children[w].key, "")
  {
    hide IndexOf;
    var key := children[w].key;
    if |key| == 1 { assert key == [key[0]]; }
  }

  /** "*" comes before every parameter, and no other pattern fits the empty part. */
  lemma {:induction false} StarFirst<H>(children: seq<Child<H>>)
    requires Sorted(children) && Has(children, "*")
    ensures var w := FirstWild(children, ""); w < |children| && children[w].key == "*" && StarFits(children[w].key, "")
  {
    hide FirstWild;
    hide IndexOf;
    var j, w := IndexOf(children, "*"), FirstWild(children, "");
    assert "*"[..0] == "";
    assert WildFits(children[j].key, "");
    var key := children[w].key;
    if StarFits(key, "") {
      assert |key| == 1;
      assert key == [key[0]];
    }
  }

  /** For "/", the mounted trie is asked for the prefix alone. */
  lemma {:induction false} PrefixAlone<H>(n: Node<H>, prefix: string)
    requires Mountable(n, prefix) && PrefixKeys(prefix) != []
    ensures var base := Base(prefix);
            && Stripped(base + "/") == base
            && FindRoute(Mounted(n, prefix), base, base + "/")
               == UnderAll(PrefixKeys(prefix), Find(Remade(n, [], prefix), [], map[], ""))
    ensures FindRoute(n, "/", "/") == Find(n, [Part("", "")], map[], "")
  {
    hide Find;
    hide Remade;
    hide Mount;
    hide Parts;
    hide Keys;
    hide Chain;
    hide IsPattern;
    var base, keys, z := Base(prefix), PrefixKeys(prefix), Remade(n, [], prefix);
    BaseKeys(prefix);
    var parts := Parts(base, base + "/", 0);
    PartsAreSlashedKeys(base, base + "/", 0);
    assert parts[..|keys|] == parts && parts[|keys|..] == [];
    MountedTrie(n, prefix);
    ChainFinds(keys, z, parts, map[], "");
    NoSlashInChain(keys, z);
    NoSlashIsPlain(n);
    SlashParts();
  }

  lemma {:induction false} BaseKeys(prefix: string)
    ensures var base, keys := Base(prefix), PrefixKeys(prefix);
            && keys == Keys(base + "/", 0) && (keys != [] ==> Stripped(base + "/") == base)
            && forall k :: 0 <= k < |keys| ==> '/' !in keys[k]
  {
    hide Keys;
    var base := Base(prefix);
    assert MountText(prefix, "") == base + "/";
    assert "" + "/" == "/" && (base + "/")[..|base|] == base;
    LastSlash("/");
    KeysHaveNoSlash(base + "/", 0);
  }

  lemma {:induction false} NoSlashInChain<H>(keys: seq<string>, z: Node<H>)
    requires keys != [] && '/' !in keys[0]
    ensures !Has(Chain(keys, z).children, "/")
  {
    assert "/"[0] == '/';
  }

  /** "/" is answered alike unless a parameter takes it in the blueprint alone. */
  lemma {:induction false} SlashAgrees<H>(n: Node<H>, prefix: string)
    requires Mountable(n, prefix) && SilentBelow(n) && PrefixKeys(prefix) != []
    ensures RequestAgrees(n, prefix, "/") <==> !EmptyParam(n)
  {
    hide Find;
    hide FindRoute;
    hide Mounted;
    hide SameFound;
    hide SilentBelow;
    hide PrefixKeys;
    hide Followable;
    var keys, z := PrefixKeys(prefix), Remade(n, [], prefix);
    var l, m := Find(n, [Part("", "")], map[], ""), Find(z, [], map[], "");
    PrefixAlone(n, prefix);
    SlashAlone(n);
    RootEnds(n, prefix);
    UnderAllPath(keys, m);
    if EmptyParam(n) {
      OtherwiseFound(n, prefix, l, UnderAll(keys, m));
    } else {
      SilentFound(n, prefix, [Part("", "")], l, UnderAll(keys, m));
    }
  }

  lemma {:induction false} OtherwiseFound<H>(n: Node<H>, prefix: string, l: Lookup, m: Lookup)
    requires l.path.Some? && m.path.None?
    ensures !SameFound(n, prefix, l, m)
  {
  }

  /** What the root of the mounted blueprint does for no part at all. */
  lemma {:induction false} RootEnds<H>(n: Node<H>, prefix: string)
    requires WellFormed(n)
    ensures var m := Find(Remade(n, [], prefix), [], map[], "");
            if n.children == [] then m == Lookup(Some([]), map[], "")
            else m == Lookup(if Has(n.children, "*") then Some(["*"]) else None, map[], "")
    ensures EmptyParam(n) ==> n.children != [] && !Has(n.children, "*")
  {
    hide Remade;
    hide Find;
    var z := Remade(n, [], prefix);
    RemadeHas(n, [], prefix);
    SameKeys(z.children, n.children, "*");
    EndingFinds(z, map[]);
    LeafFinds(z);
    if EmptyParam(n) {
      var i :| 0 <= i < |n.children| && Followable(n.children, i) && EndsWell(n.children[i].node);
      EmptyFollows(n.children, i);
      if Has(n.children, "*") { StarFirst(n.children); }
    }
  }

  lemma {:induction false} LeafFinds<H>(n: Node<H>)
    ensures n.children == [] ==> Find(n, [], map[], "") == Lookup(Some([]), map[], "")
  {
  }

  lemma {:induction false} SlashParts()
    ensures Parts("/", "/", 0) == [Part("", "")]
  {
    var t := "/";
    assert Skip(t, 0) == 1 && MidEnd(t, 1) == 1 && t[1..1] == "" && t[1..] == "";
    assert Parts(t, t, 1) == [];
    PartsStep(t, t, 0, 1, 1);
  }

  /** For any other request, the router strips both alike. */
  lemma {:induction false} StrippedAlike(base: string, request: string)
    requires request != "" && request[0] == '/' && (request != "/" || base == "")
    ensures Stripped(base + request) == base + Stripped(request)
  {
    if request == "/" {
      assert base + request == request && base + Stripped(request) == Stripped(request);
    } else {
      assert |request| == 1 ==> request == "/";
      assert (base + request)[..|base + request| - 1] == base + request[..|request| - 1];
    }
  }

  lemma {:induction false} NoBase(prefix: string)
    ensures PrefixKeys(prefix) == [] ==> Base(prefix) == ""
  {
    var base := Base(prefix);
    assert MountText(prefix, "") == base + "/";
  }

  /** Whatever a blueprint's routes are: mounted in an empty router under a prefix without patterns, the router
      answers every request below the prefix as the blueprint would, exactly if the blueprint `Mounts` and, where
      there is a prefix, none of its parameters takes the request "/". */
  lemma {:induction false} MountedRequests<H>(rs: seq<Registration<H>>, prefix: string)
    requires Literal(prefix)
    ensures AllRequestsAgree(Build(rs), prefix)
            <==> Mounts(Build(rs), prefix) && (PrefixKeys(prefix) == [] || !EmptyParam(Build(rs)))
  {
    hide FindRoute;
    hide Mounted;
    hide Build;
    hide SameFound;
    hide Plain;
    hide SilentBelow;
    hide WellFormed;
    hide PrefixKeys;
    hide EmptyParam;
    hide Base;
    hide Stripped;
    var n := Build(rs);
    TrieIsRegistered(rs, []);
    if Mounts(n, prefix) {
      forall request: string | request != "" && request[0] == '/' && (request != "/" || PrefixKeys(prefix) == [])
        ensures RequestAgrees(n, prefix, request)
      {
        NoBase(prefix);
        StrippedLeads(request);
        StrippedAlike(Base(prefix), request);
        SilentAgrees(n, prefix, Stripped(request), request);
      }
      if PrefixKeys(prefix) != [] { SlashAgrees(n, prefix); }
    } else {
      var request := SomeIsLost(rs, prefix);
      ShorterStripped(Base(prefix) + request);
      assert !RequestAgrees(n, prefix, request);
    }
  }

  lemma {:induction false} ShorterStripped(request: string)
    ensures |Stripped(request)| <= |request|
  {
  }

  /** The blueprint of "/" alone, mounted under /api: the router finds nothing for /api/, nor for /api. */
  lemma {:induction false} SlashBlueprintIsLost()
    ensures var n := Build([Registration(GET, "/", 1, 0)]);
            && FindRoute(n, Stripped("/"), "/").path == Some(["/"])
            && FindRoute(Mounted(n, "/api"), Stripped("/api/"), "/api/").path == None
            && FindRoute(Mounted(n, "/api"), Stripped("/api"), "/api").path == None
  {
    hide Mounted;
    hide Parts;
    hide Find;
    var n := Build([Registration(GET, "/", 1, 0)]);
    SlashMounted();
    assert "/api/"[..4] == "/api" == Stripped("/api/");
    ApiMissed(Mounted(n, "/api"), "/api/");
    ApiMissed(Mounted(n, "/api"), "/api");
  }

  lemma {:induction false} ApiMissed(z: Node<int>, raw: string)
    requires z.handler == NoHandler() && |z.children| == 1 && z.children[0].key == "api" && |raw| >= 4
    requires var x := z.children[0].node; x.handler == NoHandler() && |x.children| == 1 && x.children[0].key == ""
    ensures FindRoute(z, "/api", raw).path == None
  {
    hide Parts;
    ApiParts(raw);
    var parts := [Part("api", raw[4..])];
    assert parts[1..] == [];
    assert FirstWild(z.children, "api") == 1;
    assert Find(z.children[0].node, [], map[], "") == Lookup(None, map[], "");
    assert Find(z, parts, map[], "").path == None;
  }

  lemma {:induction false} SlashMounted()
    ensures var z := Mounted(Build([Registration(GET, "/", 1, 0)]), "/api");
            && z.handler == NoHandler() && |z.children| == 1 && z.children[0].key == "api"
            && (var x := z.children[0].node; x.handler == NoHandler() && |x.children| == 1 && x.children[0].key == "")
  {
    var n := Build([Registration(GET, "/", 1, 0)]);
    assert |n.children| == 1 && n.children[0].key == "/" && n.children[0].node.children == [];
    var route := Route("/", n.children[0].node.handler);
    assert n.children[1..] == [] && "" + "/" == "/";
    assert AllRoutes(n.children[0].node, "/") == [route];
    assert AllRoutes(n, "") == [route];
    assert MountText("/api", "/") == "/api//";
    ApiKeys();
    hide Keys;
    assert [route][1..] == [];
    var z := MountOne(Empty(), "/api", route);
    assert Mount(Empty(), "/api", [route]) == z;
    assert ["api", ""][1..] == [""];
  }

  lemma {:induction false} ApiKeys()
    ensures Keys("/api//", 0) == ["api", ""]
  {
    var t := "/api//";
    assert MidEnd(t, 1) == 4 by { MidEndIs(t, 1, 4); }
    assert MidEnd(t, 5) == 5 && t[1..4] == "api" && t[5..5] == "";
    KeysStep(t, 0);
    KeysStep(t, 4);
    LastSlash(t);
  }

  lemma {:induction false} ApiParts(raw: string)
    requires |raw| >= 4
    ensures Parts("/api", raw, 0) == [Part("api", raw[4..])]
  {
    var t := "/api";
    MidEndIs(t, 1, 4);
    assert t[1..4] == "api" && Parts(t, raw, 4) == [];
    PartsStep(t, raw, 0, 1, 4);
  }
}
