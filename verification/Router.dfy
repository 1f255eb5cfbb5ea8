/** The router: registering handlers, mounting blueprints and serving requests. */
module Router {
  import opened Bytes
  import opened RouteTree
  import opened RouteBuild
  import opened BlueprintMount
  import opened RouteTable

  datatype Response<H> =
    | RouteNotFound
    | VerbNotImplemented
    | Served(handler: H, fullPath: string, params: map<string, string>, matchPath: string)

  function Serve<H>(n: Node<H>, verb: Verb, request: string): Response<H> {
    var l := FindRoute(n, Stripped(request), request);
    match l.path
    case None => RouteNotFound
    case Some(path) =>
      var vh := HandlerAt(n, path);
      if verb in vh.verbs then Served(vh.verbs[verb], vh.path, l.params, l.matchPath)
      else if ANY in vh.verbs then Served(vh.verbs[ANY], vh.path, l.params, l.matchPath)
      else VerbNotImplemented
  }

  /** Nothing is filed below "/". */
  ghost predicate SlashLeaf<H>(n: Node<H>) { forall key :: At(n, ["/", key]).None? }

  lemma {:induction false} RegisterKeeps<H>(n: Node<H>, route: string, update: VerbHandler<H> -> VerbHandler<H>)
    requires WellFormed(n) && SlashLeaf(n)
    ensures WellFormed(Register(n, route, update)) && SlashLeaf(Register(n, route, update))
  {
    if !(route == "/" && Has(n.children, "/")) {
      InsertWellFormed(n, KeysOf(route), update);
      KeysHaveNoSlash(route, 0);
      forall key ensures At(Insert(n, KeysOf(route), update), ["/", key]).None? {
        AtInserted(n, KeysOf(route), update, ["/", key]);
        assert ["/", key][0] == "/" && '/' in "/";
      }
    }
  }

  lemma {:induction false} SlashChild<H>(n: Node<H>, i: nat)
    requires WellFormed(n) && SlashLeaf(n) && i == IndexOf(n.children, "/") < |n.children|
    ensures n.children[i].node.children == [] && WellFormed(n.children[i].node)
  {
    var x := n.children[i].node;
    if x.children != [] {
      var path := ["/", x.children[0].key];
      assert path[1..] == [x.children[0].key];
      AtStep(n, path);
    }
  }

  class Router<H> {
    const root: RouteTableNode<H>

    ghost predicate Valid()
      reads this, root, root.Repr
    {
      root.Valid() && WellFormed(root.Tree()) && SlashLeaf(root.Tree())
    }

    constructor ()
      ensures Valid() && fresh(root.Repr) && root.Tree() == Build([])
    {
      root := new RouteTableNode<H>();
    }

    /** Register a handler for a verb; a verb that the route's node has already is refused. */
    method Handle(r: Registration<H>)
      requires Valid()
      modifies root.Repr
      ensures Valid() && old(root.Repr) <= root.Repr && fresh(root.Repr - old(root.Repr))
      ensures root.Tree() == Register(old(root.Tree()), r.route, vh => RouteBuild.Handle(vh, r))
    {
      RegisterKeeps(root.Tree(), r.route, vh => RouteBuild.Handle(vh, r));
      hide *;
      root.Register(r.route, 0, vh => RouteBuild.Handle(vh, r));
    }

    /** Look up a route: the node, and what was bound on the way. */
    method Find(route: string, raw: string)
        returns (found: RouteTableNode?<H>, params: map<string, string>, matchPath: string,
            ghost path: Option<seq<string>>)
      requires Valid() && |route| <= |raw|
      ensures Lookup(path, params, matchPath) == FindRoute(root.Tree(), route, raw)
      ensures root.StandsAt(path, found)
    {
      hide FindRoute;
      hide RouteTree.Find;
      hide WellFormed;
      hide SlashLeaf;
      FindRouteIs(root.Tree(), route, raw);
      if route == "/" {
        var i := root.FindChild("/");
        if i < |root.children| {
          found, params, matchPath := FindSlash(i, raw);
          return found, params, matchPath, Some(["/"]);
        }
      }
      found, params, matchPath, path := root.Find(route, raw, 0, map[], "");
    }

    /** The child for "/" is a leaf, so the lookup ends there. */
    method FindSlash(i: nat, raw: string)
        returns (found: RouteTableNode?<H>, params: map<string, string>, matchPath: string)
      requires Valid() && i == IndexOf(root.Tree().children, "/") < |root.children| && 1 <= |raw|
      ensures params == map[] && matchPath == "" && root.StandsAt(Some(["/"]), found)
    {
      SlashChild(root.Tree(), i);
      hide WellFormed;
      hide SlashLeaf;
      hide RouteTree.Find;
      hide IndexOf;
      root.ChildStands(i, "/");
      var node := root.children[i].1;
      hide *;
      FoundHere(node.Tree(), "/", raw, 1, map[], "");
      ghost var path;
      found, params, matchPath, path := node.Find("/", raw, 1, map[], "");
      root.BelowStands(i, "/", path, found);
    }

    /** Serve a request by the node found for it, for its own verb or for any. */
    method Call(verb: Verb, request: string) returns (r: Response<H>)
      requires Valid()
      ensures r == Serve(root.Tree(), verb, request)
    {
      hide FindRoute;
      hide HandlerAt;
      var route := if |request| > 1 && request[|request| - 1] == '/' then request[..|request| - 1] else request;
      var found, params, matchPath, path := Find(route, request);
      if found == null {
        return RouteNotFound;
      }
      FoundHandler(path, found);
      var vh := found.verbHandler;
      if verb in vh.verbs {
        return Served(vh.verbs[verb], vh.path, params, matchPath);
      }
      if ANY in vh.verbs {
        return Served(vh.verbs[ANY], vh.path, params, matchPath);
      }
      return VerbNotImplemented;
    }

    lemma {:induction false} FoundHandler(path: Option<seq<string>>, found: RouteTableNode<H>)
      requires root.Valid() && root.StandsAt(path, found)
      ensures path.Some? && found.Valid() && found.verbHandler == HandlerAt(root.Tree(), path.value)
    {
      hide At;
      if path.Some? { found.Opened(); }
    }

    /** Mount a blueprint's routes under a prefix. */
    method AddBlueprint(bp: Router<H>, prefix: string)
      requires Valid() && bp.Valid() && bp.root.Repr !! root.Repr
      modifies root.Repr
      ensures Valid() && root.Tree() == Mount(old(root.Tree()), prefix, AllRoutes(bp.root.Tree(), ""))
    {
      var routes := bp.root.AllRoutes("");
      for i := 0 to |routes|
        invariant Valid() && old(root.Repr) <= root.Repr && fresh(root.Repr - old(root.Repr))
        invariant Mount(root.Tree(), prefix, routes[i..]) == Mount(old(root.Tree()), prefix, routes)
      {
        MountStep(root.Tree(), prefix, routes[i..]);
        assert routes[i..][1..] == routes[i + 1..];
        MountRoute(prefix, routes[i]);
      }
    }

    method MountRoute(prefix: string, route: Route<H>)
      requires Valid()
      modifies root.Repr
      ensures Valid() && old(root.Repr) <= root.Repr && fresh(root.Repr - old(root.Repr))
      ensures root.Tree() == MountOne(old(root.Tree()), prefix, route)
    {
      hide Register;
      hide WellFormed;
      hide SlashLeaf;
      var text := (if prefix != "" && prefix[|prefix| - 1] == '/' then prefix else prefix + "/") + route.text;
      RegisterKeeps(root.Tree(), text, _ => route.handler.(path := text));
      root.Register(text, 0, _ => route.handler.(path := text));
    }

    /** Any registrations, in order. */
    method HandleAll(rs: seq<Registration<H>>)
      requires Valid() && root.Tree() == Build([])
      modifies root.Repr
      ensures Valid() && root.Tree() == Build(rs)
    {
      for i := 0 to |rs|
        invariant Valid() && old(root.Repr) <= root.Repr && fresh(root.Repr - old(root.Repr))
        invariant root.Tree() == Build(rs[..i])
      {
        Handle(rs[i]);
        BuildMore(rs, i);
      }
      assert rs[..|rs|] == rs;
    }
  }

  lemma {:induction false} BuildMore<H>(rs: seq<Registration<H>>, i: nat)
    requires i < |rs|
    ensures Build(rs[..i + 1]) == Register(Build(rs[..i]), rs[i].route, vh => RouteBuild.Handle(vh, rs[i]))
  {
    assert rs[..i + 1][..i] == rs[..i];
  }

  lemma {:induction false} MountStep<H>(root: Node<H>, prefix: string, routes: seq<Route<H>>)
    requires routes != []
    ensures Mount(root, prefix, routes) == Mount(MountOne(root, prefix, routes[0]), prefix, routes[1..])
  {
  }

  lemma {:induction false} FindRouteIs<H>(n: Node<H>, route: string, raw: string)
    requires |route| <= |raw|
    ensures FindRoute(n, route, raw)
            == if route == "/" && IndexOf(n.children, "/") < |n.children| then Lookup(Some(["/"]), map[], "")
               else RouteTree.Find(n, Parts(route, raw, 0), map[], "")
  {
  }

  lemma {:induction false} StrippedAsks(request: string, route: string)
    requires request == route || (request == route + "/"
             && (route == "/" || (route != "" && route[|route| - 1] != '/')))
    ensures AsksFor(Stripped(request), route)
  {
    if request == route + "/" {
      assert request[..|request| - 1] == route;
    } else if |request| > 1 && request[|request| - 1] == '/' {
      assert request == Stripped(request) + "/";
    } else if |request| == 1 && request[0] == '/' {
      assert request == "/";
    }
  }

  /** Whatever was registered, and in whatever order: a request for a registered route's text, or for it and a
      last slash, runs the handler registered first for it and its verb, with nothing bound; but "//" is not
      served once "/" is registered. */
  lemma {:induction false} RegisteredIsServed<H>(rs: seq<Registration<H>>, i: nat, request: string)
    requires i < |rs|
    requires var route := rs[i].route;
             request == route || (request == route + "/"
                 && (route == "/" || (route != "" && route[|route| - 1] != '/')))
    requires forall j :: 0 <= j < i && KeysOf(rs[j].route) == KeysOf(rs[i].route) ==>
             rs[j].verb != rs[i].verb && rs[i].route != "/"
    ensures var path := HandlerAt(Build(rs), KeysOf(rs[i].route)).path;
            Serve(Build(rs), rs[i].verb, request) == Served(rs[i].handler, path, map[], "")
            <==> rs[i].route != "//" || FirstSlash(rs) == |rs|
  {
    hide Build;
    hide Registered;
    hide FindRoute;
    hide FirstSlash;
    hide KeysOf;
    hide Stripped;
    hide AsksFor;
    var route := rs[i].route;
    StrippedAsks(request, route);
    RegisteredRouteIsFound(rs, i, Stripped(request), request);
    if route == "//" && FirstSlash(rs) < |rs| {
      SlashIsServed(rs, i, request);
    } else {
      FirstWins(rs, i);
    }
  }

  /** What "/" is served with instead has another path. */
  lemma {:induction false} SlashIsServed<H>(rs: seq<Registration<H>>, i: nat, request: string)
    requires i < |rs| && rs[i].route == "//" && FirstSlash(rs) < |rs| && request == "//"
    ensures var path := HandlerAt(Build(rs), KeysOf("//")).path;
            path == "//" && (var r := Serve(Build(rs), rs[i].verb, request); r.Served? ==> r.fullPath == "/")
  {
    hide Build;
    hide Registered;
    hide FindRoute;
    hide FirstSlash;
    hide Known;
    TrieIsRegistered(rs, KeysOf("//"));
    TrieIsRegistered(rs, ["/"]);
    SomethingRegistered(rs, i);
    SomethingRegistered(rs, FirstSlash(rs));
    HandlersPath(rs, KeysOf("//"));
    HandlersPath(rs, ["/"]);
    SlashIsFound(rs, Stripped(request), request);
  }

  /** The handler for the keys of "/" or "//" has that path. */
  lemma {:induction false} HandlersPath<H>(rs: seq<Registration<H>>, path: seq<string>)
    requires Registered(rs, path).verbs != map[]
    ensures path == ["/"] ==> Registered(rs, path).path == "/"
    ensures path == KeysOf("//") ==> Registered(rs, path).path == "//"
  {
    hide Registered;
    PathIsRegistered(rs, path);
    var i :| 0 <= i < |rs| && KeysOf(rs[i].route) == path && Registered(rs, path).path == rs[i].route;
    OnlySlash(rs[i].route);
    OnlyTwoSlashes(rs[i].route);
  }

  lemma {:induction false} TwoSlashes()
    ensures KeysOf("//") == [""]
  {
    var t := "//";
    assert Skip(t, 0) == 1 && MidEnd(t, 1) == 1 && t[1..1] == "";
    assert Keys(t, 1) == [];
    KeysStep(t, 0);
  }

  lemma {:induction false} OnlyTwoSlashes(route: string)
    ensures KeysOf(route) == [""] <==> route == "//"
    ensures KeysOf("//") == [""]
  {
    TwoSlashes();
    if KeysOf(route) == [""] {
      var a := Skip(route, 0);
      var e := MidEnd(route, a);
      assert route != "" && route != "/";
      KeysStep(route, 0);
      assert KeysOf(route)[1..] == Keys(route, e) && KeysOf(route)[0] == route[a..e];
      assert e == a <= 1;
      assert e == |route| - 1 && route[e] == '/';
      assert a == 1 && |route| == 2;
    }
  }

  /** "/" registered for two verbs: the second is not implemented. */
  lemma {:induction false} SecondVerbIsLost()
    ensures var rs := [Registration(GET, "/", 1, 0), Registration(POST, "/", 2, 0)];
            Serve(Build(rs), POST, "/") == VerbNotImplemented
  {
  }
}
