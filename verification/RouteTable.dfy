/** The trie's nodes as objects, linked below one another. */
module RouteTable {
  import opened Bytes
  import opened RouteTree
  import opened RouteLookup
  import opened BlueprintMount

  type Link<!H> = (string, RouteTableNode<H>)

  /** The tries below some links are well formed, within `all`, and have no node in common. */
  ghost predicate Family<H>(links: seq<Link<H>>, all: set<RouteTableNode<H>>)
    reads all
    decreases all, 1
  {
    && (forall i :: 0 <= i < |links| ==> links[i].1 in all && links[i].1.Repr <= all && links[i].1.Valid())
    && (forall i, j :: 0 <= i < j < |links| ==> links[i].1.Repr !! links[j].1.Repr)
  }

  ghost function Subtrees<H>(links: seq<Link<H>>, all: set<RouteTableNode<H>>): (cs: seq<Child<H>>)
    requires Family(links, all)
    reads all
    ensures |cs| == |links|
    ensures forall i :: 0 <= i < |cs| ==> cs[i] == Child(links[i].0, links[i].1.Tree())
    decreases all, 1, |links|
  {
    if links == [] then [] else [Child(links[0].0, links[0].1.Tree())] + Subtrees(links[1..], all)
  }

  class RouteTableNode<H> {
    var verbHandler: VerbHandler<H>
    /** In the order of the keys. */
    var children: seq<Link<H>>
    ghost var Repr: set<RouteTableNode<H>>

    ghost predicate Valid()
      reads this, Repr
      decreases Repr, 0
    {
      this in Repr && Family(children, Repr - {this})
    }

    /** The trie from this node down. */
    ghost function Tree(): Node<H>
      requires Valid()
      reads this, Repr
      decreases Repr, 0
    {
      Node(verbHandler, Subtrees(children, Repr - {this}))
    }

    lemma {:induction false} Opened()
      requires Valid()
      ensures this in Repr && Family(children, Repr - {this})
      ensures Tree() == Node(verbHandler, Subtrees(children, Repr - {this}))
    {
    }

    lemma {:induction false} Closed(all: set<RouteTableNode<H>>)
      requires Repr == all + {this} && this !in all && Family(children, all)
      ensures Valid() && Tree() == Node(verbHandler, Subtrees(children, all))
    {
      assert Repr - {this} == all;
    }

    constructor ()
      ensures Valid() && fresh(Repr) && Tree() == Empty()
    {
      verbHandler, children, Repr := NoHandler(), [], {this};
    }

    /** Look for a key among the children. */
    method FindChild(key: string) returns (i: nat)
      requires Valid()
      ensures i == IndexOf(Tree().children, key) <= |children|
      ensures |Tree().children| == |children|
    {
      i := 0;
      while i < |children| && children[i].0 != key
        invariant i <= |children| && forall k :: 0 <= k < i ==> children[k].0 != key
      {
        i := i + 1;
      }
    }

    /** Where a key without a child goes. */
    method FindRank(key: string) returns (r: nat)
      requires Valid()
      ensures r == Rank(Tree().children, key) <= |children|
    {
      r := 0;
      while r < |children| && RouteTree.Less(children[r].0, key)
        invariant r <= |children| && forall k :: 0 <= k < r ==> RouteTree.Less(children[k].0, key)
      {
        r := r + 1;
      }
    }

    method Relink(links: seq<Link<H>>, ghost all: set<RouteTableNode<H>>)
      requires Family(links, all) && this !in all
      modifies this
      ensures Valid() && Repr == all + {this} && Tree() == Node(old(verbHandler), old(Subtrees(links, all)))
    {
      hide *;
      children := links;
      Repr := all + {this};
      Closed(all);
    }

    /** Put in a child for a key that has none. */
    method AddChild(key: string, node: RouteTableNode<H>)
      requires Valid() && node.Valid() && node.Repr !! Repr
      modifies this
      ensures Valid() && Repr == old(Repr) + node.Repr
      ensures var cs := old(Tree().children);
              var r := Rank(cs, key);
              && Tree() == Node(old(verbHandler), cs[..r] + [Child(key, node.Tree())] + cs[r..])
    {
      hide *;
      var r := FindRank(key);
      Opened();
      ghost var all := Repr - {this};
      FamilyGrows(children, all, r, (key, node));
      Relink(children[..r] + [(key, node)] + children[r..], all + node.Repr);
    }

    method SetHandler(update: VerbHandler<H> -> VerbHandler<H>)
      requires Valid()
      modifies this
      ensures Valid() && Repr == old(Repr) && Tree() == old(Tree()).(handler := update(old(verbHandler)))
    {
      hide *;
      Opened();
      ghost var all := Repr - {this};
      verbHandler := update(verbHandler);
      Closed(all);
    }

    /** `find_or_create`, and what its caller does with the handler it returns. */
    method Register(route: string, cursor: nat, update: VerbHandler<H> -> VerbHandler<H>)
      requires Valid() && cursor <= |route|
      modifies Repr
      ensures Valid() && old(Repr) <= Repr && fresh(Repr - old(Repr))
      ensures Tree() == RegisteredFrom(old(Tree()), route, cursor, update)
      decreases |route| - cursor, 0
    {
      if cursor == |route| {
        SetHandler(update);
        return;
      }
      if cursor == 0 && route == "/" {
        AddSlash(update);
        return;
      }
      if cursor == |route| - 1 && route[cursor] == '/' {
        SetHandler(update);
        return;
      }
      var anchor := if route[cursor] == '/' then cursor + 1 else cursor;
      var end := anchor;
      while end < |route| && route[end] != '/'
        invariant anchor <= end <= |route| && MidEnd(route, end) == MidEnd(route, anchor)
      {
        end := end + 1;
      }
      RegisterBelow(route[anchor..end], route, end, update);
    }

    /** "/" gets a child of its own, unless it has one. */
    method AddSlash(update: VerbHandler<H> -> VerbHandler<H>)
      requires Valid()
      modifies Repr
      ensures Valid() && old(Repr) <= Repr && fresh(Repr - old(Repr))
      ensures Tree() == RouteTree.Register(old(Tree()), "/", update)
    {
      hide *;
      Opened();
      SlashInserted(Tree(), update);
      var node := new RouteTableNode<H>();
      node.Opened();
      node.SetHandler(update);
      var i := FindChild("/");
      if i == |children| {
        AddChild("/", node);
      }
    }

    method RegisterBelow(mid: string, route: string, cursor: nat, update: VerbHandler<H> -> VerbHandler<H>)
      requires Valid() && 0 < cursor <= |route|
      modifies Repr
      ensures Valid() && old(Repr) <= Repr && fresh(Repr - old(Repr))
      ensures Tree() == Insert(old(Tree()), [mid] + Keys(route, cursor), update)
      decreases |route| - cursor, 2
    {
      hide *;
      Opened();
      var i := FindChild(mid);
      if i < |children| {
        InsertFound(Tree(), i, mid, Keys(route, cursor), update);
        RegisterIn(i, route, cursor, update);
      } else {
        InsertNew(Tree(), mid, Keys(route, cursor), update);
        FromOn(Empty(), route, cursor, update);
        var node := new RouteTableNode<H>();
        node.Register(route, cursor, update);
        AddChild(mid, node);
      }
    }

    method RegisterIn(i: nat, route: string, cursor: nat, update: VerbHandler<H> -> VerbHandler<H>)
      requires Valid() && 0 < cursor <= |route| && i < |children|
      modifies Repr
      ensures Valid() && old(Repr) <= Repr && fresh(Repr - old(Repr))
      ensures i < |old(Tree()).children|
      ensures var t := old(Tree());
              Tree() == t.(children := t.children[i := Child(t.children[i].key,
                  Insert(t.children[i].node, Keys(route, cursor), update))])
      decreases |route| - cursor, 1
    {
      hide Insert;
      hide Keys;
      Opened();
      ghost var all := Repr - {this};
      var links := children;
      ghost var was := Subtrees(links, all);
      var node := links[i].1;
      forall j | 0 <= j < |links| && j != i ensures links[j].1.Repr !! node.Repr {
        Apart(links, all, i, j);
      }
      node.Register(route, cursor, update);
      OneChanged(links, all, i, was, all + node.Repr);
      Relink(links, all + node.Repr);
    }

    /** The node that a lookup comes to, if it finds one, stands at the path it has found. */
    ghost predicate StandsAt(path: Option<seq<string>>, found: RouteTableNode?<H>)
      requires Valid()
      reads this, Repr
    {
      match path
      case None => found == null
      case Some(p) =>
        && found != null && found in Repr && found.Repr <= Repr && found.Valid()
        && At(Tree(), p) == Some(found.Tree())
    }

    lemma {:induction false} ChildStands(i: nat, key: string)
      requires Valid() && i == IndexOf(Tree().children, key) < |children|
      ensures |Tree().children| == |children| && children[i].1.Valid() && children[i].1.Repr < Repr
      ensures Tree().children[i] == Child(key, children[i].1.Tree())
      ensures StandsAt(Some([key]), children[i].1)
    {
      assert [key][1..] == [];
      assert this !in children[i].1.Repr;
    }

    lemma {:induction false} BelowStands(i: nat, key: string, path: Option<seq<string>>, found: RouteTableNode?<H>)
      requires Valid() && i == IndexOf(Tree().children, key) < |children| && children[i].1.Valid()
      requires children[i].1.StandsAt(path, found)
      ensures StandsAt(match path case None => None case Some(p) => Some([key] + p), found)
    {
      ChildStands(i, key);
      if path.Some? { assert ([key] + path.value)[1..] == path.value; }
    }

    method FindWildChild(mid: string) returns (i: nat)
      requires Valid()
      ensures i == FirstWild(Tree().children, mid) <= |children| == |Tree().children|
    {
      i := 0;
      while i < |children| && !WildFits(children[i].0, mid)
        invariant i <= |children| && forall k :: 0 <= k < i ==> !WildFits(children[k].0, mid)
      {
        i := i + 1;
      }
    }

    /** A lookup from `cursor` on; "/" itself is looked up by the table. */
    method Find(route: string, raw: string, cursor: nat, params: map<string, string>, matchPath: string)
        returns (found: RouteTableNode?<H>, params': map<string, string>, matchPath': string,
            ghost path: Option<seq<string>>)
      requires Valid() && WellFormed(Tree()) && cursor <= |route| <= |raw|
      ensures Lookup(path, params', matchPath') == RouteTree.Find(Tree(), Parts(route, raw, cursor), params, matchPath)
      ensures StandsAt(path, found)
      decreases |route| - cursor, 1
    {
      hide *;
      Opened();
      if children == [] || (cursor == |route| && verbHandler.verbs != map[]) {
        FoundHere(Tree(), route, raw, cursor, params, matchPath);
        StandsHere();
        return this, params, matchPath, Some([]);
      }
      if cursor == |route| {
        FoundAtEnd(Tree(), route, raw, params, matchPath);
        var i := FindChild("*");
        if i < |children| {
          ChildStands(i, "*");
          return children[i].1, params, matchPath, Some(["*"]);
        }
        StandsNowhere();
        return null, params, matchPath, None;
      }
      var anchor := if route[cursor] == '/' then cursor + 1 else cursor;
      var end := anchor;
      while end < |route| && route[end] != '/'
        invariant anchor <= end <= |route| && MidEnd(route, end) == MidEnd(route, anchor)
      {
        MidEndMoves(route, end);
        end := end + 1;
      }
      MidEndStops(route, end);
      PartsFrom(route, raw, cursor, anchor, end);
      found, params', matchPath', path := FindBelow(route[anchor..end], route, raw, end, params, matchPath);
    }

    /** On from here by the child with the part's own name, and, if that finds nothing, by a pattern. */
    method FindBelow(mid: string, route: string, raw: string, cursor: nat, params: map<string, string>,
                     matchPath: string)
        returns (found: RouteTableNode?<H>, params': map<string, string>, matchPath': string,
            ghost path: Option<seq<string>>)
      requires Valid() && WellFormed(Tree()) && Tree().children != [] && cursor <= |route| <= |raw|
      ensures Lookup(path, params', matchPath')
              == RouteTree.Find(Tree(), [Part(mid, raw[cursor..])] + Parts(route, raw, cursor), params, matchPath)
      ensures StandsAt(path, found)
      decreases |route| - cursor, 3
    {
      hide *;
      ghost var part, rest := Part(mid, raw[cursor..]), Parts(route, raw, cursor);
      FindSplits(Tree(), part, rest, params, matchPath);
      var i := FindChild(mid);
      if i < |children| {
        ChildStands(i, mid);
        ChildWellFormed(Tree(), i);
        found, params', matchPath', path := children[i].1.Find(route, raw, cursor, params, matchPath);
        ExactIs(Tree(), part, rest, params, matchPath, i);
        BelowStands(i, mid, path, found);
        FoundMeansSome(children[i].1, path, found);
        if found != null {
          return found, params', matchPath', Some([mid] + path.value);
        }
        found, params', matchPath', path := FindWildBelow(mid, route, raw, cursor, params', matchPath');
      } else {
        NoExact(Tree(), part, rest, params, matchPath);
        found, params', matchPath', path := FindWildBelow(mid, route, raw, cursor, params, matchPath);
      }
    }

    method FindWildBelow(mid: string, route: string, raw: string, cursor: nat, params: map<string, string>,
                         matchPath: string)
        returns (found: RouteTableNode?<H>, params': map<string, string>, matchPath': string,
            ghost path: Option<seq<string>>)
      requires Valid() && WellFormed(Tree()) && cursor <= |route| <= |raw|
      ensures Lookup(path, params', matchPath')
              == FindWild(Tree(), [Part(mid, raw[cursor..])] + Parts(route, raw, cursor), params, matchPath)
      ensures StandsAt(path, found)
      decreases |route| - cursor, 2
    {
      hide *;
      ghost var part, rest := Part(mid, raw[cursor..]), Parts(route, raw, cursor);
      var w := FindWildChild(mid);
      WildIs(Tree(), part, rest, params, matchPath);
      if w == |children| {
        StandsNowhere();
        return null, params, matchPath, None;
      }
      var key := children[w].0;
      KeyStands(w);
      ChildStands(w, key);
      if StarFits(key, mid) {
        return children[w].1, params, mid + raw[cursor..], Some([key]);
      }
      WildIsParam(Tree(), mid);
      ChildWellFormed(Tree(), w);
      found, params', matchPath', path := children[w].1.Find(route, raw, cursor, params[ParamName(key) := mid],
          matchPath);
      BelowStands(w, key, path, found);
      path := match path case None => None case Some(p) => Some([key] + p);
    }

    lemma {:induction false} KeyStands(w: nat)
      requires Valid() && WellFormed(Tree()) && w < |children|
      ensures IndexOf(Tree().children, children[w].0) == w < |Tree().children|
    {
      OwnIndex(Tree().children, w);
    }

    lemma {:induction false} StandsHere()
      requires Valid()
      ensures StandsAt(Some([]), this)
    {
      assert At(Tree(), []) == Some(Tree());
    }

    lemma {:induction false} StandsNowhere()
      requires Valid()
      ensures StandsAt(None, null)
    {
    }

    /** The routes of the leaves below, as text. */
    method AllRoutes(prefix: string) returns (rs: seq<Route<H>>)
      requires Valid()
      ensures rs == BlueprintMount.AllRoutes(Tree(), prefix)
      decreases Repr
    {
      hide *;
      Opened();
      AllRoutesOf(Tree(), prefix);
      if children == [] {
        return [Route(prefix, verbHandler)];
      }
      var text := if prefix != "" && prefix[|prefix| - 1] != '/' then prefix + "/" else prefix;
      rs := [];
      ghost var cs := Tree().children;
      CountsMatch();
      NoChildRoutes<H>(text);
      for i := 0 to |children|
        invariant rs == ChildRoutes(cs[..i], text)
      {
        ChildIs(i);
        var more := children[i].1.AllRoutes(text + children[i].0);
        rs := rs + more;
        OneMoreChild(cs, i, text);
      }
      assert cs[..|children|] == cs;
    }

    lemma {:induction false} CountsMatch()
      requires Valid()
      ensures |Tree().children| == |children|
    {
    }

    lemma {:induction false} ChildIs(i: nat)
      requires Valid() && i < |children|
      ensures i < |Tree().children| && children[i].1.Valid() && children[i].1.Repr < Repr
      ensures Tree().children[i] == Child(children[i].0, children[i].1.Tree())
    {
      assert this !in children[i].1.Repr;
    }
  }

  lemma {:induction false} AllRoutesOf<H>(n: Node<H>, prefix: string)
    ensures BlueprintMount.AllRoutes(n, prefix)
            == if n.children == [] then [Route(prefix, n.handler)]
               else ChildRoutes(n.children, if prefix != "" && prefix[|prefix| - 1] != '/' then prefix + "/"
                   else prefix)
  {
  }

  lemma {:induction false} NoChildRoutes<H>(prefix: string)
    ensures ChildRoutes<H>([], prefix) == []
  {
  }

  lemma {:induction false} OneMoreChild<H>(cs: seq<Child<H>>, i: nat, prefix: string)
    requires i < |cs|
    ensures ChildRoutes(cs[..i + 1], prefix)
            == ChildRoutes(cs[..i], prefix) + BlueprintMount.AllRoutes(cs[i].node, prefix + cs[i].key)
    decreases i
  {
    hide BlueprintMount.AllRoutes;
    if i > 0 {
      OneMoreChild(cs[1..], i - 1, prefix);
      assert cs[1..][..i] == cs[..i + 1][1..] && cs[1..][..i - 1] == cs[..i][1..];
    } else {
      assert cs[..1][1..] == [];
    }
  }

  lemma {:induction false} FoundMeansSome<H>(node: RouteTableNode<H>, path: Option<seq<string>>,
                                             found: RouteTableNode?<H>)
    requires node.Valid() && node.StandsAt(path, found)
    ensures found != null <==> path.Some?
  {
  }

  // ---- the lookup function, step by step

  lemma {:induction false} FoundHere<H>(n: Node<H>, route: string, raw: string, cursor: nat,
                                        params: map<string, string>, matchPath: string)
    requires cursor <= |route| <= |raw| && (n.children == [] || (cursor == |route| && n.handler.verbs != map[]))
    ensures RouteTree.Find(n, Parts(route, raw, cursor), params, matchPath) == Lookup(Some([]), params, matchPath)
  {
  }

  lemma {:induction false} FoundAtEnd<H>(n: Node<H>, route: string, raw: string, params: map<string, string>,
                                         matchPath: string)
    requires |route| <= |raw| && n.children != [] && n.handler.verbs == map[]
    ensures RouteTree.Find(n, Parts(route, raw, |route|), params, matchPath)
            == Lookup(if IndexOf(n.children, "*") < |n.children| then Some(["*"]) else None, params, matchPath)
  {
  }

  lemma {:induction false} MidEndMoves(route: string, cursor: nat)
    requires cursor < |route| && route[cursor] != '/'
    ensures MidEnd(route, cursor + 1) == MidEnd(route, cursor)
  {
  }

  lemma {:induction false} MidEndStops(route: string, cursor: nat)
    requires cursor <= |route| && (cursor < |route| ==> route[cursor] == '/')
    ensures MidEnd(route, cursor) == cursor
  {
  }

  lemma {:induction false} PartsFrom(route: string, raw: string, cursor: nat, anchor: nat, end: nat)
    requires cursor < |route| <= |raw| && anchor == (if route[cursor] == '/' then cursor + 1 else cursor)
             && end == MidEnd(route, anchor)
    ensures Parts(route, raw, cursor) == [Part(route[anchor..end], raw[end..])] + Parts(route, raw, end)
  {
  }

  lemma {:induction false} FindSplits<H>(n: Node<H>, part: Part, rest: seq<Part>, params: map<string, string>,
                                         matchPath: string)
    requires n.children != []
    ensures var parts := [part] + rest;
            var exact := FindExact(n, parts, params, matchPath);
            RouteTree.Find(n, parts, params, matchPath)
            == if exact.path.Some? then exact else FindWild(n, parts, exact.params, exact.matchPath)
  {
  }

  lemma {:induction false} ExactIs<H>(n: Node<H>, part: Part, rest: seq<Part>, params: map<string, string>,
                                      matchPath: string, i: nat)
    requires i == IndexOf(n.children, part.mid) < |n.children|
    ensures var l := RouteTree.Find(n.children[i].node, rest, params, matchPath);
            FindExact(n, [part] + rest, params, matchPath)
            == match l.path case None => l case Some(p) => Lookup(Some([part.mid] + p), l.params, l.matchPath)
  {
    assert ([part] + rest)[1..] == rest;
  }

  lemma {:induction false} NoExact<H>(n: Node<H>, part: Part, rest: seq<Part>, params: map<string, string>,
                                      matchPath: string)
    requires IndexOf(n.children, part.mid) == |n.children|
    ensures FindExact(n, [part] + rest, params, matchPath) == Lookup(None, params, matchPath)
  {
  }

  lemma {:induction false} WildIs<H>(n: Node<H>, part: Part, rest: seq<Part>, params: map<string, string>,
                                     matchPath: string)
    ensures var w := FirstWild(n.children, part.mid);
            FindWild(n, [part] + rest, params, matchPath)
            == if w == |n.children| then Lookup(None, params, matchPath)
               else if StarFits(n.children[w].key, part.mid) then Lookup(Some([n.children[w].key]), params,
                   part.mid + part.tail)
               else
                 var key := n.children[w].key;
                 var l := RouteTree.Find(n.children[w].node, rest, params[ParamName(key) := part.mid], matchPath);
                 match l.path case None => l case Some(p) => Lookup(Some([key] + p), l.params, l.matchPath)
  {
    assert ([part] + rest)[1..] == rest;
  }

  lemma {:induction false} WildIsParam<H>(n: Node<H>, mid: string)
    requires FirstWild(n.children, mid) < |n.children|
    ensures var key := n.children[FirstWild(n.children, mid)].key; !StarFits(key, mid) ==> IsParam(key)
  {
  }

  lemma {:induction false} ChildWellFormed<H>(n: Node<H>, i: nat)
    requires WellFormed(n) && i < |n.children|
    ensures WellFormed(n.children[i].node)
  {
  }

  lemma {:induction false} InsertFound<H>(n: Node<H>, i: nat, key: string, keys: seq<string>,
                                          update: VerbHandler<H> -> VerbHandler<H>)
    requires i == IndexOf(n.children, key) < |n.children|
    ensures Insert(n, [key] + keys, update)
            == n.(children := n.children[i := Child(key, Insert(n.children[i].node, keys, update))])
  {
    assert ([key] + keys)[1..] == keys;
  }

  lemma {:induction false} FromOn<H>(n: Node<H>, route: string, cursor: nat, update: VerbHandler<H> -> VerbHandler<H>)
    requires 0 < cursor <= |route|
    ensures RegisteredFrom(n, route, cursor, update) == Insert(n, Keys(route, cursor), update)
  {
  }

  lemma {:induction false} SlashInserted<H>(n: Node<H>, update: VerbHandler<H> -> VerbHandler<H>)
    ensures var made := Child("/", Empty().(handler := update(Empty<H>().handler)));
            var r := Rank(n.children, "/");
            RouteTree.Register(n, "/", update)
            == if IndexOf(n.children, "/") < |n.children| then n
               else Node(n.handler, n.children[..r] + [made] + n.children[r..])
  {
    hide Rank;
    hide IndexOf;
    InsertNewSlash(n, update);
  }

  lemma {:induction false} InsertNewSlash<H>(n: Node<H>, update: VerbHandler<H> -> VerbHandler<H>)
    ensures Insert(Empty(), [], update) == Empty().(handler := update(Empty<H>().handler))
    ensures ["/"][1..] == []
  {
  }

  lemma {:induction false} InsertNew<H>(n: Node<H>, key: string, keys: seq<string>,
                                        update: VerbHandler<H> -> VerbHandler<H>)
    requires IndexOf(n.children, key) == |n.children|
    ensures var r := Rank(n.children, key);
            Insert(n, [key] + keys, update)
            == Node(n.handler, n.children[..r] + [Child(key, Insert(Empty(), keys, update))] + n.children[r..])
  {
    assert ([key] + keys)[1..] == keys;
  }

  /** What registering a route from `cursor` on does to the trie below a node. */
  function RegisteredFrom<H>(n: Node<H>, route: string, cursor: nat, update: VerbHandler<H> -> VerbHandler<H>): Node<H>
    requires cursor <= |route|
  {
    if cursor == 0 then RouteTree.Register(n, route, update) else Insert(n, Keys(route, cursor), update)
  }

  /** Only the tree below one link has changed, from `was`. */
  lemma {:induction false} OneChanged<H>(links: seq<Link<H>>, all: set<RouteTableNode<H>>, i: nat, was: seq<Child<H>>,
                                         more: set<RouteTableNode<H>>)
    requires i < |links| == |was| && links[i].1.Valid() && links[i].1.Repr <= more && all <= more
    requires forall j :: 0 <= j < |links| ==> links[j].1 in all
    requires forall j :: 0 <= j < |links| && j != i ==>
               links[j].1.Valid() && links[j].1.Repr <= all && was[j] == Child(links[j].0, links[j].1.Tree())
    requires forall j, k :: 0 <= j < k < |links| ==> links[j].1.Repr !! links[k].1.Repr
    ensures Family(links, more)
    ensures Subtrees(links, more) == was[i := Child(links[i].0, links[i].1.Tree())]
  {
  }

  lemma {:induction false} Apart<H>(links: seq<Link<H>>, all: set<RouteTableNode<H>>, i: nat, j: nat)
    requires Family(links, all) && i < |links| && j < |links| && i != j
    ensures links[i].1.Repr !! links[j].1.Repr
  {
  }

  lemma {:induction false} FamilyGrows<H>(links: seq<Link<H>>, all: set<RouteTableNode<H>>, r: nat, link: Link<H>)
    requires Family(links, all) && r <= |links| && link.1.Valid() && link.1.Repr !! all
    ensures var more := links[..r] + [link] + links[r..];
            && Family(more, all + link.1.Repr)
            && Subtrees(more, all + link.1.Repr)
               == Subtrees(links, all)[..r] + [Child(link.0, link.1.Tree())] + Subtrees(links, all)[r..]
  {
    hide Subtrees;
    MoreFamily(links, all, r, link);
    var more, was := links[..r] + [link] + links[r..], Subtrees(links, all);
    var now := was[..r] + [Child(link.0, link.1.Tree())] + was[r..];
    forall i | 0 <= i < |more| ensures Subtrees(more, all + link.1.Repr)[i] == now[i] {
      assert more[i] == if i < r then links[i] else if i == r then link else links[i - 1];
      assert now[i] == if i < r then was[i] else if i == r then Child(link.0, link.1.Tree()) else was[i - 1];
    }
  }

  lemma {:induction false} MoreFamily<H>(links: seq<Link<H>>, all: set<RouteTableNode<H>>, r: nat, link: Link<H>)
    requires Family(links, all) && r <= |links| && link.1.Valid() && link.1.Repr !! all
    ensures link.1 in link.1.Repr && Family(links[..r] + [link] + links[r..], all + link.1.Repr)
  {
    var more := links[..r] + [link] + links[r..];
    assert forall i :: 0 <= i < |more| ==> more[i] == if i < r then links[i] else if i == r then link else links[i - 1];
  }
}
