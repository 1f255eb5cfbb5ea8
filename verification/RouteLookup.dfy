/** What looking up a route finds, against a declarative account of which paths fit a request. */
module RouteLookup {
  import opened Bytes
  import opened RouteTree

  /** The path fits the request: each key is the part's own name, a parameter, or, as the last, a `*`
      pattern; and it ends where the request does, at a leaf, at a pattern, or at a `*` below. */
  predicate Fits<H>(n: Node<H>, parts: seq<Part>, path: seq<string>)
    decreases |path|
  {
    if path == [] then n.children == [] || (parts == [] && n.handler.verbs != map[])
    else if parts == [] then path == ["*"] && Has(n.children, "*")
    else
      var i := IndexOf(n.children, path[0]);
      && i < |n.children|
      && (((path[0] == parts[0].mid || IsParam(path[0])) && Fits(n.children[i].node, parts[1..], path[1..]))
          || (StarFits(path[0], parts[0].mid) && |path| == 1))
  }

  /** Wherever the path does not go by the part's own name, it goes by the first pattern that fits. */
  predicate ByFirst<H>(n: Node<H>, parts: seq<Part>, path: seq<string>)
    decreases |path|
  {
    if path == [] || parts == [] then true else
      var i := IndexOf(n.children, path[0]);
      i < |n.children| &&
      (i == FirstWild(n.children, parts[0].mid)
       || (path[0] == parts[0].mid && Fits(n.children[i].node, parts[1..], path[1..]))) &&
      ByFirst(n.children[i].node, parts[1..], path[1..])
  }

  /** Where the paths part, the first goes on by the part's own name, unless one of them ends there. */
  predicate Before(p: seq<string>, q: seq<string>, parts: seq<Part>)
    decreases |p|
  {
    if p == [] || q == [] || parts == [] then true
    else if p[0] == q[0] then Before(p[1..], q[1..], parts[1..])
    else p[0] == parts[0].mid
  }

  lemma {:induction false} OwnIndex<H>(children: seq<Child<H>>, i: nat)
    requires Sorted(children) && i < |children|
    ensures IndexOf(children, children[i].key) == i
  {
    var k := IndexOf(children, children[i].key);
    if k < i { LessIsStrict(children[k].key, children[i].key); }
  }

  lemma {:induction false} UnderPath(key: string, l: Lookup)
    ensures Under(key, l).path.Some? <==> l.path.Some?
    ensures l.path.Some? ==> Under(key, l).path.value != [] && Under(key, l).path.value[0] == key
                             && Under(key, l).path.value[1..] == l.path.value
  {
  }

  /** What is found fits, and is in the trie. */
  lemma {:induction false} FoundFits<H>(n: Node<H>, parts: seq<Part>, params: map<string, string>, matchPath: string)
    requires WellFormed(n)
    ensures var l := Find(n, parts, params, matchPath);
            l.path.Some? ==>
                Fits(n, parts, l.path.value) && ByFirst(n, parts, l.path.value) && At(n, l.path.value).Some?
    decreases |parts|
  {
    if n.children != [] && parts != [] {
      var mid := parts[0].mid;
      var e, w := IndexOf(n.children, mid), FirstWild(n.children, mid);
      var exact := FindExact(n, parts, params, matchPath);
      if e < |n.children| {
        var l := Find(n.children[e].node, parts[1..], params, matchPath);
        FoundFits(n.children[e].node, parts[1..], params, matchPath);
        UnderPath(mid, l);
      }
      if exact.path.None? && w < |n.children| {
        var key := n.children[w].key;
        OwnIndex(n.children, w);
        if !StarFits(key, mid) {
          var params' := exact.params[ParamName(key) := mid];
          var l := Find(n.children[w].node, parts[1..], params', exact.matchPath);
          FoundFits(n.children[w].node, parts[1..], params', exact.matchPath);
          UnderPath(key, l);
        } else {
          StarPath(n, parts, w);
        }
      }
    }
  }

  lemma {:induction false} StarPath<H>(n: Node<H>, parts: seq<Part>, w: nat)
    requires parts != [] && w < |n.children| && IndexOf(n.children, n.children[w].key) == w
    requires w == FirstWild(n.children, parts[0].mid) && StarFits(n.children[w].key, parts[0].mid)
    ensures var path := [n.children[w].key]; Fits(n, parts, path) && ByFirst(n, parts, path) && At(n, path).Some?
  {
    assert [n.children[w].key][1..] == [];
  }

  /** A path that fits, by first patterns, is found, or one before it. */
  lemma {:induction false} FittingIsFound<H>(n: Node<H>, parts: seq<Part>, path: seq<string>,
                                             params: map<string, string>,
                                             matchPath: string)
    requires WellFormed(n) && Fits(n, parts, path) && ByFirst(n, parts, path)
    ensures var l := Find(n, parts, params, matchPath);
            l.path.Some? && Before(l.path.value, path, parts)
    decreases |parts|
  {
    if n.children != [] && parts != [] {
      var mid := parts[0].mid;
      var e, w := IndexOf(n.children, mid), FirstWild(n.children, mid);
      var exact := FindExact(n, parts, params, matchPath);
      var i := IndexOf(n.children, path[0]);
      if exact.path.Some? {
        UnderPath(mid, Find(n.children[e].node, parts[1..], params, matchPath));
        if path[0] == mid { ExactBefore(n, parts, path, params, matchPath); }
      } else {
        WildBefore(n, parts, path, params, matchPath);
      }
    }
  }

  lemma {:induction false} ExactBefore<H>(n: Node<H>, parts: seq<Part>, path: seq<string>, params: map<string, string>,
                                          matchPath: string)
    requires WellFormed(n) && Fits(n, parts, path) && ByFirst(n, parts, path) && n.children != []
    requires parts != [] && path != [] && path[0] == parts[0].mid
    requires FindExact(n, parts, params, matchPath).path.Some?
    ensures Before(FindExact(n, parts, params, matchPath).path.value, path, parts)
    decreases |parts|, 0
  {
    var e := IndexOf(n.children, path[0]);
    var l := Find(n.children[e].node, parts[1..], params, matchPath);
    UnderPath(path[0], l);
    if Fits(n.children[e].node, parts[1..], path[1..]) {
      FittingIsFound(n.children[e].node, parts[1..], path[1..], params, matchPath);
    } else {
      assert path[1..] == [];
    }
  }

  lemma {:induction false} WildBefore<H>(n: Node<H>, parts: seq<Part>, path: seq<string>, params: map<string, string>,
                                         matchPath: string)
    requires WellFormed(n) && Fits(n, parts, path) && ByFirst(n, parts, path) && n.children != []
    requires parts != [] && path != []
    requires FindExact(n, parts, params, matchPath).path.None?
    ensures var exact := FindExact(n, parts, params, matchPath);
            var l := FindWild(n, parts, exact.params, exact.matchPath);
            l.path.Some? && Before(l.path.value, path, parts)
    decreases |parts|, 0
  {
    var mid := parts[0].mid;
    var exact := FindExact(n, parts, params, matchPath);
    var i, w := IndexOf(n.children, path[0]), FirstWild(n.children, mid);
    if path[0] == mid && Fits(n.children[i].node, parts[1..], path[1..]) {
      FittingIsFound(n.children[i].node, parts[1..], path[1..], params, matchPath);
      UnderPath(mid, Find(n.children[i].node, parts[1..], params, matchPath));
    } else if !StarFits(path[0], mid) {
      var params' := exact.params[ParamName(path[0]) := mid];
      FittingIsFound(n.children[i].node, parts[1..], path[1..], params', exact.matchPath);
      UnderPath(path[0], Find(n.children[i].node, parts[1..], params', exact.matchPath));
    } else {
      assert path[1..] == [];
    }
  }

  /** A lookup finds something exactly when a path by first patterns fits; and it finds the first of them. */
  lemma {:induction false} FoundIffFits<H>(n: Node<H>, parts: seq<Part>, params: map<string, string>, matchPath: string)
    requires WellFormed(n)
    ensures var l := Find(n, parts, params, matchPath);
            && (l.path.Some? <==> exists path :: Fits(n, parts, path) && ByFirst(n, parts, path))
            && (l.path.Some? ==> forall path :: Fits(n, parts, path) && ByFirst(n, parts, path) ==>
                Before(l.path.value, path, parts))
  {
    hide *;
    FoundFits(n, parts, params, matchPath);
    var l := Find(n, parts, params, matchPath);
    if l.path.Some? {
      var path := l.path.value;
      assert Fits(n, parts, path) && ByFirst(n, parts, path);
    }
    forall path | Fits(n, parts, path) && ByFirst(n, parts, path)
      ensures Find(n, parts, params, matchPath).path.Some?
              && Before(Find(n, parts, params, matchPath).path.value, path, parts)
    {
      FittingIsFound(n, parts, path, params, matchPath);
    }
  }

  /** No node has two children whose keys are patterns. */
  ghost predicate OnePattern<H>(n: Node<H>) {
    && (forall i, j :: 0 <= i < j < |n.children| ==> !(IsPattern(n.children[i].key) && IsPattern(n.children[j].key)))
    && forall i :: 0 <= i < |n.children| ==> OnePattern(n.children[i].node)
  }

  predicate IsPattern(key: string) { IsStar(key) || IsParam(key) }

  lemma {:induction false} OnlyPatternIsFirst<H>(n: Node<H>, parts: seq<Part>, path: seq<string>)
    requires OnePattern(n) && Fits(n, parts, path)
    ensures ByFirst(n, parts, path)
    decreases |path|
  {
    if path != [] && parts != [] {
      var i, w := IndexOf(n.children, path[0]), FirstWild(n.children, parts[0].mid);
      if Fits(n.children[i].node, parts[1..], path[1..]) {
        OnlyPatternIsFirst(n.children[i].node, parts[1..], path[1..]);
      } else {
        assert path[1..] == [];
      }
    }
  }

  /** With one pattern to a node at most, a lookup finds something exactly when some path fits. */
  lemma {:induction false} OnePatternFindsAll<H>(n: Node<H>, parts: seq<Part>, params: map<string, string>,
                                                 matchPath: string)
    requires WellFormed(n) && OnePattern(n)
    ensures Find(n, parts, params, matchPath).path.Some? <==> exists path :: Fits(n, parts, path)
  {
    hide Fits;
    hide ByFirst;
    hide Before;
    hide Find;
    FoundIffFits(n, parts, params, matchPath);
    forall path | Fits(n, parts, path) ensures ByFirst(n, parts, path) {
      OnlyPatternIsFirst(n, parts, path);
    }
  }

  function Mids(parts: seq<Part>): (m: seq<string>)
    ensures |m| == |parts|
  {
    seq(|parts|, i requires 0 <= i < |parts| => parts[i].mid)
  }

  /** A request for a node's own path finds that node, and binds nothing, whatever patterns stand beside it. */
  lemma {:induction false} OwnPathIsFound<H>(n: Node<H>, parts: seq<Part>, params: map<string, string>,
                                             matchPath: string)
    requires At(n, Mids(parts)).Some?
    requires At(n, Mids(parts)).value.handler.verbs != map[] || At(n, Mids(parts)).value.children == []
    ensures Find(n, parts, params, matchPath) == Lookup(Some(Mids(parts)), params, matchPath)
    decreases |parts|
  {
    if parts != [] {
      var mids := Mids(parts);
      assert mids[1..] == Mids(parts[1..]);
      assert mids == [parts[0].mid] + Mids(parts[1..]);
      var i := IndexOf(n.children, mids[0]);
      OwnPathIsFound(n.children[i].node, parts[1..], params, matchPath);
    }
  }
}
