/** What a request is served with, told from the registrations and the text of the request. */
module ServedRequests {
  import opened Bytes
  import opened RouteTree
  import opened RouteLookup
  import opened RouteBuild
  import opened RouteParameters
  import opened Router

  // ---- keys that are patterns

  predicate Spaces(s: string) { forall i :: 0 <= i < |s| ==> s[i] == ' ' }

  /** A name in braces, with spaces around it or none. */
  predicate Braced(key: string, before: string, name: string, after: string) {
    && key == "{" + before + name + after + "}" && Spaces(before) && Spaces(after)
    && name != "" && name[0] != ' ' && name[|name| - 1] != ' '
  }

  lemma {:induction false} TrimmedLeft(before: string, t: string)
    requires Spaces(before) && (t != "" ==> t[0] != ' ')
    ensures TrimLeft(before + t) == t
    decreases |before|
  {
    if before == "" {
      assert before + t == t;
    } else {
      assert (before + t)[1..] == before[1..] + t;
      TrimmedLeft(before[1..], t);
    }
  }

  lemma {:induction false} TrimmedRight(t: string, after: string)
    requires Spaces(after) && (t != "" ==> t[|t| - 1] != ' ')
    ensures TrimRight(t + after) == t
    decreases |after|
  {
    if after == "" {
      assert t + after == t;
    } else {
      assert (t + after)[..|t + after| - 1] == t + after[..|after| - 1];
      TrimmedRight(t, after[..|after| - 1]);
    }
  }

  /** A key is a parameter if something stands between its braces; its name is that without spaces around it. */
  lemma {:induction false} BracedIsParam(key: string, before: string, name: string, after: string)
    requires Braced(key, before, name, after)
    ensures IsParam(key) && ParamName(key) == name
  {
    hide TrimLeft;
    hide TrimRight;
    assert key[1..|key| - 1] == before + (name + after);
    TrimmedLeft(before, name + after);
    TrimmedRight(name, after);
  }

  /** A pattern is a star after a text that the part begins with, or a parameter. */
  lemma {:induction false} PatternsAre(key: string, mid: string)
    ensures StarFits(key, mid) <==> exists p: string :: key == p + "*" && p <= mid
    ensures IsParam(key) <==> exists inner: string :: inner != "" && key == "{" + inner + "}"
  {
    if IsStar(key) { assert key == key[..|key| - 1] + "*"; }
    if p: string :| key == p + "*" && p <= mid { assert key[..|key| - 1] == p; }
    if IsParam(key) { assert key == "{" + key[1..|key| - 1] + "}"; }
    if inner: string :| inner != "" && key == "{" + inner + "}" { assert |key| == |inner| + 2; }
  }

  /** The texts are the same up to `k`, where the first ends or has the lower byte. */
  predicate Splits(a: string, b: string, k: nat) {
    k <= |a| && k < |b| && a[..k] == b[..k] && (k < |a| ==> a[k] < b[k])
  }

  /** Keys stand in the order of their first differing byte, and a prefix comes first. */
  lemma {:induction false} LessIs(a: string, b: string)
    ensures Less(a, b) <==> exists k: nat :: Splits(a, b, k)
  {
    if b != "" && (a == "" || a[0] != b[0]) {
      assert Splits(a, b, 0) <==> a == "" || a[0] < b[0];
      forall k: nat | Splits(a, b, k) ensures k == 0 { SplitsFirst(a, b, k); }
    } else if b != "" {
      LessIs(a[1..], b[1..]);
      Tails(a, b);
    }
  }

  lemma {:induction false} SplitsFirst(a: string, b: string, k: nat)
    requires Splits(a, b, k)
    ensures k > 0 ==> a != "" && b != "" && a[0] == b[0]
  {
    if k > 0 { assert a[..k][0] == a[0] && b[..k][0] == b[0]; }
  }

  lemma {:induction false} Tails(a: string, b: string)
    requires a != "" && b != "" && a[0] == b[0]
    ensures (exists k: nat :: Splits(a, b, k)) <==> exists k: nat :: Splits(a[1..], b[1..], k)
  {
    if k: nat :| Splits(a, b, k) {
      assert k > 0;
      assert a[1..][..k - 1] == a[..k][1..] && b[1..][..k - 1] == b[..k][1..];
      assert Splits(a[1..], b[1..], k - 1);
    }
    if k: nat :| Splits(a[1..], b[1..], k) {
      assert a[..k + 1] == [a[0]] + a[1..][..k] && b[..k + 1] == [b[0]] + b[1..][..k];
      assert Splits(a, b, k + 1);
    }
  }

  // ---- the text of a request and of a route

  /** With a slash in front. */
  function Rooted(text: string): string { if text != "" && text[0] != '/' then "/" + text else text }

  lemma {:induction false} PartText(route: string, cursor: nat)
    requires cursor < |route| && (cursor > 0 ==> route[cursor] == '/')
    ensures var a := Skip(route, cursor);
            var e := MidEnd(route, a);
            && a <= e && (e < |route| ==> route[e] == '/' && e > 0) && cursor < e + (if a > cursor then 0 else 1)
            && '/' !in route[a..e] && Rooted(route[cursor..]) == "/" + route[a..e] + route[e..]
  {
    hide *;
    var a := Skip(route, cursor);
    var e := MidEnd(route, a);
    PartEnds(route, cursor);
    assert forall c :: c in route[a..e] ==> c != '/';
    if a > cursor {
      assert route[cursor..] == "/" + route[a..e] + route[e..];
      RootedIs(route[cursor..]);
    } else {
      assert route[cursor..] == route[a..e] + route[e..] && route[cursor..][0] == route[cursor];
      RootedAdds(route[cursor..]);
      assert "/" + (route[a..e] + route[e..]) == "/" + route[a..e] + route[e..];
    }
  }

  lemma {:induction false} PartEnds(route: string, cursor: nat)
    requires cursor < |route| && (cursor > 0 ==> route[cursor] == '/')
    ensures var a := Skip(route, cursor);
            var e := MidEnd(route, a);
            && cursor <= a <= cursor + 1 && a <= e <= |route| && (e < |route| ==> route[e] == '/' && e > 0)
            && cursor < e + (if a > cursor then 0 else 1) && (forall i :: a <= i < e ==> route[i] != '/')
            && (if a > cursor then route[cursor] == '/' else route[cursor] != '/')
  {
  }

  lemma {:induction false} RootedAdds(text: string)
    requires text != "" && text[0] != '/'
    ensures Rooted(text) == "/" + text
  {
  }

  /** The parts of a request, each with a slash in front, are its text, and after each part comes the rest of it as it
      was sent, with its last slash. */
  lemma {:induction false} PartsAreText(route: string, raw: string, cursor: nat)
    requires cursor <= |route| && route <= raw && (0 < cursor < |route| ==> route[cursor] == '/')
    ensures TextOf(Mids(Parts(route, raw, cursor))) == Rooted(route[cursor..])
    ensures var parts := Parts(route, raw, cursor);
            forall i :: 0 <= i < |parts| ==>
              '/' !in parts[i].mid && parts[i].tail == TextOf(Mids(parts)[i + 1..]) + raw[|route|..]
    decreases |route| - cursor
  {
    hide *;
    if cursor == |route| {
      NothingLeft(route, raw);
    } else {
      var a := Skip(route, cursor);
      var e := MidEnd(route, a);
      SkipBounds(route, cursor);
      PartText(route, cursor);
      PartsStep(route, raw, cursor, a, e);
      PartsAreText(route, raw, e);
      var first, rest := Part(route[a..e], raw[e..]), Parts(route, raw, e);
      MidsStep(first, rest);
      TextStep(first.mid, Mids(rest));
      RootedIs(route[e..]);
      assert raw[e..] == route[e..] + raw[|route|..];
      var parts := [first] + rest;
      forall i | 0 <= i < |parts|
        ensures '/' !in parts[i].mid && parts[i].tail == TextOf(Mids(parts)[i + 1..]) + raw[|route|..]
      {
        assert Mids(parts)[i + 1..] == Mids(rest)[i..];
        if i > 0 { assert parts[i] == rest[i - 1]; } else { assert Mids(rest)[0..] == Mids(rest); }
      }
    }
  }

  lemma {:induction false} SkipBounds(route: string, cursor: nat)
    requires cursor < |route|
    ensures var a := Skip(route, cursor); cursor <= a <= |route| && a <= MidEnd(route, a) <= |route|
    ensures MidEnd(route, Skip(route, cursor)) > cursor
  {
  }

  lemma {:induction false} NothingLeft(route: string, raw: string)
    requires route <= raw
    ensures Parts(route, raw, |route|) == [] && TextOf(Mids([])) == Rooted(route[|route|..])
  {
  }

  lemma {:induction false} TextStep(mid: string, rest: seq<string>)
    ensures TextOf([mid] + rest) == "/" + mid + TextOf(rest)
  {
    assert ([mid] + rest)[1..] == rest;
  }

  lemma {:induction false} RootedIs(text: string)
    ensures text == "" || text[0] == '/' ==> Rooted(text) == text
  {
  }

  /** The keys of a route, each with a slash in front, are its text without a last slash. */
  lemma {:induction false} KeysAreText(route: string)
    requires route != "/"
    ensures var text := if route != "" && route[|route| - 1] == '/' then route[..|route| - 1] else route;
            TextOf(KeysOf(route)) == Rooted(text)
  {
    hide Parts;
    hide Keys;
    hide TextOf;
    var text := if route != "" && route[|route| - 1] == '/' then route[..|route| - 1] else route;
    if text == route {
      PartsAreKeys(route, route, 0);
    } else {
      assert route == text + "/";
      PartsAreSlashedKeys(text, text, 0);
    }
    PartsAreText(text, text, 0);
    assert text[0..] == text;
  }

  // ---- the path that is found

  /** Of two paths that fit, the first ends where it can, else goes on by the part's own name, else by the pattern. */
  predicate Precedes<H>(n: Node<H>, p: seq<string>, q: seq<string>, parts: seq<Part>)
    decreases |p|
  {
    if p == [] then q != []
    else if q == [] || parts == [] then false
    else if p[0] != q[0] then p[0] == parts[0].mid
    else
      var i := IndexOf(n.children, p[0]);
      i < |n.children| &&
      var c, rest := n.children[i].node, parts[1..];
      if Fits(c, rest, p[1..]) && Fits(c, rest, q[1..]) then Precedes(c, p[1..], q[1..], rest)
      else p[0] == parts[0].mid && Fits(c, rest, p[1..])
  }

  /** The path is the first of those that fit by first patterns. */
  ghost predicate IsFirst<H>(n: Node<H>, path: seq<string>, parts: seq<Part>) {
    && Fits(n, parts, path) && ByFirst(n, parts, path)
    && forall q :: Fits(n, parts, q) && ByFirst(n, parts, q) ==> q == path || Precedes(n, path, q, parts)
  }

  lemma {:induction false} FoundPrecedes<H>(n: Node<H>, parts: seq<Part>, q: seq<string>, params: map<string, string>,
                                            matchPath: string)
    requires WellFormed(n) && Fits(n, parts, q) && ByFirst(n, parts, q)
    ensures var l := Find(n, parts, params, matchPath);
            l.path.Some? && (l.path.value == q || Precedes(n, l.path.value, q, parts))
    decreases |parts|
  {
    FittingIsFound(n, parts, q, params, matchPath);
    FoundFits(n, parts, params, matchPath);
    if n.children != [] && parts != [] && q != [] {
      hide Fits;
      hide ByFirst;
      hide Precedes;
      hide Find;
      OnwardPrecedes(n, parts, q, params, matchPath);
    }
  }

  lemma {:induction false} OnwardPrecedes<H>(n: Node<H>, parts: seq<Part>, q: seq<string>, params: map<string, string>,
                                             matchPath: string)
    requires WellFormed(n) && Fits(n, parts, q) && ByFirst(n, parts, q) && n.children != [] && parts != [] && q != []
    requires Find(n, parts, params, matchPath).path.Some?
    ensures var p := Find(n, parts, params, matchPath).path.value; p == q || Precedes(n, p, q, parts)
    decreases |parts|, 0
  {
    var mid := parts[0].mid;
    var i, w := IndexOf(n.children, q[0]), FirstWild(n.children, mid);
    var c, rest := n.children[i].node, parts[1..];
    var exact := FindExact(n, parts, params, matchPath);
    if exact.path.Some? {
      var e := IndexOf(n.children, mid);
      var l := Find(n.children[e].node, rest, params, matchPath);
      UnderPath(mid, l);
      FoundFits(n.children[e].node, rest, params, matchPath);
      if q[0] == mid && Fits(c, rest, q[1..]) { FoundPrecedes(c, rest, q[1..], params, matchPath); }
    } else if q[0] == mid && Fits(c, rest, q[1..]) {
      FittingIsFound(c, rest, q[1..], params, matchPath);
      UnderPath(mid, Find(c, rest, params, matchPath));
      assert false;
    } else {
      OwnIndex(n.children, w);
      if StarFits(q[0], mid) {
        assert q[1..] == [] && q == [q[0]];
      } else {
        var params' := exact.params[ParamName(q[0]) := mid];
        var l := Find(c, rest, params', exact.matchPath);
        FoundPrecedes(c, rest, q[1..], params', exact.matchPath);
        FoundFits(c, rest, params', exact.matchPath);
        UnderPath(q[0], l);
      }
    }
  }

  lemma {:induction false} FoundIsFirst<H>(n: Node<H>, parts: seq<Part>, params: map<string, string>, matchPath: string)
    requires WellFormed(n)
    ensures var l := Find(n, parts, params, matchPath);
            if l.path.Some? then IsFirst(n, l.path.value, parts)
            else forall q :: !(Fits(n, parts, q) && ByFirst(n, parts, q))
  {
    hide *;
    var l := Find(n, parts, params, matchPath);
    FoundFits(n, parts, params, matchPath);
    forall q | Fits(n, parts, q) && ByFirst(n, parts, q)
      ensures l.path.Some? && (q == l.path.value || Precedes(n, l.path.value, q, parts))
    {
      FoundPrecedes(n, parts, q, params, matchPath);
    }
    if l.path.Some? { FirstIs(n, l.path.value, parts); }
  }

  lemma {:induction false} FirstIs<H>(n: Node<H>, path: seq<string>, parts: seq<Part>)
    requires Fits(n, parts, path) && ByFirst(n, parts, path)
    requires forall q :: Fits(n, parts, q) && ByFirst(n, parts, q) ==> q == path || Precedes(n, path, q, parts)
    ensures IsFirst(n, path, parts)
  {
    hide Fits;
    hide ByFirst;
    hide Precedes;
  }

  /** The path ends in a star that takes the rest of the request, and not in that star's own name. */
  predicate EndsInStar<H>(n: Node<H>, path: seq<string>, parts: seq<Part>)
    decreases |path|
  {
    path != [] && parts != [] &&
    var i := IndexOf(n.children, path[0]);
    i < |n.children| &&
    (if |path| > 1 then EndsInStar(n.children[i].node, path[1..], parts[1..])
     else StarFits(path[0], parts[0].mid) && !(path[0] == parts[0].mid && Fits(n.children[i].node, parts[1..], [])))
  }

  lemma {:induction false} StarInside<H>(n: Node<H>, path: seq<string>, parts: seq<Part>)
    requires EndsInStar(n, path, parts)
    ensures 0 < |path| <= |parts|
    decreases |path|
  {
    if |path| > 1 {
      StarInside(n.children[IndexOf(n.children, path[0])].node, path[1..], parts[1..]);
    }
  }

  lemma {:induction false} NotFoundKeepsMatch<H>(n: Node<H>, parts: seq<Part>, params: map<string, string>,
                                                 matchPath: string)
    ensures var l := Find(n, parts, params, matchPath); l.path.None? ==> l.matchPath == matchPath
    decreases |parts|
  {
    if n.children != [] && parts != [] {
      var mid := parts[0].mid;
      var e, w := IndexOf(n.children, mid), FirstWild(n.children, mid);
      var exact := FindExact(n, parts, params, matchPath);
      if e < |n.children| { NotFoundKeepsMatch(n.children[e].node, parts[1..], params, matchPath); }
      if w < |n.children| && !StarFits(n.children[w].key, mid) {
        var params' := exact.params[ParamName(n.children[w].key) := mid];
        NotFoundKeepsMatch(n.children[w].node, parts[1..], params', exact.matchPath);
      }
    }
  }

  /** The match path is the request from the part that the star takes to its end, and is empty without one. */
  lemma {:induction false} FoundMatch<H>(n: Node<H>, parts: seq<Part>, params: map<string, string>, matchPath: string)
    requires WellFormed(n)
    ensures var l := Find(n, parts, params, matchPath);
            l.path.Some? ==>
              var k := |l.path.value| - 1;
              if EndsInStar(n, l.path.value, parts) then 0 <= k < |parts| && l.matchPath == parts[k].mid + parts[k].tail
              else l.matchPath == matchPath
    decreases |parts|
  {
    hide Fits;
    if n.children != [] && parts != [] {
      var mid := parts[0].mid;
      var e, w := IndexOf(n.children, mid), FirstWild(n.children, mid);
      var exact := FindExact(n, parts, params, matchPath);
      if exact.path.Some? {
        ExactMatch(n, parts, params, matchPath);
      } else if w < |n.children| {
        if e < |n.children| { NotFoundKeepsMatch(n.children[e].node, parts[1..], params, matchPath); }
        WildMatch(n, parts, exact.params, matchPath, params);
      }
    }
  }

  lemma {:induction false} OneLonger(key: string, path: seq<string>)
    ensures var p := [key] + path; p[0] == key && p[1..] == path && |p| == |path| + 1
  {
  }

  lemma {:induction false} ExactMatch<H>(n: Node<H>, parts: seq<Part>, params: map<string, string>, matchPath: string)
    requires WellFormed(n) && n.children != [] && parts != [] && FindExact(n, parts, params, matchPath).path.Some?
    ensures var l := FindExact(n, parts, params, matchPath);
            var k := |l.path.value| - 1;
            if EndsInStar(n, l.path.value, parts) then 0 <= k < |parts| && l.matchPath == parts[k].mid + parts[k].tail
            else l.matchPath == matchPath
    decreases |parts|, 0
  {
    hide Find;
    hide Fits;
    var mid, e := parts[0].mid, IndexOf(n.children, parts[0].mid);
    var c := n.children[e].node;
    var l := Find(c, parts[1..], params, matchPath);
    FoundMatch(c, parts[1..], params, matchPath);
    FoundFits(c, parts[1..], params, matchPath);
    OneLonger(mid, l.path.value);
    if EndsInStar(c, l.path.value, parts[1..]) { StarInside(c, l.path.value, parts[1..]); }
    NoStarAtEnd(c, l.path.value, parts[1..]);
  }

  lemma {:induction false} NoStarAtEnd<H>(n: Node<H>, path: seq<string>, parts: seq<Part>)
    ensures path == [] ==> !EndsInStar(n, path, parts)
  {
  }

  lemma {:induction false} WildMatch<H>(n: Node<H>, parts: seq<Part>, params: map<string, string>, matchPath: string,
                                        before: map<string, string>)
    requires WellFormed(n) && parts != [] && FirstWild(n.children, parts[0].mid) < |n.children|
    requires FindExact(n, parts, before, matchPath).path.None? && n.children != []
    ensures var l := FindWild(n, parts, params, matchPath);
            l.path.Some? ==>
              var k := |l.path.value| - 1;
              if EndsInStar(n, l.path.value, parts) then 0 <= k < |parts| && l.matchPath == parts[k].mid + parts[k].tail
              else l.matchPath == matchPath
    decreases |parts|, 0
  {
    hide Find;
    hide Fits;
    hide IsStar;
    hide IsParam;
    var mid, w := parts[0].mid, FirstWild(n.children, parts[0].mid);
    var key, c := n.children[w].key, n.children[w].node;
    OwnIndex(n.children, w);
    if StarFits(key, mid) {
      if key == mid && Fits(c, parts[1..], []) {
        FittingIsFound(c, parts[1..], [], before, matchPath);
        assert false;
      }
    } else {
      var params' := params[ParamName(key) := mid];
      var l := Find(c, parts[1..], params', matchPath);
      FoundMatch(c, parts[1..], params', matchPath);
      if l.path.Some? {
        OneLonger(key, l.path.value);
        if EndsInStar(c, l.path.value, parts[1..]) { StarInside(c, l.path.value, parts[1..]); }
        NoStarAtEnd(c, l.path.value, parts[1..]);
      }
    }
  }

  // ---- the handler that is run

  /** The first registration of these keys for this verb, if any. */
  function FirstOf<H>(rs: seq<Registration<H>>, keys: seq<string>, verb: Verb): (i: nat)
    ensures i <= |rs| && (i < |rs| ==> KeysOf(rs[i].route) == keys && rs[i].verb == verb)
    ensures forall k :: 0 <= k < i ==> !(KeysOf(rs[k].route) == keys && rs[k].verb == verb)
  {
    if rs == [] || (KeysOf(rs[0].route) == keys && rs[0].verb == verb) then 0 else 1 + FirstOf(rs[1..], keys, verb)
  }

  /** The last registration of these keys that is not refused: the first for its verb. */
  predicate LastAccepted<H>(rs: seq<Registration<H>>, keys: seq<string>, j: nat) {
    && j < |rs| && FirstOf(rs, keys, rs[j].verb) == j
    && forall k :: j < k < |rs| ==> FirstOf(rs, keys, rs[k].verb) != k
  }

  lemma {:induction false} FirstOfStep<H>(rs: seq<Registration<H>>, keys: seq<string>, verb: Verb)
    requires rs != []
    ensures var before, last := rs[..|rs| - 1], rs[|rs| - 1];
            var i := FirstOf(before, keys, verb);
            FirstOf(rs, keys, verb) == if i < |before| || (KeysOf(last.route) == keys && last.verb == verb) then i
                                       else |rs|
  {
    hide FirstOf;
    hide KeysOf;
    var before := rs[..|rs| - 1];
    assert forall k :: 0 <= k < |before| ==> before[k] == rs[k];
    var i, j := FirstOf(before, keys, verb), FirstOf(rs, keys, verb);
  }

  lemma {:induction false} LastAcceptedStep<H>(rs: seq<Registration<H>>, keys: seq<string>, j: nat)
    requires rs != [] && LastAccepted(rs, keys, j) && j < |rs| - 1
    ensures LastAccepted(rs[..|rs| - 1], keys, j)
    ensures var last := rs[|rs| - 1]; KeysOf(last.route) == keys ==> FirstOf(rs[..|rs| - 1], keys, last.verb) < |rs| - 1
  {
    hide FirstOf;
    hide KeysOf;
    var before := rs[..|rs| - 1];
    forall k | 0 <= k < |before|
      ensures before[k] == rs[k] && (FirstOf(before, keys, before[k].verb) == k <==> FirstOf(rs, keys, rs[k].verb) == k)
    {
      assert before[k] == rs[k];
      FirstOfStep(rs, keys, rs[k].verb);
    }
    FirstOfStep(rs, keys, rs[|rs| - 1].verb);
  }

  /** Each verb of a route's node has the handler registered first for it; the path and the queue are those of the last
      registration that was not refused. */
  lemma {:induction false} HandlerIs<H>(rs: seq<Registration<H>>, keys: seq<string>, verb: Verb)
    requires keys != ["/"]
    ensures var vh, i := Registered(rs, keys), FirstOf(rs, keys, verb);
            (verb in vh.verbs <==> i < |rs|) && (i < |rs| ==> vh.verbs[verb] == rs[i].handler)
    decreases |rs|
  {
    hide KeysOf;
    hide FirstOf;
    hide Known;
    if rs != [] {
      var before, last := rs[..|rs| - 1], rs[|rs| - 1];
      FirstOfStep(rs, keys, verb);
      SlashKeys(last.route);
      HandlerIs(before, keys, verb);
      HandlerIs(before, keys, last.verb);
    }
  }

  lemma {:induction false} SlashKeys(route: string)
    ensures route == "/" ==> KeysOf(route) == ["/"]
  {
  }

  lemma {:induction false} HandlerPathIs<H>(rs: seq<Registration<H>>, keys: seq<string>, j: nat)
    requires keys != ["/"] && LastAccepted(rs, keys, j)
    ensures Registered(rs, keys).path == rs[j].route && Registered(rs, keys).queue == rs[j].queue
    decreases |rs|
  {
    hide KeysOf;
    hide FirstOf;
    hide Known;
    hide LastAccepted;
    LastIsIn(rs, keys, j);
    var before, last := rs[..|rs| - 1], rs[|rs| - 1];
    SlashKeys(last.route);
    HandlerIs(before, keys, last.verb);
    if j == |before| {
      FirstOfStep(rs, keys, last.verb);
    } else {
      LastAcceptedStep(rs, keys, j);
      HandlerPathIs(before, keys, j);
      assert before[j] == rs[j];
    }
  }

  lemma {:induction false} LastIsIn<H>(rs: seq<Registration<H>>, keys: seq<string>, j: nat)
    requires LastAccepted(rs, keys, j)
    ensures j < |rs| && FirstOf(rs, keys, rs[j].verb) == j && KeysOf(rs[j].route) == keys
  {
    hide KeysOf;
  }

  lemma {:induction false} SomeAccepted<H>(rs: seq<Registration<H>>, keys: seq<string>, verb: Verb)
    requires FirstOf(rs, keys, verb) < |rs|
    ensures exists j: nat :: LastAccepted(rs, keys, j)
    decreases |rs|
  {
    hide KeysOf;
    hide FirstOf;
    var before, last := rs[..|rs| - 1], rs[|rs| - 1];
    FirstOfStep(rs, keys, verb);
    FirstOfStep(rs, keys, last.verb);
    if FirstOf(rs, keys, last.verb) == |before| {
      assert LastAccepted(rs, keys, |before|);
    } else {
      SomeAccepted(before, keys, verb);
      var j: nat :| LastAccepted(before, keys, j);
      AcceptedLater(rs, keys, j);
    }
  }

  lemma {:induction false} AcceptedLater<H>(rs: seq<Registration<H>>, keys: seq<string>, j: nat)
    requires rs != [] && LastAccepted(rs[..|rs| - 1], keys, j) && FirstOf(rs, keys, rs[|rs| - 1].verb) != |rs| - 1
    ensures LastAccepted(rs, keys, j)
  {
    hide KeysOf;
    hide FirstOf;
    var before := rs[..|rs| - 1];
    forall k | 0 <= k < |before|
      ensures before[k] == rs[k] && (FirstOf(before, keys, before[k].verb) == k <==> FirstOf(rs, keys, rs[k].verb) == k)
    {
      assert before[k] == rs[k];
      FirstOfStep(rs, keys, rs[k].verb);
    }
  }

  // ---- what a request is served with

  /** The handler of the verb, or that of ANY, with the path of the route; or the verb is not implemented. */
  ghost predicate Answers<H>(r: Response<H>, rs: seq<Registration<H>>, keys: seq<string>, verb: Verb) {
    var i, any := FirstOf(rs, keys, verb), FirstOf(rs, keys, ANY);
    if i == |rs| && any == |rs| then r == VerbNotImplemented
    else
      && r.Served? && r.handler == rs[if i < |rs| then i else any].handler
      && exists j: nat :: LastAccepted(rs, keys, j) && r.fullPath == rs[j].route
  }

  /** Each parameter of the path is bound to its own part. */
  ghost predicate Binding(path: seq<string>, mids: seq<string>, params: map<string, string>) {
    forall k, before, name, after ::
      0 <= k < |path| && k < |mids| && Braced(path[k], before, name, after) && path[k] != mids[k] ==>
        name in params && params[name] == mids[k]
  }

  lemma {:induction false} BoundAt(path: seq<string>, parts: seq<Part>, params: map<string, string>, k: nat)
    requires Bound(path, parts, params) && k < |path| && k < |parts|
    requires IsParam(path[k]) && path[k] != parts[k].mid
    ensures ParamName(path[k]) in params && params[ParamName(path[k])] == parts[k].mid
    decreases k
  {
    hide IsParam;
    hide ParamName;
    if k > 0 { BoundAt(path[1..], parts[1..], params, k - 1); }
  }

  lemma {:induction false} BoundIsBinding(path: seq<string>, parts: seq<Part>, params: map<string, string>)
    requires Bound(path, parts, params)
    ensures Binding(path, Mids(parts), params)
  {
    hide Bound;
    hide Braced;
    forall k, before, name, after |
      0 <= k < |path| && k < |parts| && Braced(path[k], before, name, after) && path[k] != parts[k].mid
      ensures name in params && params[name] == parts[k].mid
    {
      BracedIsParam(path[k], before, name, after);
      BoundAt(path, parts, params, k);
    }
  }

  /** The request is served by the first path that fits it: with its handler, its parameters if no name is bound again
      below it, and, if it ends in a star, the request's text from that part to its end. */
  ghost predicate ServedAlong<H>(r: Response<H>, rs: seq<Registration<H>>, verb: Verb, request: string,
                                 path: seq<string>)
  {
    var n, parts := Build(rs), Parts(Stripped(request), request, 0);
    && IsFirst(n, path, parts) && Answers(r, rs, path, verb)
    && (r.Served? && NoReuse(n) ==> Binding(path, Mids(parts), r.params))
    && (r.Served? ==>
          if EndsInStar(n, path, parts) then
            0 < |path| <= |parts| && Rooted(request) == TextOf(Mids(parts)[..|path| - 1]) + "/" + r.matchPath
          else r.matchPath == "")
  }

  /** "/" is served by its first registration alone. */
  ghost predicate SlashAnswers<H>(r: Response<H>, first: Registration<H>, verb: Verb) {
    r == if first.verb == verb || first.verb == ANY then Served(first.handler, "/", map[], "") else VerbNotImplemented
  }

  lemma {:induction false} TextJoin(a: seq<string>, b: seq<string>)
    ensures TextOf(a + b) == TextOf(a) + TextOf(b)
  {
    if a == [] {
      assert a + b == b;
    } else {
      assert (a + b)[1..] == a[1..] + b;
      TextJoin(a[1..], b);
    }
  }

  lemma {:induction false} StrippedIs(request: string)
    ensures var route := Stripped(request); route <= request && (route == "" ==> request == "")
  {
  }

  lemma {:induction false} RootedMore(route: string, request: string)
    requires route <= request && (route == "" ==> request == "")
    ensures Rooted(request) == Rooted(route) + request[|route|..]
  {
  }

  /** The rest of a request from one of its parts on. */
  lemma {:induction false} RestOfRequest(request: string, k: nat)
    requires k < |Parts(Stripped(request), request, 0)|
    ensures var parts := Parts(Stripped(request), request, 0);
            Rooted(request) == TextOf(Mids(parts)[..k]) + "/" + (parts[k].mid + parts[k].tail)
  {
    hide *;
    var route := Stripped(request);
    StrippedIs(request);
    var parts := Parts(route, request, 0);
    var mids, more := Mids(parts), request[|route|..];
    PartsAreText(route, request, 0);
    assert route[0..] == route;
    RootedMore(route, request);
    MidAt(parts, k);
    assert mids == mids[..k] + ([mids[k]] + mids[k + 1..]);
    TextJoin(mids[..k], [mids[k]] + mids[k + 1..]);
    TextStep(mids[k], mids[k + 1..]);
    Regroup(TextOf(mids[..k]), "/", mids[k], TextOf(mids[k + 1..]), more);
  }

  lemma {:induction false} MidAt(parts: seq<Part>, k: nat)
    requires k < |parts|
    ensures Mids(parts)[k] == parts[k].mid
  {
  }

  lemma {:induction false} Regroup(a: string, b: string, c: string, d: string, e: string)
    ensures (a + (b + c + d)) + e == a + b + (c + (d + e))
  {
  }

  lemma {:induction false} NoSlashPath<H>(n: Node<H>, parts: seq<Part>, path: seq<string>)
    requires Fits(n, parts, path) && forall i :: 0 <= i < |parts| ==> '/' !in parts[i].mid
    ensures path != ["/"]
  {
    assert "/"[0] == '/' && !IsStar("/") && !IsParam("/");
  }

  lemma {:induction false} HandlersAnswer<H>(rs: seq<Registration<H>>, keys: seq<string>, verb: Verb, r: Response<H>,
                                             l: Lookup)
    requires keys != ["/"]
    requires var vh := Registered(rs, keys);
             r == if verb in vh.verbs then Served(vh.verbs[verb], vh.path, l.params, l.matchPath)
                  else if ANY in vh.verbs then Served(vh.verbs[ANY], vh.path, l.params, l.matchPath)
                  else VerbNotImplemented
    ensures Answers(r, rs, keys, verb)
  {
    hide Registered;
    hide FirstOf;
    hide KeysOf;
    hide LastAccepted;
    HandlerIs(rs, keys, verb);
    HandlerIs(rs, keys, ANY);
    if r.Served? {
      SomeAccepted(rs, keys, if FirstOf(rs, keys, verb) < |rs| then verb else ANY);
      var j: nat :| LastAccepted(rs, keys, j);
      HandlerPathIs(rs, keys, j);
    }
  }

  lemma {:induction false} ServeByLookup<H>(n: Node<H>, verb: Verb, request: string)
    ensures var l, r := FindRoute(n, Stripped(request), request), Serve(n, verb, request);
            if l.path.None? then r == RouteNotFound
            else var vh := HandlerAt(n, l.path.value);
                 r == if verb in vh.verbs then Served(vh.verbs[verb], vh.path, l.params, l.matchPath)
                      else if ANY in vh.verbs then Served(vh.verbs[ANY], vh.path, l.params, l.matchPath)
                      else VerbNotImplemented
  {
    hide FindRoute;
    hide HandlerAt;
  }

  lemma {:induction false} AnsweredIsServed<H>(rs: seq<Registration<H>>, keys: seq<string>, verb: Verb, r: Response<H>)
    requires Answers(r, rs, keys, verb)
    ensures r != RouteNotFound
  {
    hide FirstOf;
    hide LastAccepted;
  }

  lemma {:induction false} SlashIsAnswered<H>(rs: seq<Registration<H>>, verb: Verb, request: string)
    requires Stripped(request) == "/" && FirstSlash(rs) < |rs|
    ensures SlashAnswers(Serve(Build(rs), verb, request), rs[FirstSlash(rs)], verb)
  {
    hide Build;
    hide Registered;
    hide FindRoute;
    hide FirstSlash;
    SlashIsFound(rs, Stripped(request), request);
    TrieIsRegistered(rs, ["/"]);
    SlashRegistered(rs);
    ServeByLookup(Build(rs), verb, request);
  }

  lemma {:induction false} LookupServes<H>(rs: seq<Registration<H>>, verb: Verb, request: string)
    requires Stripped(request) == "/" ==> FirstSlash(rs) == |rs|
    requires FindRoute(Build(rs), Stripped(request), request).path.Some?
    ensures var path := FindRoute(Build(rs), Stripped(request), request).path.value;
            ServedAlong(Serve(Build(rs), verb, request), rs, verb, request, path)
  {
    hide *;
    var n, route := Build(rs), Stripped(request);
    StrippedIs(request);
    var parts, l := Parts(route, request, 0), FindRoute(n, route, request);
    var path, r := l.path.value, Serve(n, verb, request);
    SlashIsFound(rs, route, request);
    TrieIsRegistered(rs, path);
    FoundIsFirst(n, parts, map[], "");
    FoundFits(n, parts, map[], "");
    PartsAreText(route, request, 0);
    NoSlashPath(n, parts, path);
    ServeByLookup(n, verb, request);
    HandlersAnswer(rs, path, verb, r, l);
    if NoReuse(n) {
      FoundIsBound(n, parts, map[], "");
      BoundIsBinding(path, parts, l.params);
    }
    FoundMatch(n, parts, map[], "");
    if EndsInStar(n, path, parts) {
      StarInside(n, path, parts);
      RestOfRequest(request, |path| - 1);
    }
    AlongIs(r, rs, verb, request, path);
  }

  lemma {:induction false} AlongIs<H>(r: Response<H>, rs: seq<Registration<H>>, verb: Verb, request: string,
                                      path: seq<string>)
    requires var n, parts := Build(rs), Parts(Stripped(request), request, 0);
             && IsFirst(n, path, parts) && Answers(r, rs, path, verb)
             && (r.Served? && NoReuse(n) ==> Binding(path, Mids(parts), r.params))
             && (r.Served? ==>
                   if EndsInStar(n, path, parts) then
                     0 < |path| <= |parts| && Rooted(request) == TextOf(Mids(parts)[..|path| - 1]) + "/" + r.matchPath
                   else r.matchPath == "")
    ensures ServedAlong(r, rs, verb, request, path)
  {
    hide Build;
    hide Parts;
    hide IsFirst;
    hide Answers;
    hide NoReuse;
    hide Binding;
    hide EndsInStar;
    hide TextOf;
  }

  /** Whatever was registered: "/" is served by its first registration; any other request is served along the first
      path that fits it, and is not found exactly when none does. */
  lemma {:induction false} RequestIsServed<H>(rs: seq<Registration<H>>, verb: Verb, request: string)
    ensures var n, r := Build(rs), Serve(Build(rs), verb, request);
            var parts := Parts(Stripped(request), request, 0);
            if Stripped(request) == "/" && FirstSlash(rs) < |rs| then SlashAnswers(r, rs[FirstSlash(rs)], verb)
            else
              && (r == RouteNotFound <==> !exists path :: Fits(n, parts, path) && ByFirst(n, parts, path))
              && (r != RouteNotFound ==> exists path :: ServedAlong(r, rs, verb, request, path))
  {
    hide *;
    var n, route := Build(rs), Stripped(request);
    StrippedIs(request);
    var parts, l := Parts(route, request, 0), FindRoute(n, route, request);
    if route == "/" && FirstSlash(rs) < |rs| {
      SlashIsAnswered(rs, verb, request);
    } else {
      SlashIsFound(rs, route, request);
      TrieIsRegistered(rs, []);
      FoundIsFirst(n, parts, map[], "");
      ServeByLookup(n, verb, request);
      FirstSlashIn(rs);
      if l.path.Some? {
        LookupServes(rs, verb, request);
        AlongAnswers(Serve(n, verb, request), rs, verb, request, l.path.value);
      }
    }
  }

  lemma {:induction false} FirstSlashIn<H>(rs: seq<Registration<H>>)
    ensures FirstSlash(rs) <= |rs|
  {
  }

  lemma {:induction false} AlongAnswers<H>(r: Response<H>, rs: seq<Registration<H>>, verb: Verb, request: string,
                                           path: seq<string>)
    requires ServedAlong(r, rs, verb, request, path)
    ensures var parts := Parts(Stripped(request), request, 0);
            r != RouteNotFound && Fits(Build(rs), parts, path) && ByFirst(Build(rs), parts, path)
  {
    hide Build;
    hide Parts;
    hide Answers;
    hide NoReuse;
    hide Binding;
    hide EndsInStar;
    hide TextOf;
    hide Fits;
    hide ByFirst;
    AnsweredIsServed(rs, path, verb, r);
  }
}
