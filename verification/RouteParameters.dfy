/** When the parameters that a lookup comes with are those of the path it found. */
module RouteParameters {
  import opened Bytes
  import opened RouteTree
  import opened RouteLookup
  import opened RouteBuild
  import opened BlueprintMount

  /** Some part of a request follows this child as a parameter: no "*" and no other parameter stands before it. */
  predicate Followable<H>(children: seq<Child<H>>, i: nat)
    requires i < |children|
  {
    IsParam(children[i].key) && forall k :: 0 <= k < i ==> children[k].key != "*" && !IsParam(children[k].key)
  }

  /** Some child below, at any depth, can be followed and binds this name. */
  predicate Binds<H>(n: Node<H>, name: string) {
    exists i :: 0 <= i < |n.children| &&
                ((Followable(n.children, i) && ParamName(n.children[i].key) == name) || Binds(n.children[i].node, name))
  }

  /** No name of a parameter that can be followed is bound again below it. */
  predicate NoReuse<H>(n: Node<H>) {
    forall i :: 0 <= i < |n.children| ==>
                  (Followable(n.children, i) ==> !Binds(n.children[i].node, ParamName(n.children[i].key)))
                  && NoReuse(n.children[i].node)
  }

  lemma {:induction false} FollowedIsFollowable<H>(children: seq<Child<H>>, mid: string)
    ensures var w := FirstWild(children, mid);
            w < |children| && !StarFits(children[w].key, mid) ==> Followable(children, w)
  {
    hide FirstWild;
    hide IsParam;
    var w := FirstWild(children, mid);
    forall k | 0 <= k < w ensures children[k].key != "*" && !IsParam(children[k].key) {
      assert !WildFits(children[k].key, mid);
      assert "*"[..0] == "";
    }
  }

  predicate SameAt(a: map<string, string>, b: map<string, string>, name: string) {
    (name in a <==> name in b) && (name in a ==> a[name] == b[name])
  }

  lemma {:induction false} OnlyItsNames<H>(n: Node<H>, parts: seq<Part>, params: map<string, string>,
                                           matchPath: string, name: string)
    requires !Binds(n, name)
    ensures SameAt(Find(n, parts, params, matchPath).params, params, name)
    decreases |parts|
  {
    if n.children != [] && parts != [] {
      var mid := parts[0].mid;
      var e, w := IndexOf(n.children, mid), FirstWild(n.children, mid);
      var exact := FindExact(n, parts, params, matchPath);
      if e < |n.children| {
        OnlyItsNames(n.children[e].node, parts[1..], params, matchPath, name);
      }
      if w < |n.children| && !StarFits(n.children[w].key, mid) {
        FollowedIsFollowable(n.children, mid);
        var params' := exact.params[ParamName(n.children[w].key) := mid];
        OnlyItsNames(n.children[w].node, parts[1..], params', exact.matchPath, name);
      }
    }
  }

  /** Every parameter on the path is bound to its part of the request. */
  predicate Bound(path: seq<string>, parts: seq<Part>, params: map<string, string>)
    decreases |path|
  {
    path == [] || parts == [] ||
    (&& (IsParam(path[0]) && path[0] != parts[0].mid ==>
           ParamName(path[0]) in params && params[ParamName(path[0])] == parts[0].mid)
     && Bound(path[1..], parts[1..], params))
  }

  /** If no name is used again below it, what is found comes with its parameters, whatever was given up before. */
  lemma {:induction false} FoundIsBound<H>(n: Node<H>, parts: seq<Part>, params: map<string, string>, matchPath: string)
    requires NoReuse(n)
    ensures var l := Find(n, parts, params, matchPath);
            l.path.Some? ==> Bound(l.path.value, parts, l.params)
    decreases |parts|
  {
    if n.children != [] && parts != [] {
      var mid := parts[0].mid;
      var e, w := IndexOf(n.children, mid), FirstWild(n.children, mid);
      var exact := FindExact(n, parts, params, matchPath);
      if e < |n.children| {
        FoundIsBound(n.children[e].node, parts[1..], params, matchPath);
        UnderPath(mid, Find(n.children[e].node, parts[1..], params, matchPath));
      }
      if exact.path.None? && w < |n.children| && !StarFits(n.children[w].key, mid) {
        FollowedIsFollowable(n.children, mid);
        var key := n.children[w].key;
        var params' := exact.params[ParamName(key) := mid];
        FoundIsBound(n.children[w].node, parts[1..], params', exact.matchPath);
        OnlyItsNames(n.children[w].node, parts[1..], params', exact.matchPath, ParamName(key));
        UnderPath(key, Find(n.children[w].node, parts[1..], params', exact.matchPath));
      }
    }
  }

  // ---- a request that is misbound, where a name is bound again

  /** A part of a request, and the key of the child that it takes. */
  datatype Hop = Hop(mid: string, key: string)

  predicate NameOrTildes(hop: Hop) { hop.mid == hop.key || forall i :: 0 <= i < |hop.mid| ==> hop.mid[i] == '~' }

  function HopMids(hops: seq<Hop>): (r: seq<string>)
    ensures |r| == |hops|
  {
    seq(|hops|, i requires 0 <= i < |hops| => hops[i].mid)
  }

  function HopKeys(hops: seq<Hop>): (r: seq<string>)
    ensures |r| == |hops|
  {
    seq(|hops|, i requires 0 <= i < |hops| => hops[i].key)
  }

  function Longest<H>(children: seq<Child<H>>): (n: nat)
    ensures forall i :: 0 <= i < |children| ==> |children[i].key| <= n
  {
    if children == [] then 0 else
      var n := Longest(children[1..]);
      if |children[0].key| > n then |children[0].key| else n
  }

  /** A part that no child is named by, and no pattern before a parameter fits: the tilde comes after the brace. */
  function Fresh<H>(children: seq<Child<H>>, other: string): (mid: string)
    ensures mid != other && mid != "" && forall i :: 0 <= i < |mid| ==> mid[i] == '~'
  {
    seq(Longest(children) + |other| + 1, _ => '~')
  }

  lemma {:induction false} NoStarBefore(key: string, mid: string)
    requires key == "" || key[0] <= '{'
    requires key != "*" && mid != "" && mid[0] == '~'
    ensures !StarFits(key, mid)
  {
    if |key| == 1 {
      assert key == [key[0]];
    } else if |key| > 1 {
      assert key[..|key| - 1][0] == key[0];
    }
  }

  lemma {:induction false} FreshIsFollowed<H>(children: seq<Child<H>>, i: nat, other: string)
    requires Sorted(children) && i < |children| && Followable(children, i)
    ensures var mid := Fresh(children, other);
            IndexOf(children, mid) == |children| && FirstWild(children, mid) == i && !IsStar(children[i].key)
                && mid != children[i].key
  {
    hide IndexOf;
    hide FirstWild;
    var mid := Fresh(children, other);
    assert |mid| > Longest(children);
    forall k | 0 <= k < i ensures !WildFits(children[k].key, mid) {
      assert Less(children[k].key, children[i].key);
      NoStarBefore(children[k].key, mid);
    }
    var w := FirstWild(children, mid);
    assert WildFits(children[i].key, mid);
  }

  /** Down to a leaf by the nodes' own names. */
  function OwnHops<H>(n: Node<H>): (hops: seq<Hop>)
    ensures forall k :: 0 <= k < |hops| ==> NameOrTildes(hops[k])
  {
    if n.children == [] then [] else
      [Hop(n.children[0].key, n.children[0].key)] + OwnHops(n.children[0].node)
  }

  lemma {:induction false} OwnHopsEnd<H>(n: Node<H>)
    ensures HopMids(OwnHops(n)) == HopKeys(OwnHops(n))
    ensures At(n, HopKeys(OwnHops(n))).Some? && At(n, HopKeys(OwnHops(n))).value.children == []
  {
    if n.children != [] {
      OwnHopsEnd(n.children[0].node);
      HopsStep(Hop(n.children[0].key, n.children[0].key), OwnHops(n.children[0].node));
    }
  }

  lemma {:induction false} HopsStep(hop: Hop, rest: seq<Hop>)
    ensures HopMids([hop] + rest) == [hop.mid] + HopMids(rest) && HopMids([hop] + rest)[1..] == HopMids(rest)
    ensures HopKeys([hop] + rest) == [hop.key] + HopKeys(rest) && HopKeys([hop] + rest)[1..] == HopKeys(rest)
  {
  }

  ghost function BindingChild<H>(n: Node<H>, name: string): (i: nat)
    requires Binds(n, name)
    ensures i < |n.children|
    ensures (Followable(n.children, i) && ParamName(n.children[i].key) == name) || Binds(n.children[i].node, name)
  {
    var i: nat :| i < |n.children| &&
                  ((Followable(n.children, i) && ParamName(n.children[i].key) == name)
                      || Binds(n.children[i].node, name));
    i
  }

  /** Own names down to a parameter of this name, a part other than `other` for it, and own names to a leaf. */
  ghost function BindingHops<H>(n: Node<H>, name: string, other: string): (hops: seq<Hop>)
    requires Binds(n, name)
    ensures |hops| >= 1 && forall k :: 0 <= k < |hops| ==> NameOrTildes(hops[k])
  {
    var i := BindingChild(n, name);
    var c := n.children[i];
    if Followable(n.children, i) && ParamName(c.key) == name then
      [Hop(Fresh(n.children, other), c.key)] + OwnHops(c.node)
    else [Hop(c.key, c.key)] + BindingHops(c.node, name, other)
  }

  predicate Reused<H>(n: Node<H>, i: nat)
    requires i < |n.children|
  {
    Followable(n.children, i) && Binds(n.children[i].node, ParamName(n.children[i].key))
  }

  ghost function ReusingChild<H>(n: Node<H>): (i: nat)
    requires !NoReuse(n)
    ensures i < |n.children| && (Reused(n, i) || !NoReuse(n.children[i].node))
  {
    var i: nat :| i < |n.children| && (Reused(n, i) || !NoReuse(n.children[i].node));
    i
  }

  /** Own names down to a parameter whose name is bound again below it, a part for it, and then another part
      for the name. */
  ghost function MisboundHops<H>(n: Node<H>): (hops: seq<Hop>)
    requires !NoReuse(n)
    ensures |hops| >= 2 && forall k :: 0 <= k < |hops| ==> NameOrTildes(hops[k])
  {
    var i := ReusingChild(n);
    var c := n.children[i];
    if Reused(n, i) then
      var mid := Fresh(n.children, "");
      [Hop(mid, c.key)] + BindingHops(c.node, ParamName(c.key), mid)
    else [Hop(c.key, c.key)] + MisboundHops(c.node)
  }

  lemma {:induction false} MidsSplit(parts: seq<Part>, hop: Hop, rest: seq<Hop>)
    requires Mids(parts) == HopMids([hop] + rest)
    ensures parts != [] && parts[0].mid == hop.mid && Mids(parts[1..]) == HopMids(rest)
  {
    HopsStep(hop, rest);
    assert Mids(parts)[0] == hop.mid;
    assert Mids(parts)[1..] == Mids(parts[1..]);
  }

  lemma {:induction false} ExactStep<H>(n: Node<H>, parts: seq<Part>, params: map<string, string>, matchPath: string,
                                        path: seq<string>)
    requires parts != [] && path != [] && path[0] == parts[0].mid && Has(n.children, path[0])
    requires Find(n.children[IndexOf(n.children, path[0])].node, parts[1..], params, matchPath).path == Some(path[1..])
    ensures Find(n, parts, params, matchPath)
            == Find(n.children[IndexOf(n.children, path[0])].node, parts[1..], params, matchPath).(path := Some(path))
  {
    assert path == [path[0]] + path[1..];
  }

  lemma {:induction false} WildStep<H>(n: Node<H>, parts: seq<Part>, params: map<string, string>, matchPath: string,
                                       w: nat, path: seq<string>)
    requires parts != [] && path != [] && w == FirstWild(n.children, parts[0].mid) < |n.children|
             && n.children[w].key == path[0]
    requires !IsStar(path[0]) && FindExact(n, parts, params, matchPath).path.None?
    requires var exact := FindExact(n, parts, params, matchPath);
             Find(n.children[w].node, parts[1..], exact.params[ParamName(path[0]) := parts[0].mid],
                 exact.matchPath).path == Some(path[1..])
    ensures var exact := FindExact(n, parts, params, matchPath);
            Find(n, parts, params, matchPath)
            == Find(n.children[w].node, parts[1..], exact.params[ParamName(path[0]) := parts[0].mid],
                exact.matchPath).(path := Some(path))
  {
    assert path == [path[0]] + path[1..];
  }

  /** A lookup that goes by a child's own name, and finds something there. */
  lemma {:induction false} NamedHop<H>(n: Node<H>, i: nat, parts: seq<Part>, rest: seq<Hop>,
                                       params: map<string, string>, matchPath: string)
    requires WellFormed(n) && i < |n.children|
    requires Mids(parts) == HopMids([Hop(n.children[i].key, n.children[i].key)] + rest)
    requires Find(n.children[i].node, parts[1..], params, matchPath).path == Some(HopKeys(rest))
    ensures Find(n, parts, params, matchPath)
            == Find(n.children[i].node, parts[1..], params,
                matchPath).(path := Some([n.children[i].key] + HopKeys(rest)))
  {
    hide Find;
    hide WellFormed;
    OwnIndexOf(n, i);
    MidsSplit(parts, Hop(n.children[i].key, n.children[i].key), rest);
    ExactStep(n, parts, params, matchPath, [n.children[i].key] + HopKeys(rest));
  }

  lemma {:induction false} OwnIndexOf<H>(n: Node<H>, i: nat)
    requires WellFormed(n) && i < |n.children|
    ensures IndexOf(n.children, n.children[i].key) == i && WellFormed(n.children[i].node)
  {
    OwnIndex(n.children, i);
  }

  /** A lookup that follows a parameter, and finds something there. */
  lemma {:induction false} FreshHop<H>(n: Node<H>, i: nat, other: string, parts: seq<Part>, rest: seq<Hop>,
                                       params: map<string, string>,
                                       matchPath: string)
    requires WellFormed(n) && i < |n.children| && Followable(n.children, i)
    requires Mids(parts) == HopMids([Hop(Fresh(n.children, other), n.children[i].key)] + rest)
    requires Find(n.children[i].node, parts[1..], params[ParamName(n.children[i].key) := Fresh(n.children, other)],
             matchPath).path
             == Some(HopKeys(rest))
    ensures var params' := params[ParamName(n.children[i].key) := Fresh(n.children, other)];
            Find(n, parts, params, matchPath)
            == Find(n.children[i].node, parts[1..], params',
                matchPath).(path := Some([n.children[i].key] + HopKeys(rest)))
  {
    hide Find;
    hide FirstWild;
    FreshIsFollowed(n.children, i, other);
    MidsSplit(parts, Hop(Fresh(n.children, other), n.children[i].key), rest);
    assert FindExact(n, parts, params, matchPath) == Lookup(None, params, matchPath);
    WildStep(n, parts, params, matchPath, i, [n.children[i].key] + HopKeys(rest));
  }

  lemma {:induction false} BindingFinds<H>(n: Node<H>, name: string, other: string, parts: seq<Part>,
                                           params: map<string, string>,
                                           matchPath: string)
    requires WellFormed(n) && Binds(n, name) && Mids(parts) == HopMids(BindingHops(n, name, other))
    ensures var l := Find(n, parts, params, matchPath);
            l.path == Some(HopKeys(BindingHops(n, name, other))) && name in l.params && l.params[name] != other
  {
    hide Find;
    hide WellFormed;
    hide Fresh;
    var i := BindingChild(n, name);
    var c := n.children[i];
    OwnIndexOf(n, i);
    if Followable(n.children, i) && ParamName(c.key) == name {
      var mid, rest := Fresh(n.children, other), OwnHops(c.node);
      MidsSplit(parts, Hop(mid, c.key), rest);
      OwnHopsEnd(c.node);
      OwnPathIsFound(c.node, parts[1..], params[name := mid], matchPath);
      FreshHop(n, i, other, parts, rest, params, matchPath);
      HopsStep(Hop(mid, c.key), rest);
    } else {
      var rest := BindingHops(c.node, name, other);
      MidsSplit(parts, Hop(c.key, c.key), rest);
      BindingFinds(c.node, name, other, parts[1..], params, matchPath);
      NamedHop(n, i, parts, rest, params, matchPath);
      HopsStep(Hop(c.key, c.key), rest);
    }
  }

  /** That request finds its path, and comes with the wrong part for a parameter on it. */
  lemma {:induction false} MisboundFinds<H>(n: Node<H>, parts: seq<Part>, params: map<string, string>,
                                            matchPath: string)
    requires WellFormed(n) && !NoReuse(n) && Mids(parts) == HopMids(MisboundHops(n))
    ensures var l := Find(n, parts, params, matchPath);
            l.path == Some(HopKeys(MisboundHops(n))) && !Bound(l.path.value, parts, l.params)
  {
    hide Find;
    hide WellFormed;
    hide NoReuse;
    hide Binds;
    hide Fresh;
    var i := ReusingChild(n);
    var c := n.children[i];
    OwnIndexOf(n, i);
    if Reused(n, i) {
      var name, mid := ParamName(c.key), Fresh(n.children, "");
      var rest := BindingHops(c.node, name, mid);
      MidsSplit(parts, Hop(mid, c.key), rest);
      BindingFinds(c.node, name, mid, parts[1..], params[name := mid], matchPath);
      FreshHop(n, i, "", parts, rest, params, matchPath);
      assert !IsParam(mid);
      HopsStep(Hop(mid, c.key), rest);
    } else {
      var rest := MisboundHops(c.node);
      MidsSplit(parts, Hop(c.key, c.key), rest);
      MisboundFinds(c.node, parts[1..], params, matchPath);
      NamedHop(n, i, parts, rest, params, matchPath);
      HopsStep(Hop(c.key, c.key), rest);
    }
  }

  // ---- requests as text

  /** The request that has these parts. */
  function TextOf(mids: seq<string>): string {
    if mids == [] then "" else "/" + mids[0] + TextOf(mids[1..])
  }

  lemma {:induction false} TextSplit(mids: seq<string>)
    requires mids != []
    ensures var t := TextOf(mids);
            && t == "/" + mids[0] + TextOf(mids[1..]) && 1 + |mids[0]| <= |t|
            && t[0] == '/' && t[1..1 + |mids[0]|] == mids[0] && t[1 + |mids[0]|..] == TextOf(mids[1..])
            && (mids[1..] != [] ==> 1 + |mids[0]| < |t| && t[1 + |mids[0]|] == '/')
            && (mids[1..] == [] ==> 1 + |mids[0]| == |t|)
  {
    if mids[1..] != [] { assert TextOf(mids[1..])[0] == '/'; }
  }

  lemma {:induction false} TextParts(mids: seq<string>, raw: string)
    requires forall k :: 0 <= k < |mids| ==> '/' !in mids[k]
    requires |TextOf(mids)| <= |raw| && raw[..|TextOf(mids)|] == TextOf(mids)
    ensures Mids(Parts(TextOf(mids), raw, 0)) == mids
    decreases |mids|
  {
    hide TextOf;
    hide Parts;
    if mids == [] {
      NoText(raw);
    } else {
      TextSplit(mids);
      var p, t, q := TextOf(mids), "/" + mids[0], TextOf(mids[1..]);
      var e := |t|;
      assert raw == t + raw[e..];
      assert raw[e..][..|q|] == raw[e..e + |q|];
      TextParts(mids[1..], raw[e..]);
      PartsShifted(t, q, raw[e..], 0);
      assert forall k :: 1 <= k < e ==> p[k] == mids[0][k - 1];
      MidEndIs(p, 1, e);
      PartsStep(p, raw, 0, 1, e);
      MidsStep(Part(p[1..e], raw[e..]), Parts(p, raw, e));
      assert mids == [mids[0]] + mids[1..];
    }
  }

  lemma {:induction false} NoText(raw: string)
    ensures TextOf([]) == "" && Parts("", raw, 0) == []
  {
  }

  // ---- every request

  /** If the request is found, each parameter on the path found comes with the part of the request it stands for. */
  predicate WellBound<H>(n: Node<H>, request: string) {
    var route := Stripped(request);
    var l := FindRoute(n, route, request);
    l.path.Some? ==> Bound(l.path.value, Parts(route, request, 0), l.params)
  }

  /** Whatever was registered: all requests are well bound exactly when no parameter that can be followed has its
      name bound again below it. */
  lemma {:induction false} RequestsAreBound<H>(rs: seq<Registration<H>>)
    ensures (forall request :: WellBound(Build(rs), request)) <==> NoReuse(Build(rs))
  {
    hide NoReuse;
    hide WellBound;
    hide Build;
    if NoReuse(Build(rs)) {
      forall request ensures WellBound(Build(rs), request) { NoReuseBinds(rs, request); }
    } else {
      var request := ReusedIsMisbound(rs);
    }
  }

  lemma {:induction false} NoReuseBinds<H>(rs: seq<Registration<H>>, request: string)
    requires NoReuse(Build(rs))
    ensures WellBound(Build(rs), request)
  {
    hide Build;
    hide NoReuse;
    hide Find;
    hide FirstSlash;
    var route := Stripped(request);
    SlashIsFound(rs, route, request);
    FoundIsBound(Build(rs), Parts(route, request, 0), map[], "");
  }

  lemma {:induction false} HopsHaveNoSlash<H>(rs: seq<Registration<H>>, hops: seq<Hop>)
    requires !NoReuse(Build(rs)) && hops == MisboundHops(Build(rs))
    ensures forall k :: 0 <= k < |hops| ==> '/' !in HopMids(hops)[k]
  {
    hide Build;
    hide NoReuse;
    hide Find;
    hide MisboundHops;
    hide KeysOf;
    var n, keys := Build(rs), HopKeys(hops);
    var parts := seq(|hops|, i requires 0 <= i < |hops| => Part(hops[i].mid, ""));
    assert Mids(parts) == HopMids(hops);
    TrieIsRegistered(rs, keys);
    MisboundFinds(n, parts, map[], "");
    FoundFits(n, parts, map[], "");
    var i :| 0 <= i < |rs| && keys <= KeysOf(rs[i].route);
    PlainPrefix(rs[i].route, keys);
    forall k | 0 <= k < |hops| ensures '/' !in HopMids(hops)[k] {
      assert NameOrTildes(hops[k]) && hops[k].key == keys[k];
    }
  }

  lemma {:induction false} PlainPrefix(route: string, keys: seq<string>)
    requires keys <= KeysOf(route) && |keys| >= 2
    ensures forall k :: 0 <= k < |keys| ==> '/' !in keys[k]
  {
    KeysHaveNoSlash(route, 0);
  }

  lemma {:induction false} TextIsLong(mids: seq<string>)
    requires |mids| >= 2
    ensures |TextOf(mids)| >= 2
  {
    TextSplit(mids);
  }

  /** Those hops, as the text of a request. */
  lemma {:induction false} ReusedIsMisbound<H>(rs: seq<Registration<H>>) returns (request: string)
    requires !NoReuse(Build(rs))
    ensures !WellBound(Build(rs), request)
  {
    hide Build;
    hide NoReuse;
    hide Find;
    hide FirstSlash;
    hide TextOf;
    hide Bound;
    hide Parts;
    var n := Build(rs);
    TrieIsRegistered(rs, []);
    var hops := MisboundHops(n);
    var text := TextOf(HopMids(hops));
    request := text + "/";
    HopsHaveNoSlash(rs, hops);
    TextIsLong(HopMids(hops));
    TextParts(HopMids(hops), request);
    assert Stripped(request) == text;
    SlashIsFound(rs, text, request);
    MisboundFinds(n, Parts(text, request, 0), map[], "");
  }

  // ---- a name used again in a branch that is given up

  /** A single line of nodes down to a last one. */
  function Line<H>(keys: seq<string>, last: Node<H>): Node<H> {
    if keys == [] then last else Node(NoHandler(), [Child(keys[0], Line(keys[1..], last))])
  }

  lemma {:induction false} InsertedLine<H>(keys: seq<string>, update: VerbHandler<H> -> VerbHandler<H>)
    ensures Insert(Empty(), keys, update) == Line(keys, Node(update(NoHandler()), []))
  {
    if keys != [] { InsertedLine(keys[1..], update); }
  }

  lemma {:induction false} TextKeys(keys: seq<string>)
    requires keys != [] && keys[|keys| - 1] != "" && forall k :: 0 <= k < |keys| ==> '/' !in keys[k]
    ensures Keys(TextOf(keys), 0) == keys && |TextOf(keys)| >= 2
  {
    hide Keys;
    hide Parts;
    TextParts(keys, TextOf(keys));
    LastOfText(keys);
    PartsAreKeys(TextOf(keys), TextOf(keys), 0);
  }

  lemma {:induction false} LastOfText(keys: seq<string>)
    requires keys != [] && keys[|keys| - 1] != "" && '/' !in keys[|keys| - 1]
    ensures var t := TextOf(keys); |t| >= 2 && t[|t| - 1] != '/'
  {
    TextSplit(keys);
    var t, rest := TextOf(keys), TextOf(keys[1..]);
    if |keys| > 1 {
      LastOfText(keys[1..]);
      assert t[|t| - 1] == rest[|rest| - 1];
    } else {
      var k := keys[0];
      assert t == "/" + k;
      assert t[|t| - 1] == k[|k| - 1];
    }
  }

  lemma {:induction false} FourKeys(a: string, b: string, c: string, d: string)
    ensures TextOf([a, b, c, d]) == "/" + a + "/" + b + "/" + c + "/" + d
  {
    assert [a, b, c, d][1..] == [b, c, d] && [b, c, d][1..] == [c, d] && [c, d][1..] == [d];
    assert TextOf([d]) == "/" + d;
    assert TextOf([c, d]) == "/" + c + TextOf([d]);
    assert TextOf([b, c, d]) == "/" + b + TextOf([c, d]);
  }

  function RouteEnd(path: string): Node<int> { Node(VerbHandler(map[GET := 0], path, 0), []) }

  /** The trie of /{a}/x/{a}/q and /{a}/{b}/1/r. */
  function Reusing(): Node<int> {
    var first, second := Line(["{a}", "q"], RouteEnd("/{a}/x/{a}/q")), Line(["1", "r"], RouteEnd("/{a}/{b}/1/r"));
    Node(NoHandler(), [Child("{a}", Node(NoHandler(), [Child("x", first), Child("{b}", second)]))])
  }

  function ReusingRoutes(): seq<Registration<int>> {
    [Registration(GET, "/{a}/x/{a}/q", 0, 0), Registration(GET, "/{a}/{b}/1/r", 0, 0)]
  }

  lemma {:induction false} BuildLast<H>(rs: seq<Registration<H>>, last: Registration<H>)
    requires last.route != "/"
    ensures Build(rs + [last]) == Insert(Build(rs), Keys(last.route, 0), vh => Handle(vh, last))
  {
    assert (rs + [last])[..|rs|] == rs;
  }

  lemma {:induction false} ReusingKeys()
    ensures Keys("/{a}/x/{a}/q", 0) == ["{a}", "x", "{a}", "q"]
    ensures Keys("/{a}/{b}/1/r", 0) == ["{a}", "{b}", "1", "r"]
  {
    hide Keys;
    hide TextOf;
    var first, second := ["{a}", "x", "{a}", "q"], ["{a}", "{b}", "1", "r"];
    FourKeys("{a}", "x", "{a}", "q");
    FourKeys("{a}", "{b}", "1", "r");
    assert TextOf(first) == "/{a}/x/{a}/q" && TextOf(second) == "/{a}/{b}/1/r";
    TextKeys(first);
    TextKeys(second);
  }

  lemma {:induction false} ReusingIsBuilt()
    ensures Build(ReusingRoutes()) == Reusing()
  {
    hide Keys;
    hide Insert;
    hide Line;
    hide Reusing;
    var a, b := ReusingRoutes()[0], ReusingRoutes()[1];
    ReusingKeys();
    BuildLast([], a);
    BuildLast([a], b);
    InsertedLine(["{a}", "x", "{a}", "q"], vh => Handle(vh, a));
    assert [] + [a] == [a] && [a] + [b] == ReusingRoutes();
    SecondRoute(vh => Handle(vh, b));
  }

  lemma {:induction false} SecondRoute(g: VerbHandler<int> -> VerbHandler<int>)
    requires g(NoHandler()) == RouteEnd("/{a}/{b}/1/r").handler
    ensures Insert(Line(["{a}", "x", "{a}", "q"], RouteEnd("/{a}/x/{a}/q")), ["{a}", "{b}", "1", "r"], g) == Reusing()
  {
    var below := Line(["{a}", "q"], RouteEnd("/{a}/x/{a}/q"));
    InsertedLine(["1", "r"], g);
    var m: Node<int> := Node(NoHandler(), [Child("x", below)]);
    assert ["{b}", "1", "r"][1..] == ["1", "r"];
    assert m.children[1..] == [] && m.children[..1] == m.children;
    assert Less("x", "{b}") && Rank(m.children, "{b}") == 1 && IndexOf(m.children, "{b}") == 1;
    assert Insert(m, ["{b}", "1", "r"], g).children
           == [Child("x", below), Child("{b}", Line(["1", "r"], RouteEnd("/{a}/{b}/1/r")))];
    assert ["{a}", "{b}", "1", "r"][1..] == ["{b}", "1", "r"];
    assert ["{a}", "x", "{a}", "q"][1..] == ["x", "{a}", "q"] && ["x", "{a}", "q"][1..] == ["{a}", "q"];
    assert Line(["x", "{a}", "q"], RouteEnd("/{a}/x/{a}/q")) == m;
  }

  lemma {:induction false} ParamIs(key: string, name: string)
    requires key == "{" + name + "}" && |name| == 1 && name[0] != ' '
    ensures IsParam(key) && ParamName(key) == name && !IsStar(key)
  {
    assert key[1..|key| - 1] == name;
  }

  lemma {:induction false} MidsFirst(parts: seq<Part>)
    requires Mids(parts) != []
    ensures parts != [] && parts[0].mid == Mids(parts)[0] && Mids(parts[1..]) == Mids(parts)[1..]
  {
  }

  /** In x/{a}/q nothing is found for x/1/r, but `a` is bound. */
  lemma {:induction false} GivenUp(parts: seq<Part>, params: map<string, string>, leaf: Node<int>)
    requires Mids(parts) == ["1", "r"]
    ensures Find(Line(["{a}", "q"], leaf), parts, params, "") == Lookup(None, params["a" := "1"], "")
  {
    ParamIs("{a}", "a");
    MidsFirst(parts);
    MidsFirst(parts[1..]);
    assert ["{a}", "q"][1..] == ["q"];
    assert Find(Line(["q"], leaf), parts[1..], params["a" := "1"], "") == Lookup(None, params["a" := "1"], "");
  }

  lemma {:induction false} OneAndR(parts: seq<Part>, params: map<string, string>, path: string)
    requires Mids(parts) == ["1", "r"]
    ensures Find(Line(["1", "r"], RouteEnd(path)), parts, params, "") == Lookup(Some(["1", "r"]), params, "")
  {
    MidsFirst(parts);
    MidsFirst(parts[1..]);
    assert |parts| == |Mids(parts)| == 2 && parts[1..][1..] == [];
    assert ["1", "r"][1..] == ["r"] && ["r"][1..] == [];
    assert Find(RouteEnd(path), [], params, "") == Lookup(Some([]), params, "");
    var r := Node(NoHandler(), [Child("r", RouteEnd(path))]);
    assert Line(["r"], RouteEnd(path)) == r && Line(["1", "r"], RouteEnd(path)) == Node(NoHandler(), [Child("1", r)]);
    ExactStep(r, parts[1..], params, "", ["r"]);
    ExactStep(Line(["1", "r"], RouteEnd(path)), parts, params, "", ["1", "r"]);
  }

  /** Below /{a} the first of the two is given up after it has bound `a` anew. */
  lemma {:induction false} MisboundBelow(parts: seq<Part>)
    requires Mids(parts) == ["v", "x", "1", "r"]
    ensures var l := Find(Reusing(), parts, map[], "");
            l.path == Some(["{a}", "{b}", "1", "r"]) && !Bound(l.path.value, parts, l.params)
  {
    hide Find;
    var path := ["{a}", "{b}", "1", "r"];
    var below := parts[1..][1..];
    MidsFirst(parts);
    MidsFirst(parts[1..]);
    assert path[1..][1..] == ["1", "r"];
    ParamIs("{a}", "a");
    ParamIs("{b}", "b");
    var v: map<string, string> := map["a" := "v"];
    var m := Reusing().children[0].node;
    GivenUp(below, v, RouteEnd("/{a}/x/{a}/q"));
    OneAndR(below, v["a" := "1"]["b" := "x"], "/{a}/{b}/1/r");
    assert m.children[1..] == [Child("{b}", Line(["1", "r"], RouteEnd("/{a}/{b}/1/r")))];
    assert FindExact(m, parts[1..], v, "") == Lookup(None, v["a" := "1"], "");
    WildStep(m, parts[1..], v, "", 1, path[1..]);
    assert FindExact(Reusing(), parts, map[], "") == Lookup(None, map[], "");
    assert map[]["a" := "v"] == v;
    WildStep(Reusing(), parts, map[], "", 0, path);
  }

  /** /v/x/1/r, after /{a}/x/{a}/q and /{a}/{b}/1/r have been registered, finds the second with "1" for `a`. */
  lemma {:induction false} ReusedNameMisbound()
    ensures var request := "/v/x/1/r";
            FindRoute(Build(ReusingRoutes()), request, request).path == Some(["{a}", "{b}", "1", "r"])
            && Stripped(request) == request && !WellBound(Build(ReusingRoutes()), request)
  {
    hide *;
    var request, mids := "/v/x/1/r", ["v", "x", "1", "r"];
    ReusingIsBuilt();
    FourKeys("v", "x", "1", "r");
    assert TextOf(mids) == request;
    TextParts(mids, request);
    OpenRequest(Reusing(), request);
    MisboundBelow(Parts(request, request, 0));
  }

  lemma {:induction false} OpenRequest<H>(n: Node<H>, request: string)
    requires |request| > 1 && request[|request| - 1] != '/'
    ensures Stripped(request) == request
    ensures var l := Find(n, Parts(request, request, 0), map[], "");
            && FindRoute(n, request, request) == l
            && (WellBound(n, request) <==> (l.path.Some? ==> Bound(l.path.value, Parts(request, request, 0), l.params)))
  {
    hide Find;
    hide Parts;
    hide Bound;
  }

  // ---- a second pattern

  function TwoRoutes(): seq<Registration<int>> {
    [Registration(GET, "/{a}/x", 0, 0), Registration(GET, "/{b}/y", 0, 0)]
  }

  function TwoPatterns(): Node<int> {
    Node(NoHandler(), [Child("{a}", Line(["x"], RouteEnd("/{a}/x"))), Child("{b}", Line(["y"], RouteEnd("/{b}/y")))])
  }

  lemma {:induction false} TwoKeys(a: string, b: string)
    ensures TextOf([a, b]) == "/" + a + "/" + b
  {
    assert [a, b][1..] == [b];
    assert TextOf([b]) == "/" + b;
  }

  lemma {:induction false} PatternKeys()
    ensures Keys("/{a}/x", 0) == ["{a}", "x"] && Keys("/{b}/y", 0) == ["{b}", "y"]
  {
    hide Keys;
    hide TextOf;
    TwoKeys("{a}", "x");
    TwoKeys("{b}", "y");
    assert TextOf(["{a}", "x"]) == "/{a}/x" && TextOf(["{b}", "y"]) == "/{b}/y";
    TextKeys(["{a}", "x"]);
    TextKeys(["{b}", "y"]);
  }

  lemma {:induction false} TwoPatternsAreBuilt()
    ensures Build(TwoRoutes()) == TwoPatterns()
  {
    hide Keys;
    hide Insert;
    hide Line;
    hide TwoPatterns;
    var a, b := TwoRoutes()[0], TwoRoutes()[1];
    PatternKeys();
    BuildLast([], a);
    BuildLast([a], b);
    InsertedLine(["{a}", "x"], vh => Handle(vh, a));
    assert [] + [a] == [a] && [a] + [b] == TwoRoutes();
    SecondPattern(vh => Handle(vh, b));
  }

  lemma {:induction false} SecondPattern(g: VerbHandler<int> -> VerbHandler<int>)
    requires g(NoHandler()) == RouteEnd("/{b}/y").handler
    ensures Insert(Line(["{a}", "x"], RouteEnd("/{a}/x")), ["{b}", "y"], g) == TwoPatterns()
  {
    var below := Line(["x"], RouteEnd("/{a}/x"));
    InsertedLine(["y"], g);
    var n: Node<int> := Node(NoHandler(), [Child("{a}", below)]);
    assert ["{a}", "x"][1..] == ["x"] && ["{b}", "y"][1..] == ["y"];
    assert Line(["{a}", "x"], RouteEnd("/{a}/x")) == n;
    assert n.children[1..] == [] && n.children[..1] == n.children;
    BracesInOrder();
    assert Rank(n.children, "{b}") == 1 && IndexOf(n.children, "{b}") == 1;
  }

  lemma {:induction false} BracesInOrder()
    ensures Less("{a}", "{b}")
  {
    assert "{a}"[1..] == "a}" && "{b}"[1..] == "b}";
    assert Less("a}", "b}");
  }

  lemma {:induction false} SecondFits(parts: seq<Part>)
    requires Mids(parts) == ["1", "y"]
    ensures Fits(TwoPatterns(), parts, ["{b}", "y"])
  {
    var n := TwoPatterns();
    MidsFirst(parts);
    MidsFirst(parts[1..]);
    assert |parts| == |Mids(parts)| == 2 && parts[1..][1..] == [];
    ParamIs("{b}", "b");
    assert ["{b}", "y"][1..] == ["y"] && ["y"][1..] == [];
    assert n.children[1..] == [Child("{b}", Line(["y"], RouteEnd("/{b}/y")))];
    assert IndexOf(n.children, "{b}") == 1;
    assert Fits(RouteEnd("/{b}/y"), [], []);
    assert Fits(Line(["y"], RouteEnd("/{b}/y")), parts[1..], ["y"]);
  }

  lemma {:induction false} SecondIsMissed(parts: seq<Part>)
    requires Mids(parts) == ["1", "y"]
    ensures Find(TwoPatterns(), parts, map[], "").path == None
  {
    var n := TwoPatterns();
    MidsFirst(parts);
    MidsFirst(parts[1..]);
    assert |parts| == |Mids(parts)| == 2;
    ParamIs("{a}", "a");
    assert FirstWild(n.children, "1") == 0;
    assert Find(Line(["x"], RouteEnd("/{a}/x")), parts[1..], map[][ParamName("{a}") := "1"], "").path == None;
    assert n.children[1..] == [Child("{b}", Line(["y"], RouteEnd("/{b}/y")))];
    hide Find;
  }

  /** /1/y, after /{a}/x and /{b}/y have been registered: only the first of the two patterns is followed, so
      nothing is found, though the second fits. */
  lemma {:induction false} SecondPatternMissed()
    ensures var n, request := Build(TwoRoutes()), "/1/y";
            && Stripped(request) == request && Fits(n, Parts(request, request, 0), ["{b}", "y"])
            && FindRoute(n, request, request).path == None
  {
    hide *;
    var request := "/1/y";
    TwoPatternsAreBuilt();
    TwoKeys("1", "y");
    assert TextOf(["1", "y"]) == request;
    TextParts(["1", "y"], request);
    OpenRequest(TwoPatterns(), request);
    SecondFits(Parts(request, request, 0));
    SecondIsMissed(Parts(request, request, 0));
  }
}
