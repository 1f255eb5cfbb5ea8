/** The route trie as a value: nodes with handlers, and children in the order of their keys. */
module RouteTree {
  import opened Bytes

  datatype Verb = ANY | GET | POST | PUT | DELETE | HEAD | PATCH

  datatype VerbHandler<H> = VerbHandler(verbs: map<Verb, H>, path: string, queue: int)

  datatype Node<H> = Node(handler: VerbHandler<H>, children: seq<Child<H>>)
  datatype Child<H> = Child(key: string, node: Node<H>)

  function NoHandler<H>(): VerbHandler<H> { VerbHandler(map[], "", 0) }

  function Empty<H>(): Node<H> { Node(NoHandler(), []) }

  // ---- the order of keys: byte by byte, a prefix first

  predicate Less(a: string, b: string) {
    if b == "" then false
    else if a == "" then true
    else a[0] < b[0] || (a[0] == b[0] && Less(a[1..], b[1..]))
  }

  lemma {:induction false} LessIsStrict(a: string, b: string)
    ensures !(Less(a, b) && Less(b, a)) && !Less(a, a)
    ensures a == b || Less(a, b) || Less(b, a)
    decreases |a| + |b|
  {
    if a != "" && b != "" {
      LessIsStrict(a[1..], b[1..]);
      if a[1..] == b[1..] && a[0] == b[0] { assert a == [a[0]] + a[1..] == b; }
    }
    LessNotSelf(a);
  }

  lemma {:induction false} LessNotSelf(a: string)
    ensures !Less(a, a)
  {
    if a != "" { LessNotSelf(a[1..]); }
  }

  lemma {:induction false} LessTransitive(a: string, b: string, c: string)
    requires Less(a, b) && Less(b, c)
    ensures Less(a, c)
  {
    if a != "" && a[0] == b[0] == c[0] { LessTransitive(a[1..], b[1..], c[1..]); }
  }

  // ---- children

  function IndexOf<H>(children: seq<Child<H>>, key: string): (i: nat)
    ensures i <= |children| && (i < |children| ==> children[i].key == key)
    ensures forall k :: 0 <= k < i ==> children[k].key != key
  {
    if children == [] || children[0].key == key then 0 else 1 + IndexOf(children[1..], key)
  }

  predicate Has<H>(children: seq<Child<H>>, key: string) { IndexOf(children, key) < |children| }

  /** Where a new key goes. */
  function Rank<H>(children: seq<Child<H>>, key: string): (i: nat)
    ensures i <= |children| && (i < |children| ==> !Less(children[i].key, key))
    ensures forall k :: 0 <= k < i ==> Less(children[k].key, key)
  {
    if children == [] || !Less(children[0].key, key) then 0 else 1 + Rank(children[1..], key)
  }

  ghost predicate Sorted<H>(children: seq<Child<H>>) {
    forall i, j :: 0 <= i < j < |children| ==> Less(children[i].key, children[j].key)
  }

  /** The children of every node stand in the order of their keys, each key once. */
  ghost predicate WellFormed<H>(n: Node<H>) {
    Sorted(n.children) && forall i :: 0 <= i < |n.children| ==> WellFormed(n.children[i].node)
  }

  /** The node at the end of a path of keys. */
  function At<H>(n: Node<H>, path: seq<string>): Option<Node<H>>
    decreases |path|
  {
    if path == [] then Some(n) else
      var i := IndexOf(n.children, path[0]);
      if i == |n.children| then None else At(n.children[i].node, path[1..])
  }

  // ---- text

  /** The next slash from `cursor` on, or the end. */
  function MidEnd(route: string, cursor: nat): (e: nat)
    requires cursor <= |route|
    ensures cursor <= e <= |route| && (e < |route| ==> route[e] == '/')
    ensures forall i :: cursor <= i < e ==> route[i] != '/'
    decreases |route| - cursor
  {
    if cursor == |route| || route[cursor] == '/' then cursor else MidEnd(route, cursor + 1)
  }

  function Skip(route: string, cursor: nat): (a: nat)
    requires cursor <= |route|
    ensures cursor <= a <= |route|
  {
    if cursor < |route| && route[cursor] == '/' then cursor + 1 else cursor
  }

  // ---- registering

  /** The keys that a route is filed under: a last slash is ignored. */
  function Keys(route: string, cursor: nat): seq<string>
    requires cursor <= |route|
    decreases |route| - cursor
  {
    if cursor == |route| then []
    else if cursor == |route| - 1 && route[cursor] == '/' then []
    else
      var a := Skip(route, cursor);
      var e := MidEnd(route, a);
      [route[a..e]] + Keys(route, e)
  }

  /** Find or create the node for these keys, and change its handler. */
  function Insert<H>(n: Node<H>, keys: seq<string>, update: VerbHandler<H> -> VerbHandler<H>): Node<H>
    decreases |keys|
  {
    if keys == [] then n.(handler := update(n.handler)) else
      var i := IndexOf(n.children, keys[0]);
      if i < |n.children| then
        n.(children := n.children[i := Child(keys[0], Insert(n.children[i].node, keys[1..], update))])
      else
        var r := Rank(n.children, keys[0]);
        n.(children := n.children[..r] + [Child(keys[0], Insert(Empty(), keys[1..], update))] + n.children[r..])
  }

  /** The route "/" gets a child of that name. A second time the node that is made for it is never linked. */
  function Register<H>(n: Node<H>, route: string, update: VerbHandler<H> -> VerbHandler<H>): Node<H> {
    if route != "/" then Insert(n, Keys(route, 0), update)
    else if Has(n.children, "/") then n
    else Insert(n, ["/"], update)
  }

  // ---- looking up

  /** A part of the request between slashes, and the request's text after it. */
  datatype Part = Part(mid: string, tail: string)

  /** The parts of `route`, which is all of the request's text `raw` or all but its last slash. */
  function Parts(route: string, raw: string, cursor: nat): seq<Part>
    requires cursor <= |route| <= |raw|
    decreases |route| - cursor
  {
    if cursor == |route| then [] else
      var a := Skip(route, cursor);
      var e := MidEnd(route, a);
      [Part(route[a..e], raw[e..])] + Parts(route, raw, e)
  }

  predicate IsStar(key: string) { key != "" && key[|key| - 1] == '*' }

  predicate IsParam(key: string) { |key| > 2 && key[0] == '{' && key[|key| - 1] == '}' }

  predicate StarFits(key: string, mid: string) { IsStar(key) && key[..|key| - 1] <= mid }

  predicate WildFits(key: string, mid: string) { StarFits(key, mid) || IsParam(key) }

  function TrimLeft(s: string): string { if s != "" && s[0] == ' ' then TrimLeft(s[1..]) else s }
  function TrimRight(s: string): string { if s != "" && s[|s| - 1] == ' ' then TrimRight(s[..|s| - 1]) else s }

  function ParamName(key: string): string
    requires IsParam(key)
  {
    TrimRight(TrimLeft(key[1..|key| - 1]))
  }

  /** The first child, in order, whose key fits as a pattern. */
  function FirstWild<H>(children: seq<Child<H>>, mid: string): (i: nat)
    ensures i <= |children| && (i < |children| ==> WildFits(children[i].key, mid))
    ensures forall k :: 0 <= k < i ==> !WildFits(children[k].key, mid)
  {
    if children == [] || WildFits(children[0].key, mid) then 0 else 1 + FirstWild(children[1..], mid)
  }

  /** The path of the node found, if any, with the parameters bound on the way, and the match path. */
  datatype Lookup = Lookup(path: Option<seq<string>>, params: map<string, string>, matchPath: string)

  function Under(key: string, l: Lookup): Lookup {
    match l.path
    case None => l
    case Some(path) => l.(path := Some([key] + path))
  }

  /** The child with the part's own name is tried first; then the first child whose key is a pattern that
      fits, and no other. What a branch has bound stays bound when it is given up. */
  function Find<H>(n: Node<H>, parts: seq<Part>, params: map<string, string>, matchPath: string): Lookup
    decreases |parts|, 1
  {
    if n.children == [] || (parts == [] && n.handler.verbs != map[]) then Lookup(Some([]), params, matchPath)
    else if parts == [] then Lookup(if Has(n.children, "*") then Some(["*"]) else None, params, matchPath)
    else
      var exact := FindExact(n, parts, params, matchPath);
      if exact.path.Some? then exact else FindWild(n, parts, exact.params, exact.matchPath)
  }

  function FindExact<H>(n: Node<H>, parts: seq<Part>, params: map<string, string>, matchPath: string): Lookup
    requires parts != []
    decreases |parts|, 0
  {
    var i := IndexOf(n.children, parts[0].mid);
    if i == |n.children| then Lookup(None, params, matchPath)
    else Under(parts[0].mid, Find(n.children[i].node, parts[1..], params, matchPath))
  }

  function FindWild<H>(n: Node<H>, parts: seq<Part>, params: map<string, string>, matchPath: string): Lookup
    requires parts != []
    decreases |parts|, 0
  {
    var mid := parts[0].mid;
    var i := FirstWild(n.children, mid);
    if i == |n.children| then Lookup(None, params, matchPath) else
      var key := n.children[i].key;
      if StarFits(key, mid) then Lookup(Some([key]), params, mid + parts[0].tail)
      else Under(key, Find(n.children[i].node, parts[1..], params[ParamName(key) := mid], matchPath))
  }

  /** One last slash of the request is dropped, but for "/" itself. */
  function Stripped(request: string): string {
    if |request| > 1 && request[|request| - 1] == '/' then request[..|request| - 1] else request
  }

  /** Look up a route in a table: "/" is found under its own name, if it was registered. */
  function FindRoute<H>(n: Node<H>, route: string, raw: string): Lookup
    requires |route| <= |raw|
  {
    if route == "/" && Has(n.children, "/") then Lookup(Some(["/"]), map[], "")
    else Find(n, Parts(route, raw, 0), map[], "")
  }
}
