/** Mounting a blueprint over whatever a router has already. */
module BlueprintOver {
  import opened Bytes
  import opened RouteTree
  import opened RouteBuild
  import opened BlueprintMount
  import opened BlueprintRequests

  lemma {:induction false} RegistersExactly<H>(n: Node<H>, route: string, update: VerbHandler<H> -> VerbHandler<H>,
                                               path: seq<string>)
    requires WellFormed(n)
    ensures var z := Register(n, route, update);
            && WellFormed(z) && (At(z, path).Some? <==> At(n, path).Some? || path <= KeysOf(route))
            && HandlerAt(z, path) == if path == KeysOf(route) && !(route == "/" && At(n, ["/"]).Some?)
                                     then update(HandlerAt(n, path)) else HandlerAt(n, path)
  {
    hide Insert;
    HasIsAt(n, "/");
    if route == "/" && Has(n.children, "/") {
      assert path <= ["/"] ==> path == [] || path == ["/"];
    } else {
      InsertWellFormed(n, KeysOf(route), update);
      AtInserted(n, KeysOf(route), update, path);
    }
  }

  /** The route is filed: the text "/" only if there is no such route yet. */
  predicate Filed<H>(root: Node<H>, prefix: string, routes: seq<Route<H>>, i: nat) {
    && i < |routes|
    && (MountText(prefix, routes[i].text) == "/" ==>
          At(root, ["/"]).None? && forall k :: 0 <= k < i ==> MountText(prefix, routes[k].text) != "/")
  }

  /** The last of the routes that are filed under these keys. */
  predicate LastFiled<H>(root: Node<H>, prefix: string, routes: seq<Route<H>>, path: seq<string>, i: nat) {
    && Filed(root, prefix, routes, i) && KeysOf(MountText(prefix, routes[i].text)) == path
    && forall k :: i < k < |routes| && Filed(root, prefix, routes, k) ==>
        KeysOf(MountText(prefix, routes[k].text)) != path
  }

  lemma {:induction false} FiledLater<H>(root: Node<H>, prefix: string, routes: seq<Route<H>>, i: nat)
    requires WellFormed(root) && 0 < i < |routes|
    ensures Filed(root, prefix, routes, i) <==> Filed(MountOne(root, prefix, routes[0]), prefix, routes[1..], i - 1)
  {
    hide Register;
    hide KeysOf;
    hide MountText;
    hide WellFormed;
    hide At;
    var route, rest := routes[0], routes[1..];
    var text := MountText(prefix, route.text);
    RegistersExactly(root, text, _ => route.handler.(path := text), ["/"]);
    OnlySlash(text);
    assert rest[i - 1] == routes[i];
    assert forall k :: 1 <= k < |routes| ==> routes[k] == rest[k - 1];
    if forall k :: 0 <= k < i - 1 ==> MountText(prefix, rest[k].text) != "/" {
      forall k | 1 <= k < i ensures MountText(prefix, routes[k].text) != "/" { assert routes[k] == rest[k - 1]; }
    }
  }

  /** Whatever was there, each path has the handler of the last route filed under it, with the text it was mounted with
      as its path, and else the handler it had; and only nodes on the way to a mounted route are new. */
  lemma {:induction false} MountedOver<H>(root: Node<H>, prefix: string, routes: seq<Route<H>>, path: seq<string>)
    requires WellFormed(root)
    ensures var z := Mount(root, prefix, routes);
            && (At(z, path).Some? <==> At(root, path).Some? || MountedBelow(prefix, routes, path))
            && (forall i: nat :: LastFiled(root, prefix, routes, path, i) ==>
                  HandlerAt(z, path) == routes[i].handler.(path := MountText(prefix, routes[i].text)))
            && ((forall i: nat :: !LastFiled(root, prefix, routes, path, i)) ==>
                HandlerAt(z, path) == HandlerAt(root, path))
    decreases |routes|
  {
    hide Register;
    hide KeysOf;
    hide MountText;
    hide WellFormed;
    hide At;
    hide LastFiled;
    hide HandlerAt;
    if routes == [] {
      forall i: nat ensures !LastFiled(root, prefix, routes, path, i) { NoneFiled(root, prefix, routes, path, i); }
    } else {
      var route, rest := routes[0], routes[1..];
      var text, next := MountText(prefix, route.text), MountOne(root, prefix, route);
      RegistersExactly(root, text, _ => route.handler.(path := text), path);
      MountedOver(next, prefix, rest, path);
      BelowStep(prefix, routes, path);
      forall i: nat | i > 0
        ensures LastFiled(root, prefix, routes, path, i) <==> LastFiled(next, prefix, rest, path, i - 1)
      {
        if LastFiled(root, prefix, routes, path, i) { LastIsLater(root, prefix, routes, path, i); }
        if LastFiled(next, prefix, rest, path, i - 1) { LaterIsLast(root, prefix, routes, path, i); }
      }
      if LastFiled(root, prefix, routes, path, 0) { FirstFiled(root, prefix, routes, path); }
      forall i: nat | LastFiled(root, prefix, routes, path, i)
        ensures i < |routes| && HandlerAt(Mount(root, prefix, routes), path)
                                == routes[i].handler.(path := MountText(prefix, routes[i].text))
      {
        if i > 0 {
          NoneFiled(root, prefix, routes, path, i);
          assert routes[i] == rest[i - 1];
        } else {
          forall j: nat ensures !LastFiled(next, prefix, rest, path, j) {
            assert LastFiled(next, prefix, rest, path, j) ==> LastFiled(root, prefix, routes, path, j + 1);
            if LastFiled(root, prefix, routes, path, j + 1) { OneLast(root, prefix, routes, path, 0, j + 1); }
          }
        }
      }
      if forall i: nat :: !LastFiled(root, prefix, routes, path, i) {
        forall j: nat ensures !LastFiled(next, prefix, rest, path, j) {
          assert !LastFiled(root, prefix, routes, path, j + 1);
        }
        NoLast(root, prefix, routes, path);
      }
    }
  }

  lemma {:induction false} NoneFiled<H>(root: Node<H>, prefix: string, routes: seq<Route<H>>, path: seq<string>, i: nat)
    ensures LastFiled(root, prefix, routes, path, i) ==> i < |routes|
  {
    hide KeysOf;
    hide MountText;
    hide At;
  }

  lemma {:induction false} OneLast<H>(root: Node<H>, prefix: string, routes: seq<Route<H>>, path: seq<string>, i: nat,
                                      j: nat)
    requires LastFiled(root, prefix, routes, path, i) && LastFiled(root, prefix, routes, path, j)
    ensures i == j
  {
    hide KeysOf;
    hide MountText;
    hide At;
    hide Filed;
    FiledInside(root, prefix, routes, i);
    FiledInside(root, prefix, routes, j);
  }

  lemma {:induction false} FirstFiled<H>(root: Node<H>, prefix: string, routes: seq<Route<H>>, path: seq<string>)
    requires routes != [] && LastFiled(root, prefix, routes, path, 0)
    ensures KeysOf(MountText(prefix, routes[0].text)) == path
    ensures MountText(prefix, routes[0].text) == "/" ==> At(root, ["/"]).None?
  {
    hide KeysOf;
    hide MountText;
    hide At;
  }

  /** If none is the last, none is filed there. */
  lemma {:induction false} NoLast<H>(root: Node<H>, prefix: string, routes: seq<Route<H>>, path: seq<string>)
    requires routes != [] && forall i: nat :: !LastFiled(root, prefix, routes, path, i)
    ensures !(Filed(root, prefix, routes, 0) && KeysOf(MountText(prefix, routes[0].text)) == path)
  {
    hide KeysOf;
    hide MountText;
    hide At;
    hide Filed;
    hide LastFiled;
    if Filed(root, prefix, routes, 0) && KeysOf(MountText(prefix, routes[0].text)) == path {
      var i := LastFrom(root, prefix, routes, path, 0);
      assert false;
    }
  }

  lemma {:induction false} LastFrom<H>(root: Node<H>, prefix: string, routes: seq<Route<H>>, path: seq<string>, k: nat)
      returns (i: nat)
    requires k < |routes| && Filed(root, prefix, routes, k) && KeysOf(MountText(prefix, routes[k].text)) == path
    ensures LastFiled(root, prefix, routes, path, i)
    decreases |routes| - k
  {
    hide KeysOf;
    hide MountText;
    hide At;
    hide Filed;
    i := k;
    var it := KeysOf(MountText(prefix, routes[k].text));
    if j: nat :| k < j < |routes| && Filed(root, prefix, routes, j) && KeysOf(MountText(prefix, routes[j].text)) == it {
      i := LastFrom(root, prefix, routes, path, j);
    }
  }

  lemma {:induction false} AllFiledLater<H>(root: Node<H>, prefix: string, routes: seq<Route<H>>)
    requires WellFormed(root) && routes != []
    ensures var next, rest := MountOne(root, prefix, routes[0]), routes[1..];
            forall k: nat | 0 < k < |routes| ::
              rest[k - 1] == routes[k] && (Filed(root, prefix, routes, k) <==> Filed(next, prefix, rest, k - 1))
  {
    hide KeysOf;
    hide MountText;
    hide At;
    hide Filed;
    hide WellFormed;
    hide MountOne;
    var next, rest := MountOne(root, prefix, routes[0]), routes[1..];
    forall k: nat | 0 < k < |routes|
      ensures rest[k - 1] == routes[k] && (Filed(root, prefix, routes, k) <==> Filed(next, prefix, rest, k - 1))
    {
      FiledLater(root, prefix, routes, k);
    }
  }

  lemma {:induction false} LastIsLater<H>(root: Node<H>, prefix: string, routes: seq<Route<H>>, path: seq<string>,
                                          i: nat)
    requires WellFormed(root) && routes != [] && i > 0 && LastFiled(root, prefix, routes, path, i)
    ensures LastFiled(MountOne(root, prefix, routes[0]), prefix, routes[1..], path, i - 1)
  {
    hide KeysOf;
    hide MountText;
    hide At;
    hide Filed;
    hide WellFormed;
    hide MountOne;
    AllFiledLater(root, prefix, routes);
    FiledInside(root, prefix, routes, i);
    var next, rest := MountOne(root, prefix, routes[0]), routes[1..];
    forall k | i - 1 < k < |rest| && Filed(next, prefix, rest, k)
      ensures KeysOf(MountText(prefix, rest[k].text)) != path
    {
      assert rest[(k + 1) - 1] == routes[k + 1];
    }
  }

  lemma {:induction false} LaterIsLast<H>(root: Node<H>, prefix: string, routes: seq<Route<H>>, path: seq<string>,
                                          i: nat)
    requires WellFormed(root) && routes != [] && i > 0
    requires LastFiled(MountOne(root, prefix, routes[0]), prefix, routes[1..], path, i - 1)
    ensures LastFiled(root, prefix, routes, path, i)
  {
    hide KeysOf;
    hide MountText;
    hide At;
    hide Filed;
    hide WellFormed;
    hide MountOne;
    AllFiledLater(root, prefix, routes);
    var next, rest := MountOne(root, prefix, routes[0]), routes[1..];
    FiledInside(next, prefix, rest, i - 1);
    forall k | i < k < |routes| && Filed(root, prefix, routes, k)
      ensures KeysOf(MountText(prefix, routes[k].text)) != path
    {
      assert Filed(next, prefix, rest, k - 1);
    }
  }

  lemma {:induction false} FiledInside<H>(root: Node<H>, prefix: string, routes: seq<Route<H>>, i: nat)
    requires Filed(root, prefix, routes, i)
    ensures i < |routes|
  {
    hide MountText;
    hide At;
  }

  lemma {:induction false} BelowStep<H>(prefix: string, routes: seq<Route<H>>, path: seq<string>)
    requires routes != []
    ensures MountedBelow(prefix, routes, path)
            <==> path <= KeysOf(MountText(prefix, routes[0].text)) || MountedBelow(prefix, routes[1..], path)
  {
    hide KeysOf;
    hide MountText;
    var rest := routes[1..];
    if MountedBelow(prefix, rest, path) {
      var k :| 0 <= k < |rest| && path <= KeysOf(MountText(prefix, rest[k].text));
      assert routes[k + 1] == rest[k];
    }
    if MountedBelow(prefix, routes, path) {
      var k :| 0 <= k < |routes| && path <= KeysOf(MountText(prefix, routes[k].text));
      if k > 0 { assert routes[k] == rest[k - 1]; }
    }
  }
}
