/** Trees of linked items: what they hold, their copies, and comparing them. */
module JsonTree {
  import opened Bytes
  import opened JsonText
  import opened JsonMeaning
  import opened SiblingList

  predicate IsContainer(k: Kind) { k == ArrayKind || k == ObjectKind }

  /** The item and all below it: every list of children linked, no item in two places. */
  ghost predicate Valid(item: Item)
    reads item`child, item`kind, item`kids, item`Repr, item.Repr - {item}
    decreases item.Repr, 0
  {
    && item in item.Repr
    && (!IsContainer(item.kind) ==> item.kids == [])
    && Family(item.kids, item.Repr - {item})
    && Linked(item.child, item.kids)
  }

  ghost predicate Family(kids: seq<Item>, all: set<Item>)
    reads all
    decreases all, 1
  {
    && (forall i :: 0 <= i < |kids| ==> kids[i] in all && kids[i].Repr <= all && Valid(kids[i]))
    && forall i, j :: 0 <= i < j < |kids| ==> kids[i].Repr !! kids[j].Repr
  }

  /** The tree's value. */
  ghost function Tree(item: Item): Json
    requires Valid(item)
    reads item`child, item`kind, item`valueint, item`valuestring, item`kids, item`Repr, item.Repr - {item}
    decreases item.Repr, 0
  {
    match item.kind
    case NullKind => Null
    case FalseKind => False
    case TrueKind => True
    case NumberKind => Num(item.valueint)
    case StringKind => Str(item.valuestring)
    case ArrayKind => Arr(Values(item.kids, item.Repr - {item}))
    case ObjectKind => Obj(Members(item.kids, item.Repr - {item}))
  }

  ghost function Values(kids: seq<Item>, all: set<Item>): (vs: seq<Json>)
    requires Family(kids, all)
    reads all
    ensures |vs| == |kids|
    decreases all, 1, |kids|
  {
    if kids == [] then [] else [Tree(kids[0])] + Values(kids[1..], all)
  }

  ghost function Members(kids: seq<Item>, all: set<Item>): (ms: seq<Member>)
    requires Family(kids, all)
    reads all
    ensures |ms| == |kids|
    decreases all, 1, |kids|
  {
    if kids == [] then [] else [Member(kids[0].name, Tree(kids[0]))] + Members(kids[1..], all)
  }

  ghost function Below(item: Item): set<Item>
    reads item`Repr
  {
    item.Repr - {item}
  }

  /** A child is a tree of its own, smaller and apart from its parent. */
  lemma {:induction false} KidIsValid(item: Item, i: nat)
    requires Valid(item) && i < |item.kids|
    ensures Valid(item.kids[i]) && item.kids[i].Repr <= Below(item) && item.kids[i] != item
  {
  }

  ghost function KidOr(kids: seq<Item>, i: nat): Item? { if i < |kids| then kids[i] else null }

  lemma {:induction false} KidLinks(item: Item, i: nat)
    requires Valid(item) && i < |item.kids|
    ensures item.kids[i].next == KidOr(item.kids, i + 1)
  {
  }

  lemma {:induction false} FirstKid(item: Item)
    requires Valid(item)
    ensures item.child == KidOr(item.kids, 0)
  {
  }

  ghost function MembersOf(item: Item): (ms: seq<Member>)
    requires Valid(item)
    reads item`child, item`kind, item`kids, item`Repr, item.Repr - {item}
    ensures |ms| == |item.kids|
  {
    Members(item.kids, item.Repr - {item})
  }

  /** The first child that a name is taken for, or none. */
  method GetObjectItem(holder: Item, key: CString, caseSensitive: bool) returns (r: Item?)
    requires Valid(holder)
    ensures r == KidOr(holder.kids, FirstNamed(MembersOf(holder), key, caseSensitive))
  {
    hide *;
    ghost var i, ms := 0, MembersOf(holder);
    FirstKid(holder);
    r := holder.child;
    while r != null && Name(r.name, caseSensitive) != Name(key, caseSensitive)
      invariant i <= |holder.kids| && r == KidOr(holder.kids, i)
      invariant forall k :: 0 <= k < i ==> Name(ms[k].key, caseSensitive) != Name(key, caseSensitive)
      decreases |holder.kids| - i
    {
      KidIs(holder.kids, i);
      MemberOf(holder, i);
      KidLinks(holder, i);
      r := r.next;
      i := i + 1;
    }
    KidIs(holder.kids, i);
    if i < |holder.kids| { MemberOf(holder, i); }
    NamedAt(ms, key, caseSensitive, i);
  }

  lemma {:induction false} KidIs(kids: seq<Item>, i: nat)
    ensures KidOr(kids, i) == if i < |kids| then kids[i] else null
  {
  }

  lemma {:induction false} NamedAt(ms: seq<Member>, key: Text, cs: bool, i: nat)
    requires i <= |ms| && forall k :: 0 <= k < i ==> Name(ms[k].key, cs) != Name(key, cs)
    requires i < |ms| ==> Name(ms[i].key, cs) == Name(key, cs)
    ensures FirstNamed(ms, key, cs) == i
  {
    hide Name;
  }

  lemma {:induction false} ValueAt(kids: seq<Item>, all: set<Item>, i: nat)
    requires Family(kids, all) && i < |kids|
    ensures Valid(kids[i]) && Values(kids, all)[i] == Tree(kids[i])
    decreases |kids|
  {
    if i > 0 { ValueAt(kids[1..], all, i - 1); }
  }

  lemma {:induction false} MemberAt(kids: seq<Item>, all: set<Item>, i: nat)
    requires Family(kids, all) && i < |kids|
    ensures Valid(kids[i]) && Members(kids, all)[i] == Member(kids[i].name, Tree(kids[i]))
    decreases |kids|
  {
    if i > 0 { MemberAt(kids[1..], all, i - 1); }
  }

  lemma {:induction false} MemberOf(item: Item, i: nat)
    requires Valid(item) && i < |item.kids|
    ensures Valid(item.kids[i]) && MembersOf(item)[i] == Member(item.kids[i].name, Tree(item.kids[i]))
  {
    MemberAt(item.kids, item.Repr - {item}, i);
  }

  lemma {:induction false} ArrayTree(item: Item)
    requires Valid(item) && item.kind == ArrayKind
    ensures Family(item.kids, Below(item)) && Tree(item) == Arr(Values(item.kids, Below(item)))
  {
  }

  lemma {:induction false} ObjectTree(item: Item)
    requires Valid(item) && item.kind == ObjectKind
    ensures Tree(item) == Obj(MembersOf(item))
  {
  }

  // ---- comparing

  ghost function Nodes(a: Item?): set<Item>
    reads if a == null then {} else {a}
  {
    if a == null then {} else a.Repr
  }

  /** The answer `r` is right for these two: only trees that mean the same compare equal, and all that are
      consistent as well do; for trees apart, exactly those. */
  ghost predicate Decides(r: bool, x: Json, y: Json, cs: bool, apart: bool) {
    (SameMeaning(x, y, cs) ==> r) && (r ==> Like(x, y, cs, apart))
  }

  ghost function Size(a: Item?): nat
    requires a != null ==> Valid(a)
    reads if a == null then {} else {a} + a.Repr
  {
    if a == null then 0 else Nesting(Tree(a))
  }

  /** An item compares equal to itself; otherwise meaning decides, and exactly so if no node is in both trees. */
  method Compare(a: Item?, b: Item?, caseSensitive: bool) returns (r: bool)
    requires (a != null ==> Valid(a)) && (b != null ==> Valid(b))
    ensures a == null || b == null ==> !r
    ensures a != null && a == b ==> r
    ensures a != null && b != null ==> Decides(r, Tree(a), Tree(b), caseSensitive, Nodes(a) !! Nodes(b))
    decreases Size(a) + Size(b), 2
  {
    hide Valid;
    hide Tree;
    hide SameMeaning;
    hide CompareDouble;
    if a == null || b == null || a.kind != b.kind {
      if a != null && b != null { KindsDiffer(a, b, caseSensitive); }
      return false;
    }
    if a == b {
      OwnNode(a);
      assert a in Nodes(a) && a in Nodes(b);
      return true;
    }
    match a.kind {
      case NullKind | FalseKind | TrueKind =>
        LeavesCompare(a, b, caseSensitive);
        return true;
      case NumberKind =>
        LeavesCompare(a, b, caseSensitive);
        IntsCompareExactly(a.valueint, b.valueint);
        return CompareDouble(a.valueint as real, b.valueint as real);
      case StringKind =>
        LeavesCompare(a, b, caseSensitive);
        return a.valuestring == b.valuestring;
      case ArrayKind =>
        r := CompareArrays(a, b, caseSensitive);
      case ObjectKind =>
        r := CompareObjects(a, b, caseSensitive);
    }
  }

  lemma {:induction false} LeavesCompare(a: Item, b: Item, cs: bool)
    requires Valid(a) && Valid(b) && a.kind == b.kind && !IsContainer(a.kind)
    ensures SameMeaning(Tree(a), Tree(b), cs) <==>
            (a.kind == NumberKind ==> a.valueint == b.valueint)
                && (a.kind == StringKind ==> a.valuestring == b.valuestring)
    ensures SameMeaning(Tree(a), Tree(b), cs) ==> Means(Tree(a), cs) == Means(Tree(b), cs)
  {
    hide Valid;
  }

  method CompareObjects(a: Item, b: Item, caseSensitive: bool) returns (r: bool)
    requires Valid(a) && Valid(b) && a.kind == b.kind == ObjectKind
    ensures Decides(r, Tree(a), Tree(b), caseSensitive, Nodes(a) !! Nodes(b))
    decreases Size(a) + Size(b), 1
  {
    hide *;
    ObjectTree(a);
    ObjectTree(b);
    ghost var ma, mb, apart := MembersOf(a), MembersOf(b), Nodes(a) !! Nodes(b);
    CoverBothWays(ma, mb, caseSensitive);
    r := CompareMembers(a, b, caseSensitive);
    if r {
      r := CompareMembers(b, a, caseSensitive);
    }
    DecidesIs(r, Obj(ma), Obj(mb), caseSensitive, apart);
  }

  lemma {:induction false} DecidesIs(r: bool, x: Json, y: Json, cs: bool, apart: bool)
    ensures Decides(r, x, y, cs, apart) <==> (SameMeaning(x, y, cs) ==> r) && (r ==> Like(x, y, cs, apart))
    ensures Like(x, y, cs, true) <==> SameMeaning(x, y, cs)
    ensures Like(x, y, cs, false) <==> Means(x, cs) == Means(y, cs)
    ensures Like(x, y, cs, true) ==> Like(x, y, cs, false)
  {
    hide Means;
    hide Consistent;
  }

  lemma {:induction false} KindsDiffer(a: Item, b: Item, cs: bool)
    requires Valid(a) && Valid(b) && a.kind != b.kind
    ensures !SameMeaning(Tree(a), Tree(b), cs)
  {
  }

  method CompareArrays(a: Item, b: Item, caseSensitive: bool) returns (r: bool)
    requires Valid(a) && Valid(b) && a.kind == b.kind == ArrayKind
    ensures Decides(r, Tree(a), Tree(b), caseSensitive, Nodes(a) !! Nodes(b))
    decreases Size(a) + Size(b), 1
  {
    hide *;
    ArrayTree(a);
    ArrayTree(b);
    ghost var va, vb, apart := Values(a.kids, Below(a)), Values(b.kids, Below(b)), Nodes(a) !! Nodes(b);
    ItemsMeaning(va, vb, caseSensitive, true);
    ItemsMeaning(va, vb, caseSensitive, apart);
    FirstKid(a);
    FirstKid(b);
    KidIs(a.kids, 0);
    KidIs(b.kids, 0);
    ghost var i := 0;
    var aElement, bElement := a.child, b.child;
    while aElement != null && bElement != null
      invariant i <= |a.kids| && i <= |b.kids| && aElement == KidOr(a.kids, i) && bElement == KidOr(b.kids, i)
      invariant forall k :: 0 <= k < i ==> Like(va[k], vb[k], caseSensitive, apart)
      decreases |a.kids| - i
    {
      KidIs(a.kids, i);
      KidIs(b.kids, i);
      ValueAt(a.kids, Below(a), i);
      ValueAt(b.kids, Below(b), i);
      KidLinks(a, i);
      KidLinks(b, i);
      KidIs(a.kids, i + 1);
      KidIs(b.kids, i + 1);
      SmallerPair(a, b, i, i);
      var same := Compare(aElement, bElement, caseSensitive);
      KidsDecided(same, va[i], vb[i], caseSensitive, Nodes(aElement) !! Nodes(bElement), apart);
      if !same {
        DecidesIs(false, Arr(va), Arr(vb), caseSensitive, apart);
        return false;
      }
      aElement := aElement.next;
      bElement := bElement.next;
      i := i + 1;
    }
    KidIs(a.kids, i);
    KidIs(b.kids, i);
    r := aElement == bElement;
    DecidesIs(r, Arr(va), Arr(vb), caseSensitive, apart);
  }

  /** What is decided for children of trees apart is decided for their parents. */
  lemma {:induction false} KidsDecided(r: bool, x: Json, y: Json, cs: bool, kidsApart: bool, apart: bool)
    requires Decides(r, x, y, cs, kidsApart) && (apart ==> kidsApart)
    ensures r ==> Like(x, y, cs, apart)
    ensures !r ==> !Like(x, y, cs, true)
  {
    hide SameMeaning;
    DecidesIs(r, x, y, cs, kidsApart);
  }

  /** Children are less deep than their parents, and apart if those are. */
  lemma {:induction false} SmallerPair(a: Item, b: Item, i: nat, j: nat)
    requires Valid(a) && Valid(b) && i < |a.kids| && j < |b.kids|
    ensures Nodes(a) !! Nodes(b) ==> Nodes(a.kids[i]) !! Nodes(b.kids[j])
    ensures Valid(a.kids[i]) && Valid(b.kids[j]) && Size(a.kids[i]) + Size(b.kids[j]) < Size(a) + Size(b)
  {
    hide *;
    SmallerKid(a, i);
    SmallerKid(b, j);
    KidIsValid(a, i);
    KidIsValid(b, j);
    NodesOf(a);
    NodesOf(b);
    NodesOf(a.kids[i]);
    NodesOf(b.kids[j]);
    LessDeep(a, i);
    LessDeep(b, j);
  }

  lemma {:induction false} NodesOf(a: Item)
    ensures Nodes(a) == a.Repr
  {
  }

  lemma {:induction false} LessDeep(item: Item, i: nat)
    requires Valid(item) && i < |item.kids|
    ensures Valid(item.kids[i]) && Size(item.kids[i]) < Size(item)
  {
    hide Nesting;
    MemberOf(item, i);
    if item.kind == ArrayKind {
      ValueAt(item.kids, Below(item), i);
      ItemNesting(Values(item.kids, Below(item)), i);
    } else {
      MemberNesting(MembersOf(item), i);
    }
  }

  lemma {:induction false} ItemNesting(items: seq<Json>, i: nat)
    requires i < |items|
    ensures Nesting(items[i]) < Nesting(Arr(items))
  {
    if i > 0 { ItemNesting(items[1..], i - 1); }
  }

  lemma {:induction false} MemberNesting(members: seq<Member>, i: nat)
    requires i < |members|
    ensures Nesting(members[i].value) < Nesting(Obj(members))
  {
    if i > 0 { MemberNesting(members[1..], i - 1); }
  }

  /** Every member of `a` against the first of its name in `b`. */
  method CompareMembers(a: Item, b: Item, caseSensitive: bool) returns (r: bool)
    requires Valid(a) && Valid(b)
    ensures Covers(MembersOf(a), MembersOf(b), caseSensitive, true) ==> r
    ensures r ==> Covers(MembersOf(a), MembersOf(b), caseSensitive, Nodes(a) !! Nodes(b))
    decreases Size(a) + Size(b), 0
  {
    hide *;
    ghost var ma, mb, apart := MembersOf(a), MembersOf(b), Nodes(a) !! Nodes(b);
    FirstKid(a);
    KidIs(a.kids, 0);
    ghost var i := 0;
    var aElement := a.child;
    while aElement != null
      invariant i <= |a.kids| && aElement == KidOr(a.kids, i)
      invariant forall k :: 0 <= k < i ==> CoveredBy(ma[k], mb, caseSensitive, apart)
      decreases |a.kids| - i
    {
      KidIs(a.kids, i);
      var bElement := GetObjectItem(b, aElement.name, caseSensitive);
      ghost var j := FirstNamed(mb, aElement.name, caseSensitive);
      MemberOf(a, i);
      KidIs(b.kids, j);
      CoveredIs(ma[i], mb, caseSensitive, true);
      CoveredIs(ma[i], mb, caseSensitive, apart);
      CoversOne(ma, mb, caseSensitive, i);
      if bElement == null {
        return false;
      }
      MemberOf(b, j);
      KidLinks(a, i);
      KidIs(a.kids, i + 1);
      SmallerPair(a, b, i, j);
      var same := Compare(aElement, bElement, caseSensitive);
      KidsDecided(same, ma[i].value, mb[j].value, caseSensitive, Nodes(aElement) !! Nodes(bElement), apart);
      if !same {
        return false;
      }
      aElement := aElement.next;
      i := i + 1;
    }
    KidIs(a.kids, i);
    CoversAll(ma, mb, caseSensitive, apart);
    return true;
  }

  lemma {:induction false} CoveredIs(m: Member, b: seq<Member>, cs: bool, strict: bool)
    ensures var f := FirstNamed(b, m.key, cs);
            CoveredBy(m, b, cs, strict) <==> f < |b| && Like(m.value, b[f].value, cs, strict)
  {
  }

  lemma {:induction false} CoversOne(a: seq<Member>, b: seq<Member>, cs: bool, i: nat)
    requires i < |a|
    ensures Covers(a, b, cs, true) ==> CoveredBy(a[i], b, cs, true)
  {
    hide CoveredBy;
  }

  lemma {:induction false} CoversAll(a: seq<Member>, b: seq<Member>, cs: bool, strict: bool)
    requires forall i :: 0 <= i < |a| ==> CoveredBy(a[i], b, cs, strict)
    ensures Covers(a, b, cs, strict)
  {
    hide CoveredBy;
  }

  // ---- copying

  /** A list still being linked: forward, and backward but for the first item's pointer to the last. */
  ghost predicate Partial(kids: seq<Item>, all: set<Item>)
    reads all
  {
    && (forall j :: 0 <= j < |kids| ==> kids[j] in all)
    && (forall j :: 0 <= j < |kids| ==> kids[j].next == KidOr(kids, j + 1) && (j > 0 ==> kids[j].prev == kids[j - 1]))
  }

  /** Trees of which none shares a node with another, given with their values. */
  ghost predicate Apart(kids: seq<Item>, all: set<Item>, ms: seq<Member>)
    reads all
  {
    && |ms| == |kids|
    && (forall i :: 0 <= i < |kids| ==>
        kids[i] in all && kids[i].Repr <= all && Valid(kids[i]) && kids[i] in kids[i].Repr)
    && (forall i :: 0 <= i < |kids| ==> ms[i] == Member(kids[i].name, Tree(kids[i])))
    && forall i, j :: 0 <= i < j < |kids| ==> kids[i].Repr !! kids[j].Repr
  }

  lemma {:induction false} ApartIsFamily(kids: seq<Item>, all: set<Item>, ms: seq<Member>)
    requires Apart(kids, all, ms)
    ensures Family(kids, all) && Members(kids, all) == ms
  {
    assert Family(kids, all);
    forall i | 0 <= i < |kids| ensures Members(kids, all)[i] == ms[i] { MemberAt(kids, all, i); }
  }

  lemma {:induction false} ApartMore(kids: seq<Item>, all: set<Item>, ms: seq<Member>, c: Item)
    requires Apart(kids, all, ms) && Valid(c) && c.Repr !! all
    ensures Apart(kids + [c], all + c.Repr, ms + [Member(c.name, Tree(c))])
  {
    hide Tree;
  }

  /** Pointing a list's last item, and a new one, at each other leaves all their trees as they are. */
  method LinkPair(next: Item, newchild: Item, ghost kids: seq<Item>, ghost all: set<Item>, ghost ms: seq<Member>)
    requires Apart(kids, all, ms) && kids != [] && next == kids[|kids| - 1] && Valid(newchild) && newchild.Repr !! all
    modifies next`next, newchild`prev
    ensures next.next == newchild && newchild.prev == next
    ensures Apart(kids, all, ms) && Valid(newchild) && Tree(newchild) == old(Tree(newchild))
  {
    hide Valid;
    hide Tree;
    OwnNode(newchild);
    next.next := newchild;
    newchild.prev := next;
  }

  lemma {:induction false} OwnNode(item: Item)
    requires Valid(item)
    ensures item in item.Repr
  {
  }

  /** Link one more copy to the end. */
  method LinkCopy(newitem: Item, next: Item?, newchild: Item, ghost kids: seq<Item>, ghost all: set<Item>,
                  ghost ms: seq<Member>)
    requires Apart(kids, all, ms) && Partial(kids, all) && Valid(newchild) && newchild.Repr !! all
             && newchild.next == null
    requires next == (if kids == [] then null else kids[|kids| - 1]) && newitem !in all + newchild.Repr
    requires newitem.child == KidOr(kids, 0)
    modifies newitem`child, kids`next, newchild`prev
    ensures Apart(kids + [newchild], all + newchild.Repr, ms + [Member(newchild.name, old(Tree(newchild)))])
    ensures Partial(kids + [newchild], all + newchild.Repr) && newitem.child == KidOr(kids + [newchild], 0)
  {
    hide Valid;
    hide Tree;
    hide Apart;
    OwnNode(newchild);
    LastIsIn(kids, all, ms);
    if next != null {
      LinkPair(next, newchild, kids, all, ms);
    } else {
      newitem.child := newchild;
    }
    ApartMore(kids, all, ms, newchild);
    MorePartial(kids, all, newchild);
  }

  lemma {:induction false} LastIsIn(kids: seq<Item>, all: set<Item>, ms: seq<Member>)
    requires Apart(kids, all, ms)
    ensures Distinct(kids) && forall j :: 0 <= j < |kids| ==> kids[j] in all
  {
  }

  lemma {:induction false} MorePartial(kids: seq<Item>, all: set<Item>, c: Item)
    requires (forall j :: 0 <= j < |kids| ==> kids[j] in all) && c in c.Repr && c.next == null
    requires forall j :: 0 <= j < |kids| ==>
               kids[j].next == (if j + 1 == |kids| then c else kids[j + 1]) && (j > 0 ==> kids[j].prev == kids[j - 1])
    requires kids != [] ==> c.prev == kids[|kids| - 1]
    ensures Partial(kids + [c], all + c.Repr)
  {
    var z := kids + [c];
    forall j | 0 <= j < |z| ensures z[j].next == KidOr(z, j + 1) && (j > 0 ==> z[j].prev == z[j - 1]) {
      assert z[|kids|] == c;
      if j < |kids| {
        assert z[j] == kids[j] && kids[j].next == if j + 1 == |kids| then c else kids[j + 1];
        assert z[j + 1] == if j + 1 == |kids| then c else kids[j + 1];
      }
      if j > 0 { assert z[j - 1] == kids[j - 1]; }
    }
  }

  /** The first item's pointer to the last makes the list whole; the trees stay as they are. */
  method CloseRing(first: Item, last: Item, ghost kids: seq<Item>, ghost all: set<Item>, ghost ms: seq<Member>)
    requires Apart(kids, all, ms) && kids != [] && first == kids[0] && last == kids[|kids| - 1]
    modifies first`prev
    ensures Apart(kids, all, ms) && first.prev == last
  {
    hide Valid;
    hide Tree;
    first.prev := last;
  }

  lemma {:induction false} RingLinked(head: Item?, kids: seq<Item>)
    requires Distinct(kids) && head == KidOr(kids, 0)
    requires forall j :: 0 <= j < |kids| ==>
             kids[j].next == KidOr(kids, j + 1) && (j > 0 ==> kids[j].prev == kids[j - 1])
    requires kids != [] ==> kids[0].prev == kids[|kids| - 1]
    ensures Linked(head, kids)
  {
  }

  lemma {:induction false} PartialLinks(kids: seq<Item>, all: set<Item>)
    requires Partial(kids, all)
    ensures forall j :: 0 <= j < |kids| ==>
            kids[j].next == KidOr(kids, j + 1) && (j > 0 ==> kids[j].prev == kids[j - 1])
  {
  }

  /** The copy with the children's copies linked: the first points back to the last. */
  method Finish(newitem: Item, newchild: Item?, ghost kids: seq<Item>, ghost all: set<Item>, ghost ms: seq<Member>)
    requires Apart(kids, all, ms) && Partial(kids, all) && newitem !in all && newitem.child == KidOr(kids, 0)
    requires newchild == (if kids == [] then null else kids[|kids| - 1]) && (kids != [] ==> IsContainer(newitem.kind))
    modifies newitem`kids, newitem`Repr, kids`prev
    ensures Valid(newitem) && newitem.Repr == all + {newitem} && MembersOf(newitem) == ms
  {
    hide *;
    LastIsIn(kids, all, ms);
    PartialLinks(kids, all);
    KidIs(kids, 0);
    if newitem.child != null {
      CloseRing(newitem.child, newchild, kids, all, ms);
    }
    DistinctKids(kids);
    RingLinked(newitem.child, kids);
    ApartIsFamily(kids, all, ms);
    newitem.kids := kids;
    newitem.Repr := all + {newitem};
    NowValid(newitem, all);
  }

  lemma {:induction false} DistinctKids(kids: seq<Item>)
    requires Distinct(kids)
    ensures forall i, j :: 0 <= i < j < |kids| ==> kids[i] != kids[j]
  {
  }

  lemma {:induction false} NowValid(item: Item, all: set<Item>)
    requires item !in all && item.Repr == all + {item} && Family(item.kids, all)
             && (item.kids != [] ==> IsContainer(item.kind))
    requires Distinct(item.kids) && Linked(item.child, item.kids)
    ensures Valid(item) && MembersOf(item) == Members(item.kids, all)
  {
    assert item.Repr - {item} == all;
  }

  method CopyVars(item: Item) returns (newitem: Item)
    ensures fresh(newitem) && newitem.kind == item.kind && newitem.valueint == item.valueint
    ensures newitem.valuestring == item.valuestring && newitem.name == item.name
    ensures newitem.next == newitem.prev == newitem.child == null && newitem.kids == [] && newitem.Repr == {newitem}
  {
    newitem := new Item();
    newitem.kind := item.kind;
    newitem.valueint := item.valueint;
    newitem.valuestring := item.valuestring;
    newitem.name := item.name;
  }

  /** A tree without its children. */
  function Shallow(v: Json): Json {
    match v
    case Arr(_) => Arr([])
    case Obj(_) => Obj([])
    case _ => v
  }

  /** A copy is a tree of new items with the same value and name, or the item alone without its children. */
  method Duplicate(item: Item, recurse: bool) returns (newitem: Item)
    requires Valid(item)
    ensures Valid(newitem) && fresh(newitem.Repr)
    ensures Tree(newitem) == if recurse then Tree(item) else Shallow(Tree(item))
    ensures newitem.kind == item.kind && newitem.valueint == item.valueint && newitem.valuestring == item.valuestring
    ensures newitem.name == item.name && newitem.next == newitem.prev == null && (!recurse ==> newitem.child == null)
    decreases item.Repr, 2
  {
    hide *;
    newitem := CopyVars(item);
    if !recurse {
      AloneIsShallow(item, newitem);
      return;
    }
    OwnNode(item);
    CopyChildren(item, newitem);
    SameTree(item, newitem);
  }

  method CopyChildren(item: Item, newitem: Item)
    requires Valid(item) && newitem !in item.Repr && newitem.kind == item.kind && newitem.child == null
    modifies newitem`child, newitem`kids, newitem`Repr
    ensures Valid(newitem) && newitem in newitem.Repr && fresh(newitem.Repr - {newitem})
            && MembersOf(newitem) == MembersOf(item)
    decreases item.Repr, 1
  {
    hide *;
    OwnNode(item);
    var child := item.child;
    FirstKid(item);
    OnlyContainers(item);
    var next: Item?, newchild: Item? := null, null;
    ghost var i := 0;
    ghost var copies: seq<Item>, all: set<Item> := [], {};
    ghost var members := MembersOf(item);
    StartCopies();
    while child != null
      invariant i <= |item.kids| && child == KidOr(item.kids, i) && |copies| == i
      invariant Valid(item) && MembersOf(item) == members && fresh(all) && newitem !in all
      invariant Apart(copies, all, members[..i]) && Partial(copies, all) && newitem.child == KidOr(copies, 0)
      invariant next == newchild == if copies == [] then null else copies[|copies| - 1]
      decreases |item.kids| - i
    {
      KidIs(item.kids, i);
      newchild := CopyOne(item, i, child);
      KidLinks(item, i);
      OwnNode(newchild);
      LastIsIn(copies, all, members[..i]);
      LinkCopy(newitem, next, newchild, copies, all, members[..i]);
      copies, all := copies + [newchild], all + newchild.Repr;
      next := newchild;
      child := child.next;
      i := i + 1;
    }
    KidIs(item.kids, i);
    LastIsIn(copies, all, members[..i]);
    assert members[..i] == members;
    Finish(newitem, newchild, copies, all, members[..i]);
  }

  method CopyOne(item: Item, ghost i: nat, child: Item) returns (newchild: Item)
    requires Valid(item) && i < |item.kids| && child == item.kids[i]
    ensures Valid(newchild) && fresh(newchild.Repr) && newchild.next == null
    ensures MembersOf(item)[..i + 1] == MembersOf(item)[..i] + [Member(newchild.name, Tree(newchild))]
    decreases item.Repr, 0
  {
    hide *;
    KidIsValid(item, i);
    MemberOf(item, i);
    SmallerKid(item, i);
    newchild := Duplicate(child, true);
  }

  lemma {:induction false} SmallerKid(item: Item, i: nat)
    requires Valid(item) && i < |item.kids|
    ensures item.kids[i].Repr < item.Repr
  {
    KidIsValid(item, i);
  }

  lemma {:induction false} OnlyContainers(item: Item)
    requires Valid(item)
    ensures item.kids != [] ==> IsContainer(item.kind)
  {
  }

  lemma {:induction false} StartCopies()
    ensures Apart([], {}, []) && Partial([], {}) && KidOr([], 0) == null
  {
  }

  lemma {:induction false} AloneIsShallow(item: Item, copy: Item)
    requires Valid(item) && copy.kids == [] && copy.Repr == {copy} && copy.child == null
    requires copy.kind == item.kind && copy.valueint == item.valueint && copy.valuestring == item.valuestring
    ensures Valid(copy) && Tree(copy) == Shallow(Tree(item))
  {
  }

  lemma {:induction false} SameTree(item: Item, copy: Item)
    requires Valid(item) && Valid(copy) && MembersOf(item) == MembersOf(copy)
    requires copy.kind == item.kind && copy.valueint == item.valueint && copy.valuestring == item.valuestring
    ensures Tree(copy) == Tree(item)
  {
    if item.kind == ArrayKind {
      forall i | 0 <= i < |item.kids| ensures Values(item.kids, Below(item))[i] == Values(copy.kids, Below(copy))[i] {
        MemberOf(item, i);
        MemberOf(copy, i);
        ValueAt(item.kids, Below(item), i);
        ValueAt(copy.kids, Below(copy), i);
      }
      assert Values(item.kids, Below(item)) == Values(copy.kids, Below(copy));
    }
  }

  /** A tree compares equal to its copy exactly when members of one name always mean the same. */
  method CompareWithCopy(item: Item, caseSensitive: bool) returns (copy: Item, equal: bool)
    requires Valid(item)
    ensures Valid(copy) && fresh(copy.Repr) && Tree(copy) == Tree(item)
    ensures equal <==> Consistent(Tree(item), caseSensitive)
  {
    hide Valid;
    hide Tree;
    OwnNode(item);
    copy := Duplicate(item, true);
    OwnNode(copy);
    equal := Compare(item, copy, caseSensitive);
    DecidesIs(equal, Tree(item), Tree(copy), caseSensitive, true);
  }
}
