/** What a tree means, whatever the order of its objects' members, and when comparing decides it. */
module JsonMeaning {
  import opened Bytes
  import opened JsonText

  datatype Meaning =
    | MeansNull
    | MeansFalse
    | MeansTrue
    | MeansNum(n: int)
    | MeansStr(s: CString)
    | MeansArr(items: seq<Meaning>)
    | MeansObj(members: map<Text, Meaning>)

  function ToLower(b: Byte): Byte { if 65 <= b <= 90 then b + 32 else b }

  /** A key as it is compared: letter by letter, or in lower case. */
  function Name(key: Text, caseSensitive: bool): Text {
    if caseSensitive then key else seq(|key|, i requires 0 <= i < |key| => ToLower(key[i]))
  }

  const LOWER: Text := [97, 98, 99, 100, 101, 102, 103, 104, 105, 106, 107, 108, 109, 110, 111, 112, 113, 114, 115, 116,
                        117, 118, 119, 120, 121, 122]
  const UPPER: Text := [65, 66, 67, 68, 69, 70, 71, 72, 73, 74, 75, 76, 77, 78, 79, 80, 81, 82, 83, 84, 85, 86, 87, 88,
      89,
                        90]

  /** The `i`-th letter, in lower and in upper case. */
  predicate Cases(a: Byte, b: Byte, i: nat)
    requires i < 26
  {
    a == LOWER[i] && b == UPPER[i]
  }

  /** The same byte, or one of the 26 letters in its two cases. */
  predicate SameLetter(a: Byte, b: Byte) {
    a == b || (exists i :: 0 <= i < 26 && Cases(a, b, i)) || exists i :: 0 <= i < 26 && Cases(b, a, i)
  }

  lemma {:induction false} CasesAre(a: Byte, b: Byte, i: nat)
    requires i < 26
    ensures Cases(a, b, i) <==> a == 97 + i && b == 65 + i
  {
    assert LOWER[i] == 97 + i && UPPER[i] == 65 + i;
  }

  lemma {:induction false} CasesAreLowered(a: Byte, b: Byte)
    ensures (exists i :: 0 <= i < 26 && Cases(a, b, i)) <==> 65 <= b <= 90 && a == ToLower(b)
  {
    hide Cases;
    if 65 <= b <= 90 { CasesAre(a, b, b - 65); }
    if i :| 0 <= i < 26 && Cases(a, b, i) { CasesAre(a, b, i); }
  }

  lemma {:induction false} LowerIsLetter(a: Byte, b: Byte)
    ensures ToLower(a) == ToLower(b) <==> SameLetter(a, b)
  {
    hide Cases;
    CasesAreLowered(a, b);
    CasesAreLowered(b, a);
  }

  /** Names are the same byte by byte, or letter by letter whatever the case. */
  lemma {:induction false} NamesAreLetters(a: Text, b: Text)
    ensures Name(a, true) == Name(b, true) <==> a == b
    ensures Name(a, false) == Name(b, false) <==> |a| == |b| && forall i :: 0 <= i < |a| ==> SameLetter(a[i], b[i])
  {
    hide ToLower;
    hide SameLetter;
    if |a| == |b| {
      forall i | 0 <= i < |a|
        ensures Name(a, false)[i] == Name(b, false)[i] <==> SameLetter(a[i], b[i])
      {
        LowerIsLetter(a[i], b[i]);
      }
    } else {
      assert |Name(a, false)| == |a| && |Name(b, false)| == |b|;
    }
  }

  function Means(v: Json, cs: bool): Meaning
    decreases v, 1
  {
    match v
    case Null => MeansNull
    case False => MeansFalse
    case True => MeansTrue
    case Num(n) => MeansNum(n)
    case Str(s) => MeansStr(s)
    case Arr(items) => MeansArr(ItemsMean(items, cs))
    case Obj(members) => MeansObj(MembersMean(members, cs))
  }

  function ItemsMean(items: seq<Json>, cs: bool): (m: seq<Meaning>)
    ensures |m| == |items| && forall i :: 0 <= i < |items| ==> m[i] == Means(items[i], cs)
    decreases items, 0
  {
    if items == [] then [] else [Means(items[0], cs)] + ItemsMean(items[1..], cs)
  }

  /** An object gives each name the value of the first member of that name. */
  function MembersMean(members: seq<Member>, cs: bool): map<Text, Meaning>
    decreases members, 0
  {
    if members == [] then map[] else
      MembersMean(members[1..], cs)[Name(members[0].key, cs) := Means(members[0].value, cs)]
  }

  /** The first member that a name is taken for, or their number. */
  function FirstNamed(members: seq<Member>, key: Text, cs: bool): (i: nat)
    ensures i <= |members| && (i < |members| ==> Name(members[i].key, cs) == Name(key, cs))
    ensures forall k :: 0 <= k < i ==> Name(members[k].key, cs) != Name(key, cs)
  {
    if members == [] || Name(members[0].key, cs) == Name(key, cs) then 0 else 1 + FirstNamed(members[1..], key, cs)
  }

  predicate LikeFirst(members: seq<Member>, i: nat, cs: bool)
    requires i < |members|
    decreases members
  {
    var f := FirstNamed(members, members[i].key, cs);
    f <= i && Means(members[f].value, cs) == Means(members[i].value, cs)
  }

  /** In every object, a member of a name used before means the same as the first of that name. */
  ghost predicate Consistent(v: Json, cs: bool)
    decreases v, 1
  {
    match v
    case Arr(items) => forall i :: 0 <= i < |items| ==> Consistent(items[i], cs)
    case Obj(members) =>
      && (forall i :: 0 <= i < |members| ==> Consistent(members[i].value, cs))
      && (forall i :: 0 <= i < |members| ==> LikeFirst(members, i, cs))
    case _ => true
  }

  /** The trees mean the same, and a copy of either would compare equal to it. */
  ghost predicate SameMeaning(a: Json, b: Json, cs: bool) {
    Consistent(a, cs) && Consistent(b, cs) && Means(a, cs) == Means(b, cs)
  }

  /** The trees mean the same, and are consistent if that is asked for as well. */
  ghost predicate Like(a: Json, b: Json, cs: bool, strict: bool) {
    if strict then SameMeaning(a, b, cs) else Means(a, cs) == Means(b, cs)
  }

  /** Every member of `a` is like the first member of its name in `b`. */
  ghost predicate Covers(a: seq<Member>, b: seq<Member>, cs: bool, strict: bool) {
    forall i :: 0 <= i < |a| ==> CoveredBy(a[i], b, cs, strict)
  }

  ghost predicate CoveredBy(m: Member, b: seq<Member>, cs: bool, strict: bool) {
    var f := FirstNamed(b, m.key, cs);
    f < |b| && Like(m.value, b[f].value, cs, strict)
  }

  lemma {:induction false} MeaningOfName(members: seq<Member>, key: Text, cs: bool)
    ensures var m, f := MembersMean(members, cs), FirstNamed(members, key, cs);
            && (Name(key, cs) in m <==> f < |members|)
            && (f < |members| ==> m[Name(key, cs)] == Means(members[f].value, cs))
  {
    hide Means;
    hide Name;
    if members != [] && Name(members[0].key, cs) != Name(key, cs) {
      MeaningOfName(members[1..], key, cs);
    }
  }

  lemma {:induction false} NamesAreKeys(members: seq<Member>, name: Text, cs: bool)
    ensures name in MembersMean(members, cs) <==> exists i :: 0 <= i < |members| && Name(members[i].key, cs) == name
  {
    hide Means;
    hide Name;
    if members != [] {
      NamesAreKeys(members[1..], name, cs);
      if i: nat :| i < |members| && Name(members[i].key, cs) == name {
        if i > 0 { assert members[1..][i - 1] == members[i]; }
      }
      if j: nat :| j < |members[1..]| && Name(members[1..][j].key, cs) == name {
        assert members[j + 1] == members[1..][j];
      }
    }
  }

  /** A name stands for the same first member whichever key of that name is looked for. */
  lemma {:induction false} FirstOfName(members: seq<Member>, k: Text, l: Text, cs: bool)
    requires Name(k, cs) == Name(l, cs)
    ensures FirstNamed(members, k, cs) == FirstNamed(members, l, cs)
  {
    if members != [] { FirstOfName(members[1..], k, l, cs); }
  }

  lemma {:induction false} OwnFirst(members: seq<Member>, i: nat, cs: bool)
    requires i < |members|
    ensures FirstNamed(members, members[i].key, cs) <= i
  {
  }

  lemma {:induction false} CoverIsConsistent(a: seq<Member>, b: seq<Member>, cs: bool)
    requires Covers(a, b, cs, true)
    ensures Consistent(Obj(a), cs)
  {
    forall i | 0 <= i < |a| ensures Consistent(a[i].value, cs) && LikeFirst(a, i, cs) {
      OwnFirst(a, i, cs);
      var f := FirstNamed(a, a[i].key, cs);
      assert CoveredBy(a[i], b, cs, true) && CoveredBy(a[f], b, cs, true);
      FirstOfName(b, a[i].key, a[f].key, cs);
      hide FirstNamed;
      hide Means;
    }
    hide LikeFirst;
  }

  lemma {:induction false} CoverMeans(a: seq<Member>, b: seq<Member>, cs: bool, strict: bool, name: Text)
    requires Covers(a, b, cs, strict) && name in MembersMean(a, cs)
    ensures name in MembersMean(b, cs) && MembersMean(a, cs)[name] == MembersMean(b, cs)[name]
  {
    hide Name;
    hide FirstNamed;
    hide MembersMean;
    hide Means;
    hide Consistent;
    NamesAreKeys(a, name, cs);
    var i :| 0 <= i < |a| && Name(a[i].key, cs) == name;
    var key := a[i].key;
    OwnFirst(a, i, cs);
    MeaningOfName(a, key, cs);
    MeaningOfName(b, key, cs);
    var f := FirstNamed(a, key, cs);
    assert CoveredBy(a[f], b, cs, strict);
    FirstOfName(b, key, a[f].key, cs);
  }

  lemma {:induction false} ConsistentCovers(a: seq<Member>, b: seq<Member>, cs: bool)
    requires SameMeaning(Obj(a), Obj(b), cs)
    ensures Covers(a, b, cs, true)
  {
    forall i | 0 <= i < |a| ensures CoveredBy(a[i], b, cs, true) {
      assert LikeFirst(a, i, cs);
      MeaningOfName(a, a[i].key, cs);
      MeaningOfName(b, a[i].key, cs);
    }
  }

  lemma {:induction false} CoveredMeanings(a: seq<Member>, b: seq<Member>, cs: bool, strict: bool)
    requires Covers(a, b, cs, strict) && Covers(b, a, cs, strict)
    ensures Means(Obj(a), cs) == Means(Obj(b), cs)
  {
    hide Covers;
    var m, n := MembersMean(a, cs), MembersMean(b, cs);
    forall name | name in m ensures name in n && m[name] == n[name] { CoverMeans(a, b, cs, strict, name); }
    forall name | name in n ensures name in m { CoverMeans(b, a, cs, strict, name); }
    assert m == n;
  }

  /** Comparing members both ways decides the meaning of objects. */
  lemma {:induction false} CoverBothWays(a: seq<Member>, b: seq<Member>, cs: bool)
    ensures Covers(a, b, cs, true) && Covers(b, a, cs, true) <==> SameMeaning(Obj(a), Obj(b), cs)
    ensures Covers(a, b, cs, false) && Covers(b, a, cs, false) ==> Means(Obj(a), cs) == Means(Obj(b), cs)
  {
    hide Covers;
    hide Means;
    if Covers(a, b, cs, false) && Covers(b, a, cs, false) {
      CoveredMeanings(a, b, cs, false);
    }
    if Covers(a, b, cs, true) && Covers(b, a, cs, true) {
      CoverIsConsistent(a, b, cs);
      CoverIsConsistent(b, a, cs);
      CoveredMeanings(a, b, cs, true);
    }
    if SameMeaning(Obj(a), Obj(b), cs) {
      ConsistentCovers(a, b, cs);
      ConsistentCovers(b, a, cs);
    }
  }

  /** Arrays mean the same when their elements do, one by one. */
  lemma {:induction false} ItemsMeaning(a: seq<Json>, b: seq<Json>, cs: bool, strict: bool)
    ensures Like(Arr(a), Arr(b), cs, strict)
            <==> |a| == |b| && forall i :: 0 <= i < |a| ==> Like(a[i], b[i], cs, strict)
  {
    var m, n := ItemsMean(a, cs), ItemsMean(b, cs);
    if |a| == |b| && forall i :: 0 <= i < |a| ==> Like(a[i], b[i], cs, strict) {
      assert m == n;
    }
    if m == n {
      forall i | 0 <= i < |a| ensures Means(a[i], cs) == Means(b[i], cs) {
        assert m[i] == n[i];
      }
    }
  }

  // ---- trees that are always consistent

  /** No object has two members of one name. */
  ghost predicate UniqueNames(v: Json, cs: bool)
    decreases v
  {
    match v
    case Arr(items) => forall i :: 0 <= i < |items| ==> UniqueNames(items[i], cs)
    case Obj(members) =>
      && (forall i :: 0 <= i < |members| ==> UniqueNames(members[i].value, cs))
      && forall i, j :: 0 <= i < j < |members| ==> Name(members[i].key, cs) != Name(members[j].key, cs)
    case _ => true
  }

  lemma {:induction false} UniqueIsConsistent(v: Json, cs: bool)
    requires UniqueNames(v, cs)
    ensures Consistent(v, cs)
    decreases v
  {
    match v
    case Arr(items) =>
      forall i | 0 <= i < |items| ensures Consistent(items[i], cs) { UniqueIsConsistent(items[i], cs); }
    case Obj(members) =>
      forall i | 0 <= i < |members| ensures Consistent(members[i].value, cs) && LikeFirst(members, i, cs) {
        UniqueIsConsistent(members[i].value, cs);
        OwnFirst(members, i, cs);
      }
    case _ =>
  }

  /** {"a": 1, "a": 2} does not compare equal to its copy. */
  lemma {:induction false} TwoOfOneName(cs: bool)
    ensures !Consistent(Obj([Member([97], Num(1)), Member([97], Num(2))]), cs)
  {
    var members := [Member([97], Num(1)), Member([97], Num(2))];
    assert FirstNamed(members, members[1].key, cs) == 0;
    assert !LikeFirst(members, 1, cs);
  }

  // ---- numbers

  function Abs(x: real): real { if x < 0.0 then -x else x }

  const DBL_EPSILON: real := 1.0 / 4503599627370496.0

  function CompareDouble(a: real, b: real): bool {
    var maxVal := if Abs(a) > Abs(b) then Abs(a) else Abs(b);
    Abs(a - b) <= maxVal * DBL_EPSILON
  }

  /** For whole numbers of 32 bits the tolerance is less than one. */
  lemma {:induction false} IntsCompareExactly(a: Int32, b: Int32)
    ensures CompareDouble(a as real, b as real) <==> a == b
  {
    var x, y := a as real, b as real;
    var maxVal := if Abs(x) > Abs(y) then Abs(x) else Abs(y);
    assert maxVal <= 2147483648.0;
    assert maxVal * DBL_EPSILON <= 2147483648.0 * DBL_EPSILON < 1.0;
    if a < b { assert a + 1 <= b; assert x + 1.0 <= y; }
    if b < a { assert b + 1 <= a; assert y + 1.0 <= x; }
  }
}
