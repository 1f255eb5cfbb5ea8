/** The parser accepts exactly the texts of the grammar, and reads them as what they mean. */
module JsonExact {
  import opened Bytes
  import opened JsonString
  import opened JsonText
  import opened JsonGrammar
  import opened JsonRoundTrip
  import opened JsonSyntax
  import opened JsonLiterals

  // ---- how a value starts

  lemma {:induction false} NumeralStarts(n: Numeral)
    requires GoodNumeral(n)
    ensures var t := SpelledNumeral(n); t != [] && (t[0] == 45 || Digit(t[0]))
  {
    hide *;
    ReadsLongest(n, SpelledNumeral(n));
    GatedIs(SpelledNumeral(n));
  }

  lemma {:induction false} GatedIs(t: Text)
    requires Gated(t)
    ensures t != [] && (t[0] == 45 || Digit(t[0]))
  {
    DigitIs(t[0]);
  }

  /** A value's first byte tells its kind. */
  lemma {:induction false} Starts(d: Doc)
    requires Good(d)
    ensures var t := Spelled(d);
            && t != [] && t[0] > 32 && t[0] != 93
            && match d
               case WordDoc(v) => t[0] in [110, 102, 116]
               case NumberDoc(n) => t[0] == 45 || Digit(t[0])
               case StringDoc(_, _) => t[0] == 34
               case ArrayDoc(_, _) => t[0] == 91
               case ObjectDoc(_, _) => t[0] == 123
  {
    hide GoodString;
    hide GoodItems;
    hide GoodFields;
    hide SpelledNumeral;
    hide GoodNumeral;
    match d
    case NumberDoc(n) => NumeralStarts(n);
    case _ =>
  }

  /** The parser decides by the first byte. */
  lemma {:induction false} Dispatch(c: Text, p: nat, depth: nat)
    requires Terminated(c) && p < |c|
    ensures c[p] == 34 ==>
              ValueAt(c, p, depth) == match StringAt(c, p)
                                      case StringFail(o) => Fail(o)
                                      case StringOk(s, o) => Ok(Str(s), o)
    ensures c[p] == 45 || Digit(c[p]) ==> ValueAt(c, p, depth) == NumberAt(c, p)
    ensures c[p] == 91 ==> ValueAt(c, p, depth) == ArrayAt(c, p, depth)
    ensures c[p] == 123 ==> ValueAt(c, p, depth) == ObjectAt(c, p, depth)
  {
    hide ArrayAt;
    hide ObjectAt;
    hide NumberAt;
    hide StringAt;
    DigitIs(c[p]);
    NoWord(c, p);
  }

  lemma {:induction false} NoWord(c: Text, p: nat)
    requires p < |c|
    ensures StandsAt(NULL_TEXT, c, p) ==> c[p] == 110
    ensures StandsAt(FALSE_TEXT, c, p) ==> c[p] == 102
    ensures StandsAt(TRUE_TEXT, c, p) ==> c[p] == 116
  {
    if StandsAt(NULL_TEXT, c, p) { StandsFirst(NULL_TEXT, c, p); }
    if StandsAt(FALSE_TEXT, c, p) { StandsFirst(FALSE_TEXT, c, p); }
    if StandsAt(TRUE_TEXT, c, p) { StandsFirst(TRUE_TEXT, c, p); }
  }

  lemma {:induction false} WordRead(v: Json, c: Text, p: nat, depth: nat)
    requires Terminated(c) && p < |c| && (v.Null? || v.False? || v.True?) && StandsAt(Word(v), c, p)
    ensures ValueAt(c, p, depth) == Ok(v, p + |Word(v)|)
  {
    NoWord(c, p);
    StandsFirst(Word(v), c, p);
  }

  /** Anything else that is read is one of the three words. */
  lemma {:induction false} ReadWord(c: Text, p: nat, depth: nat) returns (v: Json)
    requires Terminated(c) && p < |c| && ValueAt(c, p, depth).Ok?
    requires c[p] != 34 && c[p] != 45 && !Digit(c[p]) && c[p] != 91 && c[p] != 123
    ensures (v.Null? || v.False? || v.True?) && StandsAt(Word(v), c, p) && ValueAt(c, p, depth) == Ok(v, p + |Word(v)|)
    ensures c[p] > 32
  {
    hide ArrayAt;
    hide ObjectAt;
    hide NumberAt;
    hide StringAt;
    DigitIs(c[p]);
    NoWord(c, p);
    v := ValueAt(c, p, depth).value;
  }

  // ---- gaps

  lemma {:induction false} GapSkipped(gap: Text, c: Text, p: nat)
    requires Gap(gap) && StandsAt(gap, c, p) && p + |gap| < |c|
    ensures Skip(c, p) == Skip(c, p + |gap|) && (c[p + |gap|] > 32 ==> Skip(c, p) == p + |gap|)
  {
    SkipText(gap, c, p);
  }

  lemma {:induction false} SkippedGap(c: Text, p: nat)
    requires p < |c|
    ensures var q := Skip(c, p); p <= q < |c| && Gap(c[p..q]) && (c[q] > 32 || q == |c| - 1)
  {
    RunGap(c, p);
    assert forall i :: 0 <= i < Skip(c, p) - p ==> c[p..Skip(c, p)][i] == c[p..SkipRun(c, p)][i];
  }

  lemma {:induction false} RunGap(c: Text, p: nat)
    requires p <= |c|
    ensures Gap(c[p..SkipRun(c, p)])
    decreases |c| - p
  {
    var q := SkipRun(c, p);
    if p < q {
      RunGap(c, p + 1);
      assert forall i :: 1 <= i < q - p ==> c[p..q][i] == c[p + 1..q][i - 1];
    }
  }

  // ---- from the grammar to the parser

  /** A number in front of something that could go on with it is not read to its end. */
  ghost predicate Ended(d: Doc, c: Text, p: nat) { d.NumberDoc? ==> Longest(c, p, p + |Spelled(d)|) }

  lemma {:induction false} StartStands(d: Doc, c: Text, p: nat)
    requires Good(d) && StandsAt(Spelled(d), c, p)
    ensures p < |c| && c[p] == Spelled(d)[0]
  {
    hide Good;
    hide Spelled;
    Starts(d);
    StandsFirst(Spelled(d), c, p);
  }

  /** A value of the grammar is read as what it means, to its end. */
  lemma {:induction false} DocRead(d: Doc, c: Text, p: nat, depth: nat)
    requires Terminated(c) && Good(d) && StandsAt(Spelled(d), c, p) && Ended(d, c, p)
    requires depth + Nesting(Meaning(d)) <= NESTING_LIMIT
    ensures p < |c| && ValueAt(c, p, depth) == Ok(Meaning(d), p + |Spelled(d)|)
    decreases d, 2
  {
    hide *;
    StartStands(d, c, p);
    Starts(d);
    Dispatch(c, p, depth);
    Parts(d);
    match d
    case WordDoc(v) => WordRead(v, c, p, depth);
    case NumberDoc(n) =>
      NumberEnded(n, c, p);
      NumeralRead(n, c, p);
    case StringDoc(body, us) => LiteralRead(body, us, c, p);
    case ArrayDoc(gap, items) => ArrayDocRead(gap, items, c, p, depth);
    case ObjectDoc(gap, fields) => ObjectDocRead(gap, fields, c, p, depth);
  }

  lemma {:induction false} NumberEnded(n: Numeral, c: Text, p: nat)
    requires Ended(NumberDoc(n), c, p)
    ensures Longest(c, p, p + |SpelledNumeral(n)|)
  {
    hide SpelledNumeral;
    hide Longest;
  }

  lemma {:induction false} Parts(d: Doc)
    requires Good(d)
    ensures match d
            case WordDoc(v) => (v.Null? || v.False? || v.True?) && Spelled(d) == Word(v) && Meaning(d) == v
            case NumberDoc(n) =>
              && GoodNumeral(n) && |SpelledNumeral(n)| <= 63 && Spelled(d) == SpelledNumeral(n)
              && Meaning(d) == Num(NumeralMeaning(n))
            case StringDoc(body, us) =>
              && GoodString(body, us) && GoodUnits(us) && Spelled(d) == SpelledString(body)
              && Meaning(d) == Str(StringMeaning(us))
            case ArrayDoc(gap, items) =>
              && Gap(gap) && GoodItems(items) && Meaning(d) == Arr(ItemsMeant(items))
              && Nesting(Meaning(d)) == 1 + ItemsNesting(ItemsMeant(items))
            case ObjectDoc(gap, fields) =>
              && Gap(gap) && GoodFields(fields) && Meaning(d) == Obj(FieldsMeant(fields))
              && Nesting(Meaning(d)) == 1 + MembersNesting(FieldsMeant(fields))
  {
    hide GoodNumeral;
    hide GoodUnits;
    hide Closed;
    hide SpelledUnits;
    hide SpelledNumeral;
    hide SpelledString;
    hide SpelledItems;
    hide SpelledFields;
    hide GoodItems;
    hide GoodFields;
    hide ItemsMeant;
    hide FieldsMeant;
    hide ItemsNesting;
    hide MembersNesting;
    hide NumeralMeaning;
    hide StringMeaning;
    hide Gap;
  }

  lemma {:induction false} ArrayStands(gap: Text, items: seq<Item>, c: Text, p: nat)
    requires StandsAt(Spelled(ArrayDoc(gap, items)), c, p)
    ensures p + 1 < |c| && c[p] == 91
    ensures |Spelled(ArrayDoc(gap, items))| == 2 + |if items == [] then gap else SpelledItems(items)|
    ensures StandsAt((if items == [] then gap else SpelledItems(items)) + [93], c, p + 1)
  {
    hide SpelledItems;
    var inner := if items == [] then gap else SpelledItems(items);
    StandsSplit([91], inner + [93], c, p);
    StandingByte([91], c, p, 0);
  }

  lemma {:induction false} ArrayDocRead(gap: Text, items: seq<Item>, c: Text, p: nat, depth: nat)
    requires Terminated(c) && Gap(gap) && GoodItems(items) && StandsAt(Spelled(ArrayDoc(gap, items)), c, p)
    requires depth + 1 + ItemsNesting(ItemsMeant(items)) <= NESTING_LIMIT
    ensures p < |c| && c[p] == 91
    ensures ArrayAt(c, p, depth) == Ok(Arr(ItemsMeant(items)), p + |Spelled(ArrayDoc(gap, items))|)
    decreases items, 1
  {
    hide *;
    ArrayStands(gap, items, c, p);
    if items == [] {
      StandsThen(gap, 93, c, p + 1);
      GapSkipped(gap, c, p + 1);
      NoItems();
      EmptyArray(c, p, depth);
    } else {
      StandsThen(SpelledItems(items), 93, c, p + 1);
      FirstItem(items, c, p + 1);
      SkipTwice(c, p + 1);
      ItemsRead(items, c, Skip(c, p + 1) - 1, p + 1, depth + 1);
      FullArray(c, p, depth, ItemsMeant(items), p + |Spelled(ArrayDoc(gap, items))|);
    }
  }

  lemma {:induction false} NoItems()
    ensures GoodItems([]) && ItemsMeant([]) == [] && GoodFields([]) && FieldsMeant([]) == []
  {
  }

  lemma {:induction false} StandsThen(t: Text, b: Byte, c: Text, p: nat)
    requires StandsAt(t + [b], c, p)
    ensures StandsAt(t, c, p) && p + |t| < |c| && c[p + |t|] == b
  {
    StandsSplit(t, [b], c, p);
    StandingByte([b], c, p + |t|, 0);
  }

  lemma {:induction false} EmptyArray(c: Text, p: nat, depth: nat)
    requires Terminated(c) && p + 1 < |c| && c[p] == 91 && depth < NESTING_LIMIT && c[Skip(c, p + 1)] == 93
    ensures ArrayAt(c, p, depth) == Ok(Arr([]), Skip(c, p + 1) + 1)
  {
  }

  lemma {:induction false} FullArray(c: Text, p: nat, depth: nat, vs: seq<Json>, o: nat)
    requires Terminated(c) && p + 1 < |c| && c[p] == 91 && depth < NESTING_LIMIT && c[Skip(c, p + 1)] != 93
    requires ItemsAt(c, Skip(c, p + 1) - 1, depth + 1) == ItemsOk(vs, o)
    ensures ArrayAt(c, p, depth) == Ok(Arr(vs), o)
  {
    hide ItemsAt;
  }

  /** The parts of the first item, and what stands after it. */
  lemma {:induction false} ItemStands(items: seq<Item>, c: Text, q: nat)
    requires items != [] && GoodItems(items) && StandsAt(SpelledItems(items), c, q)
    ensures var i := items[0];
            var x := q + |i.before|;
            var o := x + |Spelled(i.value)|;
            var s := o + |i.after|;
            && Gap(i.before) && Good(i.value) && Gap(i.after) && GoodItems(items[1..])
            && StandsAt(i.before, c, q) && StandsAt(Spelled(i.value), c, x) && StandsAt(i.after, c, o)
            && ItemsMeant(items) == [Meaning(i.value)] + ItemsMeant(items[1..])
            && (if |items| == 1 then s == q + |SpelledItems(items)| && ItemsMeant(items[1..]) == []
                else s < |c| && c[s] == 44 && StandsAt(SpelledItems(items[1..]), c, s + 1)
                     && s + 1 + |SpelledItems(items[1..])| == q + |SpelledItems(items)|)
  {
    hide *;
    ItemsParts(items);
    var i := items[0];
    var x := q + |i.before|;
    var o := x + |Spelled(i.value)|;
    var s := o + |i.after|;
    var more: Text := if |items| == 1 then [] else [44] + SpelledItems(items[1..]);
    StandsSplit(i.before, Spelled(i.value) + (i.after + more), c, q);
    StandsSplit(Spelled(i.value), i.after + more, c, x);
    StandsSplit(i.after, more, c, o);
    if |items| > 1 {
      StandsSplit([44], SpelledItems(items[1..]), c, s);
      StandingByte([44], c, s, 0);
    }
  }

  lemma {:induction false} ItemsParts(items: seq<Item>)
    requires items != [] && GoodItems(items)
    ensures var i := items[0];
            && Gap(i.before) && Good(i.value) && Gap(i.after) && GoodItems(items[1..])
            && ItemsMeant(items) == [Meaning(i.value)] + ItemsMeant(items[1..])
            && SpelledItems(items) == i.before + (Spelled(i.value)
                + (i.after + if |items| == 1 then [] else [44] + SpelledItems(items[1..])))
            && (|items| == 1 ==> ItemsMeant(items[1..]) == [])
  {
    hide Good;
    hide Meaning;
    hide Spelled;
    hide Gap;
  }

  lemma {:induction false} FirstItem(items: seq<Item>, c: Text, q: nat)
    requires items != [] && GoodItems(items) && StandsAt(SpelledItems(items), c, q)
    ensures q < |c| && Skip(c, q) == q + |items[0].before| && c[Skip(c, q)] != 93
  {
    hide *;
    ItemStands(items, c, q);
    StartStands(items[0].value, c, q + |items[0].before|);
    Starts(items[0].value);
    GapSkipped(items[0].before, c, q);
  }

  /** After a value, a gap and a byte that is no number's: the number is ended, and the gap is skipped. */
  lemma {:induction false} AfterValue(d: Doc, gap: Text, c: Text, x: nat)
    requires Good(d) && Gap(gap)
    requires var o := x + |Spelled(d)|; StandsAt(gap, c, o) && o + |gap| < |c| && c[o + |gap|] in [44, 93, 125]
    ensures var o := x + |Spelled(d)|; Ended(d, c, x) && Skip(c, o) == o + |gap|
  {
    hide Good;
    hide Spelled;
    hide StandsAt;
    hide Longest;
    hide Skip;
    hide IsNumberByte;
    var o := x + |Spelled(d)|;
    GapSkipped(gap, c, o);
    NumberBytes();
    if gap != [] {
      StandingByte(gap, c, o, 0);
      assert gap[0] <= 32;
    }
    NumeralEnds(c, x, o);
  }

  lemma {:induction false} ItemStep(c: Text, p: nat, depth: nat, v: Json, o: nat, rest: seq<Json>, r: nat)
    requires Terminated(c) && p + 1 < |c| && ValueAt(c, Skip(c, p + 1), depth) == Ok(v, o)
    requires var s := Skip(c, o);
             if rest == [] then c[s] == 93 && r == s + 1
             else c[s] == 44 && s + 1 < |c| && ItemsAt(c, s, depth) == ItemsOk(rest, r)
    ensures ItemsAt(c, p, depth) == ItemsOk([v] + rest, r)
  {
    hide ValueAt;
    hide Skip;
  }

  lemma {:induction false} MeantNesting(items: seq<Json>, v: Json, rest: seq<Json>)
    requires items == [v] + rest
    ensures Nesting(v) <= ItemsNesting(items) && ItemsNesting(rest) <= ItemsNesting(items)
  {
    assert items[1..] == rest;
    NestingSplit(items);
  }

  lemma {:induction false} ItemsRead(items: seq<Item>, c: Text, p: nat, q: nat, depth: nat)
    requires items != [] && Terminated(c) && GoodItems(items) && p + 1 < |c| && q < |c| && Skip(c, p + 1) == Skip(c, q)
    requires StandsAt(SpelledItems(items), c, q)
    requires var e := q + |SpelledItems(items)|; e < |c| && c[e] == 93
    requires depth + ItemsNesting(ItemsMeant(items)) <= NESTING_LIMIT
    ensures ItemsAt(c, p, depth) == ItemsOk(ItemsMeant(items), q + |SpelledItems(items)| + 1)
    decreases items, 0
  {
    hide *;
    ItemStands(items, c, q);
    FirstItem(items, c, q);
    var i, rest := items[0], items[1..];
    var x := q + |i.before|;
    var o := x + |Spelled(i.value)|;
    MeantNesting(ItemsMeant(items), Meaning(i.value), ItemsMeant(rest));
    AfterValue(i.value, i.after, c, x);
    DocRead(i.value, c, x, depth);
    if |items| > 1 {
      ItemsRead(rest, c, o + |i.after|, o + |i.after| + 1, depth);
      SomeItems(rest);
    }
    ItemStep(c, p, depth, Meaning(i.value), o, ItemsMeant(rest), q + |SpelledItems(items)| + 1);
  }

  lemma {:induction false} SomeItems(items: seq<Item>)
    requires items != [] && GoodItems(items)
    ensures ItemsMeant(items) != []
  {
  }

  // objects

  lemma {:induction false} ObjectStands(gap: Text, fields: seq<Field>, c: Text, p: nat)
    requires StandsAt(Spelled(ObjectDoc(gap, fields)), c, p)
    ensures p + 1 < |c| && c[p] == 123
    ensures |Spelled(ObjectDoc(gap, fields))| == 2 + |if fields == [] then gap else SpelledFields(fields)|
    ensures StandsAt((if fields == [] then gap else SpelledFields(fields)) + [125], c, p + 1)
  {
    hide SpelledFields;
    var inner := if fields == [] then gap else SpelledFields(fields);
    StandsSplit([123], inner + [125], c, p);
    StandingByte([123], c, p, 0);
  }

  lemma {:induction false} ObjectDocRead(gap: Text, fields: seq<Field>, c: Text, p: nat, depth: nat)
    requires Terminated(c) && Gap(gap) && GoodFields(fields) && StandsAt(Spelled(ObjectDoc(gap, fields)), c, p)
    requires depth + 1 + MembersNesting(FieldsMeant(fields)) <= NESTING_LIMIT
    ensures p < |c| && c[p] == 123
    ensures ObjectAt(c, p, depth) == Ok(Obj(FieldsMeant(fields)), p + |Spelled(ObjectDoc(gap, fields))|)
    decreases fields, 1
  {
    hide *;
    ObjectStands(gap, fields, c, p);
    if fields == [] {
      StandsThen(gap, 125, c, p + 1);
      GapSkipped(gap, c, p + 1);
      NoItems();
      EmptyObject(c, p, depth);
    } else {
      StandsThen(SpelledFields(fields), 125, c, p + 1);
      FirstField(fields, c, p + 1);
      SkipTwice(c, p + 1);
      FieldsRead(fields, c, Skip(c, p + 1) - 1, p + 1, depth + 1);
      FullObject(c, p, depth, FieldsMeant(fields), p + |Spelled(ObjectDoc(gap, fields))|);
    }
  }

  lemma {:induction false} EmptyObject(c: Text, p: nat, depth: nat)
    requires Terminated(c) && p + 1 < |c| && c[p] == 123 && depth < NESTING_LIMIT && c[Skip(c, p + 1)] == 125
    ensures ObjectAt(c, p, depth) == Ok(Obj([]), Skip(c, p + 1) + 1)
  {
  }

  lemma {:induction false} FullObject(c: Text, p: nat, depth: nat, ms: seq<Member>, o: nat)
    requires Terminated(c) && p + 1 < |c| && c[p] == 123 && depth < NESTING_LIMIT && c[Skip(c, p + 1)] != 125
    requires MembersAt(c, Skip(c, p + 1) - 1, depth + 1) == MembersOk(ms, o)
    ensures ObjectAt(c, p, depth) == Ok(Obj(ms), o)
  {
    hide MembersAt;
  }

  lemma {:induction false} FieldStands(fields: seq<Field>, c: Text, q: nat)
    requires fields != [] && GoodFields(fields) && StandsAt(SpelledFields(fields), c, q)
    ensures var f := fields[0];
            var x := q + |SpelledKey(f)|;
            var o := x + |Spelled(f.value)|;
            var s := o + |f.after|;
            && GoodKey(f) && Good(f.value) && Gap(f.after) && GoodFields(fields[1..]) && GoodUnits(f.units)
            && StandsAt(SpelledKey(f), c, q) && StandsAt(Spelled(f.value), c, x) && StandsAt(f.after, c, o)
            && FieldsMeant(fields) == [Member(StringMeaning(f.units), Meaning(f.value))] + FieldsMeant(fields[1..])
            && (if |fields| == 1 then s == q + |SpelledFields(fields)| && FieldsMeant(fields[1..]) == []
                else s < |c| && c[s] == 44 && StandsAt(SpelledFields(fields[1..]), c, s + 1)
                     && s + 1 + |SpelledFields(fields[1..])| == q + |SpelledFields(fields)|)
  {
    hide *;
    FieldsParts(fields);
    var f := fields[0];
    var x := q + |SpelledKey(f)|;
    var o := x + |Spelled(f.value)|;
    var s := o + |f.after|;
    var more: Text := if |fields| == 1 then [] else [44] + SpelledFields(fields[1..]);
    StandsSplit(SpelledKey(f), Spelled(f.value) + (f.after + more), c, q);
    StandsSplit(Spelled(f.value), f.after + more, c, x);
    StandsSplit(f.after, more, c, o);
    if |fields| > 1 {
      StandsSplit([44], SpelledFields(fields[1..]), c, s);
      StandingByte([44], c, s, 0);
    }
  }

  lemma {:induction false} FieldsParts(fields: seq<Field>)
    requires fields != [] && GoodFields(fields)
    ensures var f := fields[0];
            && GoodKey(f) && GoodUnits(f.units) && Good(f.value) && Gap(f.after) && GoodFields(fields[1..])
            && FieldsMeant(fields) == [Member(StringMeaning(f.units), Meaning(f.value))] + FieldsMeant(fields[1..])
            && SpelledFields(fields) == SpelledKey(f) + (Spelled(f.value)
                + (f.after + if |fields| == 1 then [] else [44] + SpelledFields(fields[1..])))
            && (|fields| == 1 ==> FieldsMeant(fields[1..]) == [])
  {
    hide Good;
    hide Meaning;
    hide StringMeaning;
    hide Spelled;
    hide SpelledKey;
    hide Gap;
    hide GoodUnits;
    hide Closed;
    hide SpelledUnits;
  }

  /** From before a key to the value after it. */
  lemma {:induction false} KeyRead(f: Field, c: Text, q: nat)
    requires Terminated(c) && GoodKey(f) && GoodUnits(f.units) && StandsAt(SpelledKey(f), c, q)
    requires var x := q + |SpelledKey(f)|; x < |c| && c[x] > 32
    ensures var k := q + |f.before|;
            var o := k + |SpelledString(f.body)|;
            var s := o + |f.colon|;
            && q < |c| && k < |c| && Skip(c, q) == k && c[k] == 34
                && StringAt(c, k) == StringOk(StringMeaning(f.units), o)
            && s + 1 < |c| && Skip(c, o) == s && c[s] == 58 && Skip(c, s + 1) == q + |SpelledKey(f)|
  {
    hide *;
    KeyStands(f, c, q);
    var k := q + |f.before|;
    var o := k + |SpelledString(f.body)|;
    var s := o + |f.colon|;
    KeyParts(f);
    QuotesStand(f.body, c, k);
    LiteralRead(f.body, f.units, c, k);
    GapSkipped(f.before, c, q);
    GapSkipped(f.colon, c, o);
    GapSkipped(f.lead, c, s + 1);
  }

  lemma {:induction false} KeyParts(f: Field)
    requires GoodKey(f)
    ensures Gap(f.before) && GoodString(f.body, f.units) && Gap(f.colon) && Gap(f.lead)
  {
    hide GoodString;
    hide Gap;
  }

  lemma {:induction false} KeyStands(f: Field, c: Text, q: nat)
    requires StandsAt(SpelledKey(f), c, q)
    ensures var k := q + |f.before|;
            var o := k + |SpelledString(f.body)|;
            var s := o + |f.colon|;
            && StandsAt(f.before, c, q) && StandsAt(SpelledString(f.body), c, k) && StandsAt(f.colon, c, o)
            && s < |c| && c[s] == 58 && StandsAt(f.lead, c, s + 1) && s + 1 + |f.lead| == q + |SpelledKey(f)|
  {
    hide StandsAt;
    hide SpelledString;
    var t := SpelledString(f.body);
    var k := q + |f.before|;
    var o := k + |t|;
    var s := o + |f.colon|;
    StandsSplit(f.before, t + (f.colon + ([58] + f.lead)), c, q);
    StandsSplit(t, f.colon + ([58] + f.lead), c, k);
    StandsSplit(f.colon, [58] + f.lead, c, o);
    StandsSplit([58], f.lead, c, s);
    StandingByte([58], c, s, 0);
  }

  lemma {:induction false} FirstField(fields: seq<Field>, c: Text, q: nat)
    requires Terminated(c) && fields != [] && GoodFields(fields) && StandsAt(SpelledFields(fields), c, q)
    ensures q < |c| && c[Skip(c, q)] == 34 && c[Skip(c, q)] != 125
  {
    hide *;
    FieldStands(fields, c, q);
    var x := q + |SpelledKey(fields[0])|;
    StartStands(fields[0].value, c, x);
    Starts(fields[0].value);
    KeyRead(fields[0], c, q);
  }

  lemma {:induction false} FieldStep(c: Text, p: nat, depth: nat, key: CString, o: nat, v: Json, o': nat,
                                     rest: seq<Member>, r: nat)
    requires Terminated(c) && p + 1 < |c| && StringAt(c, Skip(c, p + 1)) == StringOk(key, o)
    requires var s := Skip(c, o);
             s + 1 < |c| && c[s] == 58 && ValueAt(c, Skip(c, s + 1), depth) == Ok(v, o')
    requires var u := Skip(c, o');
             if rest == [] then c[u] == 125 && r == u + 1
             else c[u] == 44 && u + 1 < |c| && MembersAt(c, u, depth) == MembersOk(rest, r)
    ensures MembersAt(c, p, depth) == MembersOk([Member(key, v)] + rest, r)
  {
    hide ValueAt;
    hide StringAt;
    hide Skip;
  }

  lemma {:induction false} FieldsNesting(ms: seq<Member>, m: Member, rest: seq<Member>)
    requires ms == [m] + rest
    ensures Nesting(m.value) <= MembersNesting(ms) && MembersNesting(rest) <= MembersNesting(ms)
  {
    assert ms[1..] == rest;
    MembersNestingSplit(ms);
  }

  lemma {:induction false} FieldsRead(fields: seq<Field>, c: Text, p: nat, q: nat, depth: nat)
    requires fields != [] && Terminated(c) && GoodFields(fields) && p + 1 < |c| && q < |c|
    requires Skip(c, p + 1) == Skip(c, q) && StandsAt(SpelledFields(fields), c, q)
    requires var e := q + |SpelledFields(fields)|; e < |c| && c[e] == 125
    requires depth + MembersNesting(FieldsMeant(fields)) <= NESTING_LIMIT
    ensures MembersAt(c, p, depth) == MembersOk(FieldsMeant(fields), q + |SpelledFields(fields)| + 1)
    decreases fields, 0
  {
    hide *;
    FieldStands(fields, c, q);
    var f, rest := fields[0], fields[1..];
    var x := q + |SpelledKey(f)|;
    var o := x + |Spelled(f.value)|;
    StartStands(f.value, c, x);
    Starts(f.value);
    KeyRead(f, c, q);
    var m := Member(StringMeaning(f.units), Meaning(f.value));
    FieldsNesting(FieldsMeant(fields), m, FieldsMeant(rest));
    AfterValue(f.value, f.after, c, x);
    DocRead(f.value, c, x, depth);
    if |fields| > 1 {
      FieldsRead(rest, c, o + |f.after|, o + |f.after| + 1, depth);
      SomeFields(rest);
    }
    FieldStep(c, p, depth, m.key, q + |f.before| + |SpelledString(f.body)|, m.value, o, FieldsMeant(rest),
        q + |SpelledFields(fields)| + 1);
  }

  lemma {:induction false} SomeFields(fields: seq<Field>)
    requires fields != [] && GoodFields(fields)
    ensures FieldsMeant(fields) != []
  {
    hide Good;
    hide GoodKey;
    hide StringMeaning;
    hide Meaning;
  }

  // ---- from the parser to the grammar

  lemma {:induction false} StandsJoin(a: Text, b: Text, c: Text, p: nat)
    requires StandsAt(a, c, p) && StandsAt(b, c, p + |a|)
    ensures StandsAt(a + b, c, p)
  {
    Slice(c, p, |a|, |b|);
  }

  lemma {:induction false} ByteStands(b: Byte, c: Text, p: nat)
    requires p < |c| && c[p] == b
    ensures StandsAt([b], c, p)
  {
  }

  lemma {:induction false} SliceStands(c: Text, p: nat, q: nat)
    requires p <= q <= |c|
    ensures StandsAt(c[p..q], c, p)
  {
  }

  /** A value that the parser reads is one of the grammar. */
  lemma {:induction false} ReadDoc(c: Text, p: nat, depth: nat) returns (d: Doc)
    requires Terminated(c) && p < |c| && ValueAt(c, p, depth).Ok?
    ensures Good(d) && StandsAt(Spelled(d), c, p) && Ended(d, c, p) && c[p] > 32
    ensures ValueAt(c, p, depth) == Ok(Meaning(d), p + |Spelled(d)|)
    decreases |c| - p, 2
  {
    hide ValueAt;
    hide ArrayAt;
    hide ObjectAt;
    hide NumberAt;
    hide StringAt;
    hide StandsAt;
    hide GoodNumeral;
    hide GoodString;
    hide GoodItems;
    hide GoodFields;
    hide SpelledNumeral;
    hide SpelledString;
    hide SpelledItems;
    hide SpelledFields;
    hide Longest;
    hide NumeralMeaning;
    hide StringMeaning;
    Dispatch(c, p, depth);
    if c[p] == 34 {
      var body, us := ReadLiteral(c, p);
      d := StringDoc(body, us);
    } else if c[p] == 45 || Digit(c[p]) {
      var n := ReadNumeral(c, p);
      d := NumberDoc(n);
    } else if c[p] == 91 {
      d := ReadArray(c, p, depth);
    } else if c[p] == 123 {
      d := ReadObject(c, p, depth);
    } else {
      var v := ReadWord(c, p, depth);
      d := WordDoc(v);
    }
  }

  lemma {:induction false} ArrayIs(c: Text, p: nat, depth: nat)
    requires Terminated(c) && p < |c| && c[p] == 91 && ArrayAt(c, p, depth).Ok?
    ensures p + 1 < |c|
    ensures var q := Skip(c, p + 1);
            && p + 1 <= q < |c| && Gap(c[p + 1..q])
            && if c[q] == 93 then ArrayAt(c, p, depth) == Ok(Arr([]), q + 1)
               else ItemsAt(c, q - 1, depth + 1).ItemsOk?
                    && ArrayAt(c, p, depth) == Ok(Arr(ItemsAt(c, q - 1, depth + 1).items),
                                                  ItemsAt(c, q - 1, depth + 1).offset)
  {
    hide ItemsAt;
    hide Skip;
    SkippedGap(c, p + 1);
  }

  lemma {:induction false} EmptyArrayDoc(gap: Text, c: Text, p: nat)
    requires Gap(gap) && p < |c| && c[p] == 91 && StandsAt(gap, c, p + 1)
    requires p + 1 + |gap| < |c| && c[p + 1 + |gap|] == 93
    ensures var d := ArrayDoc(gap, []);
            Good(d) && StandsAt(Spelled(d), c, p) && Meaning(d) == Arr([]) && |Spelled(d)| == |gap| + 2
  {
    hide StandsAt;
    ByteStands(91, c, p);
    ByteStands(93, c, p + 1 + |gap|);
    StandsJoin(gap, [93], c, p + 1);
    StandsJoin([91], gap + [93], c, p);
  }

  lemma {:induction false} FullArrayDoc(items: seq<Item>, c: Text, p: nat)
    requires items != [] && GoodItems(items) && p < |c| && c[p] == 91 && StandsAt(SpelledItems(items) + [93], c, p + 1)
    ensures var d := ArrayDoc([], items);
            && Good(d) && StandsAt(Spelled(d), c, p) && Meaning(d) == Arr(ItemsMeant(items))
            && |Spelled(d)| == |SpelledItems(items)| + 2
  {
    hide StandsAt;
    hide GoodItems;
    hide SpelledItems;
    hide ItemsMeant;
    ByteStands(91, c, p);
    StandsJoin([91], SpelledItems(items) + [93], c, p);
  }

  /** A gap in front of the first item. */
  function Widened(gap: Text, items: seq<Item>): seq<Item>
    requires items != []
  {
    [items[0].(before := gap + items[0].before)] + items[1..]
  }

  lemma {:induction false} GapsJoin(a: Text, b: Text)
    requires Gap(a) && Gap(b)
    ensures Gap(a + b)
  {
  }

  lemma {:induction false} WidenedItems(gap: Text, items: seq<Item>)
    requires items != [] && GoodItems(items) && Gap(gap)
    ensures var w := Widened(gap, items);
            GoodItems(w) && SpelledItems(w) == gap + SpelledItems(items) && ItemsMeant(w) == ItemsMeant(items)
  {
    hide Good;
    hide Spelled;
    hide Meaning;
    hide Gap;
    var w := Widened(gap, items);
    var i := items[0];
    assert w[1..] == items[1..];
    GapsJoin(gap, i.before);
    var more: Text := if |items| == 1 then [] else [44] + SpelledItems(items[1..]);
    Regroup(gap, i.before, Spelled(i.value) + (i.after + more));
  }

  lemma {:induction false} Regroup(a: Text, b: Text, r: Text)
    ensures (a + b) + r == a + (b + r)
  {
  }

  lemma {:induction false} ReadArray(c: Text, p: nat, depth: nat) returns (d: Doc)
    requires Terminated(c) && p < |c| && c[p] == 91 && ArrayAt(c, p, depth).Ok?
    ensures d.ArrayDoc? && Good(d) && StandsAt(Spelled(d), c, p)
    ensures ArrayAt(c, p, depth) == Ok(Meaning(d), p + |Spelled(d)|)
    decreases |c| - p, 1
  {
    hide *;
    ArrayIs(c, p, depth);
    var q := Skip(c, p + 1);
    var gap := c[p + 1..q];
    SliceStands(c, p + 1, q);
    if c[q] == 93 {
      d := ArrayDoc(gap, []);
      EmptyArrayDoc(gap, c, p);
    } else {
      var items := ReadItems(c, q - 1, depth + 1);
      WidenedItems(gap, items);
      var w := Widened(gap, items);
      WidenedIsSome(gap, items);
      StandsJoin(gap, SpelledItems(items) + [93], c, p + 1);
      Regroup(gap, SpelledItems(items), [93]);
      d := ArrayDoc([], w);
      FullArrayDoc(w, c, p);
    }
  }

  lemma {:induction false} WidenedIsSome(gap: Text, items: seq<Item>)
    requires items != []
    ensures Widened(gap, items) != []
  {
  }

  lemma {:induction false} ItemsAre(c: Text, p: nat, depth: nat)
    requires Terminated(c) && p + 1 < |c| && ItemsAt(c, p, depth).ItemsOk?
    ensures var q := Skip(c, p + 1);
            && ValueAt(c, q, depth).Ok?
            && var o := ValueAt(c, q, depth).offset;
               var s := Skip(c, o);
               && p + 1 <= q < o < |c| && o <= s < |c| && Gap(c[p + 1..q]) && Gap(c[o..s])
               && if c[s] == 44 then
                    && s + 1 < |c| && ItemsAt(c, s, depth).ItemsOk?
                    && ItemsAt(c, p, depth) == ItemsOk([ValueAt(c, q, depth).value] + ItemsAt(c, s, depth).items,
                                                       ItemsAt(c, s, depth).offset)
                  else c[s] == 93 && ItemsAt(c, p, depth) == ItemsOk([ValueAt(c, q, depth).value], s + 1)
  {
    hide ValueAt;
    hide Skip;
    SkippedGap(c, p + 1);
    SkippedGap(c, ValueAt(c, Skip(c, p + 1), depth).offset);
  }

  lemma {:induction false} LastItemDoc(before: Text, d: Doc, after: Text, c: Text, q: nat)
    requires Gap(before) && Good(d) && Gap(after) && StandsAt(before, c, q) && StandsAt(Spelled(d), c, q + |before|)
    requires StandsAt(after, c, q + |before| + |Spelled(d)|)
    requires var s := q + |before| + |Spelled(d)| + |after|; s < |c| && c[s] == 93
    ensures var items := [Item(before, d, after)];
            && GoodItems(items) && StandsAt(SpelledItems(items) + [93], c, q) && ItemsMeant(items) == [Meaning(d)]
            && |SpelledItems(items)| == |before| + |Spelled(d)| + |after|
  {
    hide StandsAt;
    hide Good;
    hide Spelled;
    hide Meaning;
    hide Gap;
    var o := q + |before| + |Spelled(d)|;
    var items := [Item(before, d, after)];
    assert items[1..] == [];
    ByteStands(93, c, o + |after|);
    StandsJoin(after, [93], c, o);
    StandsJoin(Spelled(d), after + [93], c, q + |before|);
    StandsJoin(before, Spelled(d) + (after + [93]), c, q);
    assert SpelledItems(items) + [93] == before + (Spelled(d) + (after + [93])) by {
      assert after + [] == after;
    }
  }

  lemma {:induction false} NextItemDoc(before: Text, d: Doc, after: Text, rest: seq<Item>, c: Text, q: nat)
    requires Gap(before) && Good(d) && Gap(after) && rest != [] && GoodItems(rest)
    requires StandsAt(before, c, q) && StandsAt(Spelled(d), c, q + |before|)
    requires StandsAt(after, c, q + |before| + |Spelled(d)|)
    requires var s := q + |before| + |Spelled(d)| + |after|;
             s < |c| && c[s] == 44 && StandsAt(SpelledItems(rest) + [93], c, s + 1)
    ensures var items := [Item(before, d, after)] + rest;
            && GoodItems(items) && StandsAt(SpelledItems(items) + [93], c, q)
            && ItemsMeant(items) == [Meaning(d)] + ItemsMeant(rest)
            && |SpelledItems(items)| == |before| + |Spelled(d)| + |after| + 1 + |SpelledItems(rest)|
  {
    hide StandsAt;
    hide Good;
    hide Spelled;
    hide Meaning;
    hide Gap;
    var o := q + |before| + |Spelled(d)|;
    var items, r := [Item(before, d, after)] + rest, SpelledItems(rest);
    assert items[1..] == rest;
    ByteStands(44, c, o + |after|);
    StandsJoin([44], r + [93], c, o + |after|);
    StandsJoin(after, [44] + (r + [93]), c, o);
    StandsJoin(Spelled(d), after + ([44] + (r + [93])), c, q + |before|);
    StandsJoin(before, Spelled(d) + (after + ([44] + (r + [93]))), c, q);
    assert SpelledItems(items) == before + (Spelled(d) + (after + ([44] + r)));
    LastByte(before, Spelled(d), after, [44], r, [93]);
  }

  lemma {:induction false} LastByte(a: Text, b: Text, x: Text, y: Text, r: Text, z: Text)
    ensures (a + (b + (x + (y + r)))) + z == a + (b + (x + (y + (r + z))))
  {
  }

  lemma {:induction false} ReadItems(c: Text, p: nat, depth: nat) returns (items: seq<Item>)
    requires Terminated(c) && p + 1 < |c| && ItemsAt(c, p, depth).ItemsOk?
    ensures items != [] && GoodItems(items) && StandsAt(SpelledItems(items) + [93], c, p + 1)
    ensures ItemsAt(c, p, depth) == ItemsOk(ItemsMeant(items), p + 1 + |SpelledItems(items)| + 1)
    decreases |c| - p, 0
  {
    hide *;
    ItemsAre(c, p, depth);
    var q := Skip(c, p + 1);
    var d := ReadDoc(c, q, depth);
    var o := q + |Spelled(d)|;
    var s := Skip(c, o);
    var before, after := c[p + 1..q], c[o..s];
    SliceStands(c, p + 1, q);
    SliceStands(c, o, s);
    if c[s] == 44 {
      var rest := ReadItems(c, s, depth);
      items := [Item(before, d, after)] + rest;
      NextItemDoc(before, d, after, rest, c, p + 1);
    } else {
      items := [Item(before, d, after)];
      LastItemDoc(before, d, after, c, p + 1);
    }
  }

  // objects

  lemma {:induction false} ObjectIs(c: Text, p: nat, depth: nat)
    requires Terminated(c) && p < |c| && c[p] == 123 && ObjectAt(c, p, depth).Ok?
    ensures p + 1 < |c|
    ensures var q := Skip(c, p + 1);
            && p + 1 <= q < |c| && Gap(c[p + 1..q])
            && if c[q] == 125 then ObjectAt(c, p, depth) == Ok(Obj([]), q + 1)
               else MembersAt(c, q - 1, depth + 1).MembersOk?
                    && ObjectAt(c, p, depth) == Ok(Obj(MembersAt(c, q - 1, depth + 1).members),
                                                   MembersAt(c, q - 1, depth + 1).offset)
  {
    hide MembersAt;
    hide Skip;
    SkippedGap(c, p + 1);
  }

  lemma {:induction false} EmptyObjectDoc(gap: Text, c: Text, p: nat)
    requires Gap(gap) && p < |c| && c[p] == 123 && StandsAt(gap, c, p + 1)
    requires p + 1 + |gap| < |c| && c[p + 1 + |gap|] == 125
    ensures var d := ObjectDoc(gap, []);
            Good(d) && StandsAt(Spelled(d), c, p) && Meaning(d) == Obj([]) && |Spelled(d)| == |gap| + 2
  {
    hide StandsAt;
    ByteStands(123, c, p);
    ByteStands(125, c, p + 1 + |gap|);
    StandsJoin(gap, [125], c, p + 1);
    StandsJoin([123], gap + [125], c, p);
  }

  lemma {:induction false} FullObjectDoc(fields: seq<Field>, c: Text, p: nat)
    requires fields != [] && GoodFields(fields) && p < |c| && c[p] == 123
    requires StandsAt(SpelledFields(fields) + [125], c, p + 1)
    ensures var d := ObjectDoc([], fields);
            && Good(d) && StandsAt(Spelled(d), c, p) && Meaning(d) == Obj(FieldsMeant(fields))
            && |Spelled(d)| == |SpelledFields(fields)| + 2
  {
    hide StandsAt;
    hide GoodFields;
    hide SpelledFields;
    hide FieldsMeant;
    ByteStands(123, c, p);
    StandsJoin([123], SpelledFields(fields) + [125], c, p);
  }

  function WidenedFirst(gap: Text, fields: seq<Field>): seq<Field>
    requires fields != []
  {
    [fields[0].(before := gap + fields[0].before)] + fields[1..]
  }

  lemma {:induction false} WidenedFields(gap: Text, fields: seq<Field>)
    requires fields != [] && GoodFields(fields) && Gap(gap)
    ensures var w := WidenedFirst(gap, fields);
            && w != [] && GoodFields(w) && SpelledFields(w) == gap + SpelledFields(fields)
            && FieldsMeant(w) == FieldsMeant(fields)
  {
    hide Good;
    hide Spelled;
    hide Meaning;
    hide StringMeaning;
    hide SpelledString;
    hide GoodString;
    hide Gap;
    var w := WidenedFirst(gap, fields);
    var f := fields[0];
    assert w[1..] == fields[1..];
    GapsJoin(gap, f.before);
    var more: Text := if |fields| == 1 then [] else [44] + SpelledFields(fields[1..]);
    Regroup(gap, f.before, SpelledString(f.body) + (f.colon + ([58] + f.lead)));
    Regroup(gap, SpelledKey(f), Spelled(f.value) + (f.after + more));
  }

  lemma {:induction false} ReadObject(c: Text, p: nat, depth: nat) returns (d: Doc)
    requires Terminated(c) && p < |c| && c[p] == 123 && ObjectAt(c, p, depth).Ok?
    ensures d.ObjectDoc? && Good(d) && StandsAt(Spelled(d), c, p)
    ensures ObjectAt(c, p, depth) == Ok(Meaning(d), p + |Spelled(d)|)
    decreases |c| - p, 1
  {
    hide *;
    ObjectIs(c, p, depth);
    var q := Skip(c, p + 1);
    var gap := c[p + 1..q];
    SliceStands(c, p + 1, q);
    if c[q] == 125 {
      d := ObjectDoc(gap, []);
      EmptyObjectDoc(gap, c, p);
    } else {
      var fields := ReadFields(c, q - 1, depth + 1);
      WidenedFields(gap, fields);
      var w := WidenedFirst(gap, fields);
      StandsJoin(gap, SpelledFields(fields) + [125], c, p + 1);
      Regroup(gap, SpelledFields(fields), [125]);
      d := ObjectDoc([], w);
      FullObjectDoc(w, c, p);
    }
  }

  lemma {:induction false} MembersAre(c: Text, p: nat, depth: nat)
    requires Terminated(c) && p + 1 < |c| && MembersAt(c, p, depth).MembersOk?
    ensures var k := Skip(c, p + 1);
            && StringAt(c, k).StringOk?
            && var o := StringAt(c, k).offset;
               var s := Skip(c, o);
               && p + 1 <= k < o < |c| && o <= s < |c| - 1 && c[s] == 58
               && Gap(c[p + 1..k]) && Gap(c[o..s])
               && var x := Skip(c, s + 1);
                  && s + 1 <= x < |c| && Gap(c[s + 1..x]) && ValueAt(c, x, depth).Ok?
                  && var e := ValueAt(c, x, depth).offset;
                     var u := Skip(c, e);
                     var m := Member(StringAt(c, k).value, ValueAt(c, x, depth).value);
                     && x < e < |c| && e <= u < |c| && Gap(c[e..u])
                     && if c[u] == 44 then
                          && u + 1 < |c| && MembersAt(c, u, depth).MembersOk?
                          && MembersAt(c, p, depth) == MembersOk([m] + MembersAt(c, u, depth).members,
                                                                 MembersAt(c, u, depth).offset)
                        else c[u] == 125 && MembersAt(c, p, depth) == MembersOk([m], u + 1)
  {
    hide ValueAt;
    hide StringAt;
    hide Skip;
    var k := Skip(c, p + 1);
    SkippedGap(c, p + 1);
    var o := StringAt(c, k).offset;
    SkippedGap(c, o);
    var s := Skip(c, o);
    SkippedGap(c, s + 1);
    var x := Skip(c, s + 1);
    SkippedGap(c, ValueAt(c, x, depth).offset);
  }

  lemma {:induction false} ReadKey(c: Text, p: nat, k: nat, s: nat, x: nat) returns (f: Field)
    requires Terminated(c) && p <= k < |c| && StringAt(c, k).StringOk? && StringAt(c, k).offset <= s < x <= |c|
             && c[s] == 58
    requires Gap(c[p..k]) && Gap(c[StringAt(c, k).offset..s]) && Gap(c[s + 1..x])
    ensures GoodKey(f) && GoodUnits(f.units) && StandsAt(SpelledKey(f), c, p) && p + |SpelledKey(f)| == x
    ensures StringAt(c, k).value == StringMeaning(f.units)
  {
    hide StandsAt;
    hide GoodUnits;
    hide Closed;
    hide SpelledUnits;
    hide SpelledString;
    hide StringMeaning;
    hide StringAt;
    hide Gap;
    var body, us := ReadLiteral(c, k);
    var o := k + |SpelledString(body)|;
    f := Field(c[p..k], body, us, c[o..s], c[s + 1..x], WordDoc(Null), []);
    SliceStands(c, p, k);
    SliceStands(c, o, s);
    SliceStands(c, s + 1, x);
    ByteStands(58, c, s);
    StandsJoin([58], f.lead, c, s);
    StandsJoin(f.colon, [58] + f.lead, c, o);
    StandsJoin(SpelledString(body), f.colon + ([58] + f.lead), c, k);
    StandsJoin(f.before, SpelledString(body) + (f.colon + ([58] + f.lead)), c, p);
  }

  lemma {:induction false} LastFieldDoc(f: Field, c: Text, p: nat)
    requires GoodKey(f) && Good(f.value) && Gap(f.after) && GoodUnits(f.units)
    requires StandsAt(SpelledKey(f), c, p) && StandsAt(Spelled(f.value), c, p + |SpelledKey(f)|)
    requires StandsAt(f.after, c, p + |SpelledKey(f)| + |Spelled(f.value)|)
    requires var u := p + |SpelledKey(f)| + |Spelled(f.value)| + |f.after|; u < |c| && c[u] == 125
    ensures && GoodFields([f]) && StandsAt(SpelledFields([f]) + [125], c, p)
            && FieldsMeant([f]) == [Member(StringMeaning(f.units), Meaning(f.value))]
            && |SpelledFields([f])| == |SpelledKey(f)| + |Spelled(f.value)| + |f.after|
  {
    hide StandsAt;
    hide Good;
    hide GoodKey;
    hide GoodUnits;
    hide Spelled;
    hide SpelledKey;
    hide Meaning;
    hide StringMeaning;
    hide Gap;
    var e := p + |SpelledKey(f)| + |Spelled(f.value)|;
    assert [f][1..] == [];
    ByteStands(125, c, e + |f.after|);
    StandsJoin(f.after, [125], c, e);
    StandsJoin(Spelled(f.value), f.after + [125], c, p + |SpelledKey(f)|);
    StandsJoin(SpelledKey(f), Spelled(f.value) + (f.after + [125]), c, p);
    assert SpelledFields([f]) + [125] == SpelledKey(f) + (Spelled(f.value) + (f.after + [125])) by {
      assert f.after + [] == f.after;
    }
  }

  lemma {:induction false} NextFieldDoc(f: Field, rest: seq<Field>, c: Text, p: nat)
    requires GoodKey(f) && Good(f.value) && Gap(f.after) && GoodUnits(f.units) && rest != [] && GoodFields(rest)
    requires StandsAt(SpelledKey(f), c, p) && StandsAt(Spelled(f.value), c, p + |SpelledKey(f)|)
    requires StandsAt(f.after, c, p + |SpelledKey(f)| + |Spelled(f.value)|)
    requires var u := p + |SpelledKey(f)| + |Spelled(f.value)| + |f.after|;
             u < |c| && c[u] == 44 && StandsAt(SpelledFields(rest) + [125], c, u + 1)
    ensures var fields := [f] + rest;
            && GoodFields(fields) && StandsAt(SpelledFields(fields) + [125], c, p)
            && FieldsMeant(fields) == [Member(StringMeaning(f.units), Meaning(f.value))] + FieldsMeant(rest)
            && |SpelledFields(fields)|
               == |SpelledKey(f)| + |Spelled(f.value)| + |f.after| + 1 + |SpelledFields(rest)|
  {
    hide StandsAt;
    hide Good;
    hide GoodKey;
    hide GoodUnits;
    hide Spelled;
    hide SpelledKey;
    hide Meaning;
    hide StringMeaning;
    hide Gap;
    var e := p + |SpelledKey(f)| + |Spelled(f.value)|;
    var fields, r := [f] + rest, SpelledFields(rest);
    assert fields[1..] == rest;
    ByteStands(44, c, e + |f.after|);
    StandsJoin([44], r + [125], c, e + |f.after|);
    StandsJoin(f.after, [44] + (r + [125]), c, e);
    StandsJoin(Spelled(f.value), f.after + ([44] + (r + [125])), c, p + |SpelledKey(f)|);
    StandsJoin(SpelledKey(f), Spelled(f.value) + (f.after + ([44] + (r + [125]))), c, p);
    assert SpelledFields(fields) == SpelledKey(f) + (Spelled(f.value) + (f.after + ([44] + r)));
    LastByte(SpelledKey(f), Spelled(f.value), f.after, [44], r, [125]);
  }

  lemma {:induction false} SameKey(f: Field, d: Doc, after: Text)
    requires GoodKey(f) && GoodUnits(f.units)
    ensures var g := f.(value := d, after := after);
            GoodKey(g) && GoodUnits(g.units) && SpelledKey(g) == SpelledKey(f) && g.units == f.units
            && g.value == d && g.after == after
  {
    hide GoodString;
    hide GoodUnits;
    hide SpelledString;
    hide Gap;
  }

  lemma {:induction false} ReadFields(c: Text, p: nat, depth: nat) returns (fields: seq<Field>)
    requires Terminated(c) && p + 1 < |c| && MembersAt(c, p, depth).MembersOk?
    ensures fields != [] && GoodFields(fields) && StandsAt(SpelledFields(fields) + [125], c, p + 1)
    ensures MembersAt(c, p, depth) == MembersOk(FieldsMeant(fields), p + 1 + |SpelledFields(fields)| + 1)
    decreases |c| - p, 0
  {
    hide *;
    MembersAre(c, p, depth);
    var k := Skip(c, p + 1);
    var s := Skip(c, StringAt(c, k).offset);
    var x := Skip(c, s + 1);
    var f := ReadKey(c, p + 1, k, s, x);
    var d := ReadDoc(c, x, depth);
    var e := x + |Spelled(d)|;
    var u := Skip(c, e);
    SliceStands(c, e, u);
    var g := f.(value := d, after := c[e..u]);
    SameKey(f, d, c[e..u]);
    if c[u] == 44 {
      var rest := ReadFields(c, u, depth);
      fields := [g] + rest;
      NextFieldDoc(g, rest, c, p + 1);
    } else {
      fields := [g];
      LastFieldDoc(g, c, p + 1);
    }
  }

  // ---- a value, both ways

  /** A value of the grammar with this meaning stands in `c` from `p` to `o`. */
  ghost predicate Holds(c: Text, p: nat, o: nat, v: Json) {
    exists d :: Good(d) && StandsAt(Spelled(d), c, p) && Ended(d, c, p) && Meaning(d) == v && o == p + |Spelled(d)|
  }

  /** The parser reads `v` from `p` to `o` if and only if a value of the grammar stands there that means it and is
      nested no deeper than the limit. */
  lemma {:induction false} ValueIsExact(c: Text, p: nat, depth: nat, v: Json, o: nat)
    requires Terminated(c) && p < |c| && depth <= NESTING_LIMIT
    ensures ValueAt(c, p, depth) == Ok(v, o) <==> Holds(c, p, o, v) && depth + Nesting(v) <= NESTING_LIMIT
  {
    hide ValueAt;
    hide Good;
    hide Spelled;
    hide Meaning;
    hide Ended;
    hide StandsAt;
    hide Nesting;
    if ValueAt(c, p, depth) == Ok(v, o) {
      var d := ReadDoc(c, p, depth);
      ParsedIsShallow(c, p, depth);
    }
    if Holds(c, p, o, v) && depth + Nesting(v) <= NESTING_LIMIT {
      var d :| Good(d) && StandsAt(Spelled(d), c, p) && Ended(d, c, p) && Meaning(d) == v && o == p + |Spelled(d)|;
      DocRead(d, c, p, depth);
    }
  }

  // ---- a whole text

  const BYTE_ORDER_MARK: Text := [0xEF, 0xBB, 0xBF]

  /** A byte order mark or none, a gap, and a value: what is in front of `o`. */
  ghost predicate Leads(c: Text, o: nat, v: Json) {
    exists mark, gap ::
      (mark == [] || mark == BYTE_ORDER_MARK) && Gap(gap) && mark + gap <= c && Holds(c, |mark| + |gap|, o, v)
  }

  lemma {:induction false} HoldsInside(c: Text, p: nat, o: nat, v: Json)
    requires Terminated(c) && Holds(c, p, o, v)
    ensures p < |c| && c[p] > 32 && c[p] != 0xEF && p < o < |c|
  {
    hide Good;
    hide Spelled;
    hide Ended;
    hide StandsAt;
    hide Nesting;
    var d :| Good(d) && StandsAt(Spelled(d), c, p) && Ended(d, c, p) && Meaning(d) == v && o == p + |Spelled(d)|;
    StartStands(d, c, p);
    Starts(d);
    EndsInside(d, c, p);
  }

  /** No value ends in a NUL. */
  lemma {:induction false} EndsInside(d: Doc, c: Text, p: nat)
    requires Terminated(c) && Good(d) && StandsAt(Spelled(d), c, p)
    ensures p + |Spelled(d)| < |c|
  {
    hide StandsAt;
    var t := Spelled(d);
    Starts(d);
    LastIsNoNul(d);
    StandingByte(t, c, p, |t| - 1);
  }

  lemma {:induction false} LastIsNoNul(d: Doc)
    requires Good(d) && Spelled(d) != []
    ensures Spelled(d)[|Spelled(d)| - 1] != 0
  {
    hide SpelledItems;
    hide SpelledFields;
    hide GoodItems;
    hide GoodFields;
    hide GoodString;
    hide SpelledNumeral;
    hide GoodNumeral;
    hide Gap;
    match d
    case NumberDoc(n) =>
      NumeralBytes(n);
      assert IsNumberByte(SpelledNumeral(n)[|SpelledNumeral(n)| - 1]);
    case _ =>
  }

  /** Where the parser starts, after the mark and the gap. */
  function From(c: Text): (p: nat)
    requires Terminated(c)
    ensures p < |c|
  {
    Skip(c, if |c| > 4 && c[..3] == [0xEF, 0xBB, 0xBF] then 3 else 0)
  }

  lemma {:induction false} FromLeads(c: Text, o: nat, v: Json)
    requires Terminated(c)
    ensures Leads(c, o, v) <==> Holds(c, From(c), o, v)
  {
    hide Holds;
    hide Skip;
    hide Gap;
    if Holds(c, From(c), o, v) { LeadsBy(c, o, v); }
    if Leads(c, o, v) {
      var mark, gap :|
        (mark == [] || mark == BYTE_ORDER_MARK) && Gap(gap) && mark + gap <= c && Holds(c, |mark| + |gap|, o, v);
      FromIs(c, mark, gap, o, v);
    }
  }

  lemma {:induction false} LeadsBy(c: Text, o: nat, v: Json)
    requires Terminated(c) && Holds(c, From(c), o, v)
    ensures Leads(c, o, v)
  {
    hide Holds;
    hide Skip;
    hide Gap;
    var mark := if |c| > 4 && c[..3] == [0xEF, 0xBB, 0xBF] then BYTE_ORDER_MARK else [];
    SkippedGap(c, |mark|);
    var gap := c[|mark|..From(c)];
    assert c[..|mark|] == mark;
    assert mark + gap == c[..From(c)];
  }

  lemma {:induction false} FromIs(c: Text, mark: Text, gap: Text, o: nat, v: Json)
    requires Terminated(c) && (mark == [] || mark == BYTE_ORDER_MARK) && Gap(gap) && mark + gap <= c
    requires Holds(c, |mark| + |gap|, o, v)
    ensures From(c) == |mark| + |gap|
  {
    hide Holds;
    hide Skip;
    var p := |mark| + |gap|;
    HoldsInside(c, p, o, v);
    assert c[..p] == mark + gap;
    assert c[|mark|..p] == gap;
    GapSkipped(gap, c, |mark|);
    if mark == [] {
      assert c[0] != 0xEF by { if gap != [] { assert c[0] == gap[0]; } }
      assert |c| > 4 ==> c[..3][0] == c[0];
    } else {
      assert c[..3] == mark;
    }
  }

  /** Without a demand for the end, the parser reads what stands in front, whatever follows. */
  lemma {:induction false} TextIsExact(c: Text, v: Json, o: nat)
    requires Terminated(c)
    ensures TextAt(c, false) == Ok(v, o) <==> Leads(c, o, v) && Nesting(v) <= 1000
  {
    hide *;
    FromLeads(c, o, v);
    TextIs(c);
    ValueIsExact(c, From(c), 0, v, o);
  }

  lemma {:induction false} TextIs(c: Text)
    requires Terminated(c)
    ensures NESTING_LIMIT == 1000 && TextAt(c, false) == ValueAt(c, From(c), 0)
    ensures TextAt(c, true) == match TextAt(c, false)
                               case Fail(o) => Fail(o)
                               case Ok(v, o) =>
                                 assert o < |c|; var s := Skip(c, o); if c[s] != 0 then Fail(s) else Ok(v, s)
  {
    hide ValueAt;
    hide Skip;
  }

  /** With the demand, nothing but bytes up to the space may follow, the terminator among them, and the parser stops
      at the last. */
  lemma {:induction false} WholeTextIsExact(c: Text, v: Json, o: nat)
    requires Terminated(c)
    ensures TextAt(c, true) == Ok(v, o)
            <==> o == |c| - 1 && Nesting(v) <= 1000 && exists e: nat :: Leads(c, e, v) && e <= |c| && Gap(c[e..])
  {
    hide TextAt;
    hide Leads;
    hide Skip;
    hide Nesting;
    hide Gap;
    TextIs(c);
    if TextAt(c, false).Ok? {
      var w, e := TextAt(c, false).value, TextAt(c, false).offset;
      TextIsExact(c, w, e);
      OnlyGap(c, e);
    }
    if Nesting(v) <= 1000 && exists e: nat :: Leads(c, e, v) && e <= |c| && Gap(c[e..]) {
      var e: nat :| Leads(c, e, v) && e <= |c| && Gap(c[e..]);
      TextIsExact(c, v, e);
    }
  }

  lemma {:induction false} OnlyGap(c: Text, e: nat)
    requires Terminated(c) && e < |c|
    ensures c[Skip(c, e)] == 0 <==> Gap(c[e..])
    ensures c[Skip(c, e)] == 0 ==> Skip(c, e) == |c| - 1
  {
    SkippedGap(c, e);
    var s := Skip(c, e);
    if c[s] == 0 {
      assert forall i :: 0 <= i < |c| - 1 - e ==> c[e..][i] == c[e..s][i];
      assert c[e..][|c| - 1 - e] == 0;
    } else {
      assert c[e..][s - e] == c[s];
    }
  }
}
