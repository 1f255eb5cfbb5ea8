/** Parsing the printed text of a tree gives the tree back. */
module JsonRoundTrip {
  import opened Bytes
  import opened JsonString
  import opened JsonText
  import opened JsonGrammar

  // ---- whitespace

  lemma {:induction false} SkipOver(c: Text, p: nat, k: nat)
    requires p + k < |c| && forall i :: p <= i < p + k ==> c[i] <= 32
    ensures Skip(c, p) == Skip(c, p + k) && (c[p + k] > 32 ==> Skip(c, p) == p + k)
    decreases k
  {
    if k > 0 {
      SkipOver(c, p + 1, k - 1);
    }
  }

  lemma {:induction false} StandsFirst(t: Text, c: Text, p: nat)
    requires t != [] && StandsAt(t, c, p)
    ensures c[p] == t[0]
  {
    assert c[p] == c[p..p + |t|][0];
  }

  // ---- numbers

  lemma {:induction false} DigitsLength(n: nat, k: nat)
    requires 0 < k && n < Pow10(k)
    ensures |Digits(n)| <= k
  {
    if n >= 10 {
      DigitsLength(n / 10, k - 1);
    }
  }

  lemma {:induction false} DecimalLength(n: int)
    requires INT_MIN <= n <= INT_MAX
    ensures |Decimal(n)| <= 11
  {
    assert Pow10(3) == 1000 && Pow10(6) == 1000 * Pow10(3) && Pow10(9) == 1000 * Pow10(6);
    assert Pow10(10) == 10000000000;
    var size: nat := if n < 0 then -n else n;
    DigitsLength(size, 10);
  }

  lemma {:induction false} DigitsReadBack(n: nat)
    ensures DigitsValue(Digits(n)) == n
  {
    var t := Digits(n);
    if n >= 10 {
      DigitsReadBack(n / 10);
      assert t[..|t| - 1] == Digits(n / 10);
    } else {
      assert t[..0] == [];
    }
  }

  lemma {:induction false} AllDigits(t: Text, p: nat)
    requires p <= |t| && forall i :: p <= i < |t| ==> IsDigit(t[i])
    ensures DigitRun(t, p) == |t|
    decreases |t| - p
  {
    if p < |t| { AllDigits(t, p + 1); }
  }

  lemma {:induction false} DecimalReadBack(n: int)
    ensures Strtod(Decimal(n)) == Number(n, |Decimal(n)|)
  {
    var t, size := Decimal(n), if n < 0 then -n else n;
    var i := if n < 0 then 1 else 0;
    DigitsReadBack(size);
    assert t[i..] == Digits(size);
    forall k | i <= k < |t| ensures IsDigit(t[k]) { assert t[k] == t[i..][k - i]; }
    AllDigits(t, i);
    assert t[i..|t|] == t[i..];
    assert Pow10(0) == 1;
  }

  lemma {:induction false} RunIs(c: Text, p: nat, n: nat, limit: nat)
    requires p + n < |c| && n < limit
    requires forall i :: p <= i < p + n ==> IsNumberByte(c[i])
    requires !IsNumberByte(c[p + n])
    ensures NumberRun(c, p, limit) == n
    decreases n
  {
    if n > 0 { RunIs(c, p + 1, n - 1, limit - 1); }
  }

  lemma {:induction false} NumberBack(n: Int32, c: Text, p: nat)
    requires Terminated(c) && StandsAt(Decimal(n), c, p)
    requires p + |Decimal(n)| < |c| && !IsNumberByte(c[p + |Decimal(n)|])
    ensures NumberAt(c, p) == Ok(Num(n), p + |Decimal(n)|)
  {
    var t := Decimal(n);
    DecimalLength(n);
    DecimalReadBack(n);
    forall i | p <= i < p + |t| ensures IsNumberByte(c[i]) {
      assert c[i] == c[p..p + |t|][i - p] == t[i - p];
    }
    hide *;
    RunIs(c, p, |t|, 63);
    NumberRead(c, p, |t|, n);
  }

  lemma {:induction false} NumberRead(c: Text, p: nat, k: nat, n: Int32)
    requires Terminated(c) && 0 < k && p + k < |c| && NumberRun(c, p, 63) == k
    requires Strtod(c[p..p + k]) == Number(n, k)
    ensures NumberAt(c, p) == Ok(Num(n), p + k)
  {
    hide Strtod;
    hide NumberRun;
  }

  // ---- strings

  lemma {:induction false} StringBack(s: CString, c: Text, p: nat)
    requires Terminated(c) && StandsAt(Quoted(s), c, p)
    ensures StringAt(c, p) == StringOk(s, p + |Quoted(s)|)
  {
    hide Escaped;
    hide Decode;
    hide ScanQuote;
    hide AsCString;
    assert Quoted(s) == [QUOTE] + (Escaped(s) + [QUOTE]);
    StandsSplit([QUOTE], Escaped(s) + [QUOTE], c, p);
    StandsFirst([QUOTE], c, p);
    EscapedDecodes(s, c, p + 1);
    CStringIsItself(s);
  }

  // ---- values

  /** A value that ends where no number could go on is read back whole. */
  lemma {:induction false} ValueBack(v: Json, fmt: bool, d: nat, c: Text, p: nat, depth: nat)
    requires Terminated(c) && StandsAt(Render(v, fmt, d), c, p)
    requires p + |Render(v, fmt, d)| < |c| && !IsNumberByte(c[p + |Render(v, fmt, d)|])
    requires depth + Nesting(v) <= NESTING_LIMIT
    ensures ValueAt(c, p, depth) == Ok(v, p + |Render(v, fmt, d)|)
    decreases v, 2
  {
    FirstByte(v, fmt, d);
    StandsFirst(Render(v, fmt, d), c, p);
    if StandsAt(NULL_TEXT, c, p) { StandsFirst(NULL_TEXT, c, p); }
    if StandsAt(FALSE_TEXT, c, p) { StandsFirst(FALSE_TEXT, c, p); }
    if StandsAt(TRUE_TEXT, c, p) { StandsFirst(TRUE_TEXT, c, p); }
    match v
    case Null =>
    case False =>
    case True =>
    case Num(n) => NumberBack(n, c, p);
    case Str(s) => StringBack(s, c, p);
    case Arr(items) => ArrayBack(items, fmt, d, c, p, depth);
    case Obj(members) => ObjectBack(members, fmt, d, c, p, depth);
  }

  // the parser's side of each construct

  lemma {:induction false} ArrayRead(c: Text, p: nat, depth: nat, items: seq<Json>, o: nat)
    requires Terminated(c) && p + 1 < |c| && c[p] == OPEN_BRACKET && depth < NESTING_LIMIT && c[p + 1] > 32
    requires if c[p + 1] == CLOSE_BRACKET then items == [] && o == p + 2
             else ItemsAt(c, p, depth + 1) == ItemsOk(items, o)
    ensures ArrayAt(c, p, depth) == Ok(Arr(items), o)
  {
    hide ItemsAt;
    SkipOver(c, p + 1, 0);
  }

  lemma {:induction false} ItemRead(c: Text, p: nat, q: nat, depth: nat, v: Json, o: nat, rest: seq<Json>, r: nat)
    requires Terminated(c) && p + 1 < |c| && Skip(c, p + 1) == q
    requires ValueAt(c, q, depth) == Ok(v, o)
    requires if rest == [] then c[o] == CLOSE_BRACKET && r == o + 1
             else c[o] == COMMA && o + 1 < |c| && ItemsAt(c, o, depth) == ItemsOk(rest, r)
    ensures ItemsAt(c, p, depth) == ItemsOk([v] + rest, r)
  {
    hide ValueAt;
    hide SkipRun;
    SkipOver(c, o, 0);
  }

  /** A comma, and the space after it in formatted text, lead to the next item. */
  lemma {:induction false} SeparatorRead(fmt: bool, c: Text, o: nat)
    requires StandsAt(Separator(fmt), c, o) && o + |Separator(fmt)| < |c| && c[o + |Separator(fmt)|] > 32
    ensures c[o] == COMMA && Skip(c, o + 1) == o + |Separator(fmt)|
  {
    StandsFirst(Separator(fmt), c, o);
    if fmt { assert c[o + 1] == c[o..o + 2][1] == 32; }
    SkipOver(c, o + 1, |Separator(fmt)| - 1);
  }

  // the text's side

  /** `t` stands in `c` at `p`, and byte `b` after it. */
  predicate StandsBefore(t: Text, b: Byte, c: Text, p: nat) {
    StandsAt(t, c, p) && p + |t| < |c| && c[p + |t|] == b
  }

  lemma {:induction false} ArraySplit(items: seq<Json>, fmt: bool, d: nat, c: Text, p: nat)
    requires StandsAt(Render(Arr(items), fmt, d), c, p)
    ensures var text := RenderItems(items, fmt, d + 1);
            && c[p] == OPEN_BRACKET && StandsBefore(text, CLOSE_BRACKET, c, p + 1)
            && |Render(Arr(items), fmt, d)| == |text| + 2
            && p + 1 < |c| && c[p + 1] > 32 && (c[p + 1] == CLOSE_BRACKET <==> items == [])
            && (items == [] ==> text == [])
  {
    var text := RenderItems(items, fmt, d + 1);
    assert Render(Arr(items), fmt, d) == [OPEN_BRACKET] + (text + [CLOSE_BRACKET]);
    if items != [] { ItemsFirstByte(items, fmt, d + 1); }
    hide Render;
    StandsSplit([OPEN_BRACKET], text + [CLOSE_BRACKET], c, p);
    StandsSplit(text, [CLOSE_BRACKET], c, p + 1);
    StandsFirst([OPEN_BRACKET], c, p);
    StandsFirst([CLOSE_BRACKET], c, p + 1 + |text|);
    if items != [] { StandsFirst(text, c, p + 1); }
  }

  lemma {:induction false} ArrayBack(items: seq<Json>, fmt: bool, d: nat, c: Text, p: nat, depth: nat)
    requires Terminated(c) && StandsAt(Render(Arr(items), fmt, d), c, p)
    requires depth + 1 + ItemsNesting(items) <= NESTING_LIMIT
    ensures c[p] == OPEN_BRACKET && ArrayAt(c, p, depth) == Ok(Arr(items), p + |Render(Arr(items), fmt, d)|)
    decreases items, 1
  {
    hide *;
    ArraySplit(items, fmt, d, c, p);
    assert items == [] ==> |RenderItems(items, fmt, d + 1)| == 0;
    if items != [] {
      SkipOver(c, p + 1, 0);
      ItemsBack(items, fmt, d + 1, c, p, p + 1, depth + 1);
    }
    ArrayRead(c, p, depth, items, p + 1 + |RenderItems(items, fmt, d + 1)| + 1);
  }

  /** Where the first item of an array, and what follows it, stand. */
  lemma {:induction false} ItemsSplit(items: seq<Json>, fmt: bool, d: nat, c: Text, q: nat)
    requires |items| > 1 && StandsBefore(RenderItems(items, fmt, d), CLOSE_BRACKET, c, q)
    ensures var o := q + |Render(items[0], fmt, d)|;
            var q' := o + |Separator(fmt)|;
            && StandsAt(Render(items[0], fmt, d), c, q)
            && o + 1 < |c| && c[o] == COMMA && Skip(c, o + 1) == q'
            && StandsBefore(RenderItems(items[1..], fmt, d), CLOSE_BRACKET, c, q')
            && |RenderItems(items, fmt, d)| == (q' - q) + |RenderItems(items[1..], fmt, d)|
  {
    hide *;
    var first, rest := Render(items[0], fmt, d), RenderItems(items[1..], fmt, d);
    var o := q + |first|;
    var q' := o + |Separator(fmt)|;
    ItemsText(items, fmt, d);
    ItemsFirstByte(items[1..], fmt, d);
    ThreeStand(first, Separator(fmt), rest, CLOSE_BRACKET, c, q);
    SeparatorLength(fmt);
    SeparatorRead(fmt, c, o);
  }

  lemma {:induction false} SeparatorLength(fmt: bool)
    ensures 1 <= |Separator(fmt)| <= 2
  {
  }

  /** Three texts stand one after the other, and a byte after the last. */
  lemma {:induction false} ThreeStand(a: Text, b: Text, r: Text, last: Byte, c: Text, q: nat)
    requires StandsBefore(a + (b + r), last, c, q) && r != []
    ensures var o := q + |a|;
            && StandsAt(a, c, q) && StandsAt(b, c, o) && StandsBefore(r, last, c, o + |b|)
            && o + |b| < |c| && c[o + |b|] == r[0]
  {
    hide StandsAt;
    StandsSplit(a, b + r, c, q);
    StandsSplit(b, r, c, q + |a|);
    StandsInside(r, c, q + |a| + |b|);
    StandsFirst(r, c, q + |a| + |b|);
  }

  lemma {:induction false} StandsInside(t: Text, c: Text, p: nat)
    requires t != [] && StandsAt(t, c, p)
    ensures p < |c|
  {
  }

  lemma {:induction false} NestingSplit(items: seq<Json>)
    requires items != []
    ensures Nesting(items[0]) <= ItemsNesting(items) && ItemsNesting(items[1..]) <= ItemsNesting(items)
  {
  }

  lemma {:induction false} ItemsBack(items: seq<Json>, fmt: bool, d: nat, c: Text, p: nat, q: nat, depth: nat)
    requires items != [] && Terminated(c) && p + 1 < |c| && Skip(c, p + 1) == q
    requires StandsBefore(RenderItems(items, fmt, d), CLOSE_BRACKET, c, q)
    requires depth + ItemsNesting(items) <= NESTING_LIMIT
    ensures ItemsAt(c, p, depth) == ItemsOk(items, q + |RenderItems(items, fmt, d)| + 1)
    decreases items, 0
  {
    hide *;
    NestingSplit(items);
    var o := q + |Render(items[0], fmt, d)|;
    if |items| == 1 {
      ItemsText(items, fmt, d);
      LastValueBack(items[0], fmt, d, c, q, depth);
      ItemRead(c, p, q, depth, items[0], o, [], o + 1);
      assert items == [items[0]] + [];
    } else {
      ItemsSplit(items, fmt, d, c, q);
      assert !IsNumberByte(c[o]) by { PunctuationIsNoNumber(); }
      ValueBack(items[0], fmt, d, c, q, depth);
      var q' := Skip(c, o + 1);
      ItemsBack(items[1..], fmt, d, c, o, q', depth);
      ItemRead(c, p, q, depth, items[0], o, items[1..], q' + |RenderItems(items[1..], fmt, d)| + 1);
      assert items == [items[0]] + items[1..];
    }
  }

  lemma {:induction false} LastValueBack(v: Json, fmt: bool, d: nat, c: Text, q: nat, depth: nat)
    requires Terminated(c) && StandsBefore(Render(v, fmt, d), CLOSE_BRACKET, c, q)
    requires depth + Nesting(v) <= NESTING_LIMIT
    ensures var o := q + |Render(v, fmt, d)|; o < |c| && c[o] == CLOSE_BRACKET && ValueAt(c, q, depth) == Ok(v, o)
    decreases v, 3
  {
    hide Render;
    hide ValueAt;
    assert !IsNumberByte(CLOSE_BRACKET);
    ValueBack(v, fmt, d, c, q, depth);
  }

  lemma {:induction false} PunctuationIsNoNumber()
    ensures !IsNumberByte(COMMA) && !IsNumberByte(CLOSE_BRACKET) && !IsNumberByte(CLOSE_BRACE)
    ensures !IsNumberByte(NEWLINE) && !IsNumberByte(0)
  {
  }

  // objects

  lemma {:induction false} ObjectRead(c: Text, p: nat, depth: nat, members: seq<Member>, o: nat)
    requires Terminated(c) && p + 1 < |c| && c[p] == OPEN_BRACE && depth < NESTING_LIMIT
    requires var q := Skip(c, p + 1);
             if c[q] == CLOSE_BRACE then members == [] && o == q + 1
             else MembersAt(c, q - 1, depth + 1) == MembersOk(members, o)
    ensures ObjectAt(c, p, depth) == Ok(Obj(members), o)
  {
    hide MembersAt;
    hide Skip;
  }

  lemma {:induction false} MemberRead(c: Text, p: nat, depth: nat, key: CString, s: nat, v: Json, o: nat,
                                      rest: seq<Member>, r: nat)
    requires Terminated(c) && p + 1 < |c|
    requires StringAt(c, Skip(c, p + 1)) == StringOk(key, s)
    requires s + 1 < |c| && c[s] == COLON && ValueAt(c, Skip(c, s + 1), depth) == Ok(v, o)
    requires var u := Skip(c, o);
             if rest == [] then c[u] == CLOSE_BRACE && r == u + 1
             else c[u] == COMMA && u + 1 < |c| && MembersAt(c, u, depth) == MembersOk(rest, r)
    ensures MembersAt(c, p, depth) == MembersOk([Member(key, v)] + rest, r)
  {
    hide ValueAt;
    hide StringAt;
    hide Skip;
    SkipOver(c, s, 0);
  }

  /** Text that is all whitespace is skipped. */
  lemma {:induction false} SkipText(t: Text, c: Text, p: nat)
    requires StandsAt(t, c, p) && p + |t| < |c| && forall i :: 0 <= i < |t| ==> t[i] <= 32
    ensures Skip(c, p) == Skip(c, p + |t|) && (c[p + |t|] > 32 ==> Skip(c, p) == p + |t|)
  {
    forall i | p <= i < p + |t| ensures c[i] <= 32 {
      assert c[i] == c[p..p + |t|][i - p];
    }
    SkipOver(c, p, |t|);
  }

  /** A byte, and perhaps whitespace after it, are passed over. */
  lemma {:induction false} SkipAfterFirst(t: Text, c: Text, p: nat)
    requires t != [] && StandsAt(t, c, p) && p + |t| < |c| && forall i :: 1 <= i < |t| ==> t[i] <= 32
    ensures c[p] == t[0] && p + 1 < |c| && Skip(c, p + 1) == Skip(c, p + |t|)
    ensures c[p + |t|] > 32 ==> Skip(c, p + 1) == p + |t|
  {
    assert t == [t[0]] + t[1..];
    StandsSplit([t[0]], t[1..], c, p);
    StandsFirst([t[0]], c, p);
    SkipText(t[1..], c, p + 1);
  }

  lemma {:induction false} CloseSkipped(fmt: bool, d: nat, c: Text, p: nat)
    requires StandsAt(Close(fmt, d), c, p)
    ensures var e := p + |Close(fmt, d)| - 1; Skip(c, p) == e && c[e] == CLOSE_BRACE
  {
    StandsSplit(Lead(fmt, d), [CLOSE_BRACE], c, p);
    StandsFirst([CLOSE_BRACE], c, p + |Lead(fmt, d)|);
    SkipText(Lead(fmt, d), c, p);
  }

  lemma {:induction false} MembersSplit(members: seq<Member>, fmt: bool, d: nat, c: Text, q: nat)
    requires members != [] && StandsAt(RenderMembers(members, fmt, d), c, q)
    ensures var first := MemberText(members[0], |members| == 1, fmt, d);
            && StandsAt(first, c, q) && StandsAt(RenderMembers(members[1..], fmt, d), c, q + |first|)
            && |RenderMembers(members, fmt, d)| == |first| + |RenderMembers(members[1..], fmt, d)|
            && (|members| == 1 ==> RenderMembers(members[1..], fmt, d) == [])
  {
    hide MemberText;
    StandsSplit(MemberText(members[0], |members| == 1, fmt, d), RenderMembers(members[1..], fmt, d), c, q);
  }

  lemma {:induction false} MemberSplit(m: Member, last: bool, fmt: bool, d: nat, c: Text, q: nat)
    requires StandsAt(MemberText(m, last, fmt, d), c, q)
    ensures var x := q + |MemberHead(m.key, fmt, d)|;
            var o := x + |Render(m.value, fmt, d)|;
            && StandsAt(MemberHead(m.key, fmt, d), c, q) && StandsAt(Render(m.value, fmt, d), c, x)
            && StandsAt(MemberTail(last, fmt), c, o)
            && q + |MemberText(m, last, fmt, d)| == o + |MemberTail(last, fmt)|
  {
    hide MemberHead;
    hide MemberTail;
    hide Render;
    var head, v, tail := MemberHead(m.key, fmt, d), Render(m.value, fmt, d), MemberTail(last, fmt);
    StandsSplit(head, v + tail, c, q);
    StandsSplit(v, tail, c, q + |head|);
  }

  lemma {:induction false} QuotedFirst(s: Text)
    ensures Quoted(s) != [] && Quoted(s)[0] == QUOTE
  {
  }

  /** From before a key to the value after it. */
  lemma {:induction false} HeadSkips(key: CString, fmt: bool, d: nat, c: Text, q: nat)
    requires StandsAt(MemberHead(key, fmt, d), c, q)
    requires var x := q + |MemberHead(key, fmt, d)|; x < |c| && c[x] > 32
    ensures var k, x := q + |Lead(fmt, d)|, q + |MemberHead(key, fmt, d)|;
            var s := k + |Quoted(key)|;
            && q < |c| && k < |c| && Skip(c, q) == k && StandsAt(Quoted(key), c, k) && c[k] == QUOTE
            && s + 1 < |c| && c[s] == COLON && Skip(c, s + 1) == x
  {
    hide Quoted;
    hide Skip;
    QuotedFirst(key);
    var k := q + |Lead(fmt, d)|;
    var s := k + |Quoted(key)|;
    StandsSplit(Lead(fmt, d), Quoted(key) + Colon(fmt), c, q);
    StandsSplit(Quoted(key), Colon(fmt), c, k);
    StandsFirst(Quoted(key), c, k);
    SkipText(Lead(fmt, d), c, q);
    SkipAfterFirst(Colon(fmt), c, s);
  }

  /** From after a value to the closing brace, or over the comma to the next member. */
  lemma {:induction false} LastTailSkips(fmt: bool, d: nat, c: Text, o: nat)
    requires StandsAt(MemberTail(true, fmt), c, o) && StandsAt(Close(fmt, d), c, o + |MemberTail(true, fmt)|)
    ensures o < |c| && !IsNumberByte(c[o])
    ensures var e := o + |MemberTail(true, fmt)| + |Close(fmt, d)| - 1; Skip(c, o) == e && c[e] == CLOSE_BRACE
  {
    hide Skip;
    var tail := MemberTail(true, fmt);
    assert tail == if fmt then [NEWLINE] else [];
    assert |Close(fmt, d)| > 0;
    if fmt { StandsFirst(tail, c, o); } else { StandsFirst(Close(fmt, d), c, o); }
    CloseSkipped(fmt, d, c, o + |tail|);
    SkipText(tail, c, o);
  }

  lemma {:induction false} NextTailSkips(fmt: bool, c: Text, o: nat)
    requires StandsAt(MemberTail(false, fmt), c, o) && o + |MemberTail(false, fmt)| < |c|
    ensures c[o] == COMMA && o + 1 < |c| && Skip(c, o) == o && Skip(c, o + 1) == Skip(c, o + |MemberTail(false, fmt)|)
  {
    hide Skip;
    assert MemberTail(false, fmt) == if fmt then [COMMA, NEWLINE] else [COMMA];
    SkipAfterFirst(MemberTail(false, fmt), c, o);
    SkipOver(c, o, 0);
  }

  lemma {:induction false} MembersNestingSplit(members: seq<Member>)
    requires members != []
    ensures Nesting(members[0].value) <= MembersNesting(members)
            && MembersNesting(members[1..]) <= MembersNesting(members)
  {
  }

  lemma {:induction false} MembersBack(members: seq<Member>, fmt: bool, d: nat, c: Text, p: nat, q: nat, depth: nat)
    requires members != [] && d > 0 && Terminated(c) && p + 1 < |c| && q < |c| && Skip(c, p + 1) == Skip(c, q)
    requires StandsAt(RenderMembers(members, fmt, d), c, q)
    requires StandsAt(Close(fmt, d - 1), c, q + |RenderMembers(members, fmt, d)|)
    requires depth + MembersNesting(members) <= NESTING_LIMIT
    ensures MembersAt(c, p, depth) == MembersOk(members, q + |RenderMembers(members, fmt, d)| + |Close(fmt, d - 1)|)
    decreases members, 0
  {
    hide *;
    MembersNestingSplit(members);
    var m, last := members[0], |members| == 1;
    var x := q + |MemberHead(m.key, fmt, d)|;
    var s := q + |Lead(fmt, d)| + |Quoted(m.key)|;
    var o := x + |Render(m.value, fmt, d)|;
    var end := q + |RenderMembers(members, fmt, d)| + |Close(fmt, d - 1)|;
    MembersSplit(members, fmt, d, c, q);
    MemberSplit(m, last, fmt, d, c, q);
    ValueStarts(m.value, fmt, d, c, x);
    HeadSkips(m.key, fmt, d, c, q);
    StringBack(m.key, c, q + |Lead(fmt, d)|);
    if last {
      LastTailSkips(fmt, d - 1, c, o);
      ValueBack(m.value, fmt, d, c, x, depth);
      MemberRead(c, p, depth, m.key, s, m.value, o, [], end);
      assert members == [Member(m.key, m.value)] + [];
    } else {
      MembersQuote(members[1..], fmt, d, c, o + |MemberTail(last, fmt)|);
      NextTailSkips(fmt, c, o);
      PunctuationIsNoNumber();
      ValueBack(m.value, fmt, d, c, x, depth);
      MembersBack(members[1..], fmt, d, c, o, o + |MemberTail(last, fmt)|, depth);
      MemberRead(c, p, depth, m.key, s, m.value, o, members[1..], end);
      assert members == [Member(m.key, m.value)] + members[1..];
    }
  }

  lemma {:induction false} ValueStarts(v: Json, fmt: bool, d: nat, c: Text, x: nat)
    requires StandsAt(Render(v, fmt, d), c, x)
    ensures x < |c| && c[x] > 32
  {
    hide Render;
    FirstByte(v, fmt, d);
    StandsFirst(Render(v, fmt, d), c, x);
  }

  lemma {:induction false} QuoteIsNoBrace()
    ensures QUOTE != CLOSE_BRACE
  {
  }

  /** Members start with the quote of a key. */
  lemma {:induction false} MembersQuote(members: seq<Member>, fmt: bool, d: nat, c: Text, q: nat)
    requires members != [] && StandsAt(RenderMembers(members, fmt, d), c, q)
    ensures q < |c| && c[Skip(c, q)] == QUOTE != CLOSE_BRACE
  {
    hide *;
    QuoteIsNoBrace();
    MembersSplit(members, fmt, d, c, q);
    MemberSplit(members[0], |members| == 1, fmt, d, c, q);
    ValueStarts(members[0].value, fmt, d, c, q + |MemberHead(members[0].key, fmt, d)|);
    HeadSkips(members[0].key, fmt, d, c, q);
  }

  lemma {:induction false} ObjectSplit(members: seq<Member>, fmt: bool, d: nat, c: Text, p: nat)
    requires Terminated(c) && StandsAt(Render(Obj(members), fmt, d), c, p)
    ensures var q := p + |Open(fmt)|;
            var text := RenderMembers(members, fmt, d + 1);
            && c[p] == OPEN_BRACE && p + 1 < |c| && q < |c| && Skip(c, p + 1) == Skip(c, q)
            && StandsAt(text, c, q) && StandsAt(Close(fmt, d), c, q + |text|)
            && p + |Render(Obj(members), fmt, d)| == q + |text| + |Close(fmt, d)|
            && (members == [] ==> text == [])
  {
    var text := RenderMembers(members, fmt, d + 1);
    assert Render(Obj(members), fmt, d) == Open(fmt) + (text + Close(fmt, d));
    assert |Close(fmt, d)| > 0;
    hide Render;
    hide Close;
    hide RenderMembers;
    hide Skip;
    StandsSplit(Open(fmt), text + Close(fmt, d), c, p);
    StandsSplit(text, Close(fmt, d), c, p + |Open(fmt)|);
    SkipAfterFirst(Open(fmt), c, p);
  }

  /** Skipping again from where skipping stopped changes nothing. */
  lemma {:induction false} SkipTwice(c: Text, p: nat)
    requires p < |c|
    ensures Skip(c, Skip(c, p)) == Skip(c, p)
  {
    SkipOver(c, Skip(c, p), 0);
  }

  lemma {:induction false} ObjectBack(members: seq<Member>, fmt: bool, d: nat, c: Text, p: nat, depth: nat)
    requires Terminated(c) && StandsAt(Render(Obj(members), fmt, d), c, p)
    requires depth + 1 + MembersNesting(members) <= NESTING_LIMIT
    ensures c[p] == OPEN_BRACE && ObjectAt(c, p, depth) == Ok(Obj(members), p + |Render(Obj(members), fmt, d)|)
    decreases members, 1
  {
    hide *;
    ObjectSplit(members, fmt, d, c, p);
    var q, text := p + |Open(fmt)|, RenderMembers(members, fmt, d + 1);
    if members == [] {
      CloseSkipped(fmt, d, c, q);
    } else {
      MembersQuote(members, fmt, d + 1, c, q);
      SkipTwice(c, p + 1);
      MembersBack(members, fmt, d + 1, c, Skip(c, p + 1) - 1, q, depth + 1);
    }
    ObjectRead(c, p, depth, members, q + |text| + |Close(fmt, d)|);
  }

  // ---- the nesting limit

  /** Whatever text it reads, the parser returns no tree nested deeper than its limit. */
  lemma {:induction false} ParsedIsShallow(c: Text, p: nat, depth: nat)
    requires Terminated(c) && p < |c| && depth <= NESTING_LIMIT
    ensures ValueAt(c, p, depth).Ok? ==> depth + Nesting(ValueAt(c, p, depth).value) <= NESTING_LIMIT
    decreases |c| - p, 1
  {
    hide StringAt;
    hide Strtod;
    hide Skip;
    hide ItemsAt;
    hide MembersAt;
    hide StandsAt;
    if depth < NESTING_LIMIT && p + 1 < |c| {
      var q := Skip(c, p + 1);
      ItemsAreShallow(c, q - 1, depth + 1);
      MembersAreShallow(c, q - 1, depth + 1);
    }
  }

  lemma {:induction false} ItemsAreShallow(c: Text, p: nat, depth: nat)
    requires Terminated(c) && p + 1 < |c| && depth <= NESTING_LIMIT
    ensures ItemsAt(c, p, depth).ItemsOk? ==> depth + ItemsNesting(ItemsAt(c, p, depth).items) <= NESTING_LIMIT
    decreases |c| - p, 0
  {
    hide ValueAt;
    hide Skip;
    ParsedIsShallow(c, Skip(c, p + 1), depth);
    var r := ItemsAt(c, p, depth);
    if r.ItemsOk? {
      var o := ValueAt(c, Skip(c, p + 1), depth).offset;
      var s := Skip(c, o);
      if c[s] == COMMA {
        ItemsAreShallow(c, s, depth);
        assert r.items[1..] == ItemsAt(c, s, depth).items;
      }
    }
  }

  lemma {:induction false} MembersAreShallow(c: Text, p: nat, depth: nat)
    requires Terminated(c) && p + 1 < |c| && depth <= NESTING_LIMIT
    ensures MembersAt(c, p, depth).MembersOk? ==>
            depth + MembersNesting(MembersAt(c, p, depth).members) <= NESTING_LIMIT
    decreases |c| - p, 0
  {
    hide ValueAt;
    hide StringAt;
    hide Skip;
    var r := MembersAt(c, p, depth);
    if r.MembersOk? {
      var s := Skip(c, StringAt(c, Skip(c, p + 1)).offset);
      ParsedIsShallow(c, Skip(c, s + 1), depth);
      var u := Skip(c, ValueAt(c, Skip(c, s + 1), depth).offset);
      if c[u] == COMMA {
        MembersAreShallow(c, u, depth);
        assert r.members[1..] == MembersAt(c, u, depth).members;
      }
    }
  }

  /** The text of a tree parses back to the tree, to its last byte, if and only if the tree is nested
      at most 1000 deep. */
  lemma {:induction false} PrintedTextParsesBack(v: Json, fmt: bool, requireEnd: bool)
    ensures TextAt(Render(v, fmt, 0) + [0], requireEnd) == Ok(v, |Render(v, fmt, 0)|) <==> Nesting(v) <= 1000
  {
    hide Render;
    hide ValueAt;
    var t := Render(v, fmt, 0);
    var c := t + [0];
    FirstByte(v, fmt, 0);
    PunctuationIsNoNumber();
    FirstByteIsNoMark(v, fmt);
    assert c[..|t|] == t && c[|t|] == 0;
    assert |c| > 4 ==> c[..3][0] == t[0];
    SkipOver(c, 0, 0);
    SkipOver(c, |t|, 0);
    if Nesting(v) <= NESTING_LIMIT {
      ValueBack(v, fmt, 0, c, 0, 0);
    } else {
      ParsedIsShallow(c, 0, 0);
    }
  }

  lemma {:induction false} FirstByteIsNoMark(v: Json, fmt: bool)
    ensures Render(v, fmt, 0) != [] && Render(v, fmt, 0)[0] != 0xEF
  {
    hide RenderItems;
    hide RenderMembers;
  }

  /** So the text determines the tree: no two trees print alike. */
  lemma {:induction false} PrintingIsInjective(v: Json, w: Json, fmt: bool)
    requires Nesting(v) <= 1000 && Nesting(w) <= 1000
    ensures Render(v, fmt, 0) == Render(w, fmt, 0) ==> v == w
  {
    hide *;
    PrintedTextParsesBack(v, fmt, false);
    PrintedTextParsesBack(w, fmt, false);
  }
}
