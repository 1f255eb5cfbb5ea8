/** What is printed: the one text of a value in a layout that is told gap by gap, and always strict JSON. */
module JsonStrict {
  import opened Bytes
  import opened UnicodeEscape
  import opened JsonString
  import opened JsonText
  import opened JsonGrammar
  import opened JsonRoundTrip
  import opened JsonSyntax
  import opened JsonLiterals

  // ---- numbers

  /** No leading zero, and no minus in front of zero. */
  predicate PlainInteger(minus: bool, digits: Text) {
    digits != [] && AllDigit(digits) && (digits[0] == 48 ==> digits == [48] && !minus)
  }

  function Signed(minus: bool, n: int): int { if minus then -n else n }

  function SignAnd(minus: bool, digits: Text): Text { (if minus then [45] else []) + digits }

  lemma {:induction false} DigitsArePlain(n: nat)
    ensures var w := Digits(n); w != [] && AllDigit(w) && (w[0] == 48 <==> n == 0) && (n == 0 ==> w == [48])
    ensures Stands(Digits(n)) == n
  {
    hide Digit;
    var w := Digits(n);
    forall i | 0 <= i < |w| ensures Digit(w[i]) { DigitIs(w[i]); }
    DigitsReadBack(n);
    DigitsStand(w);
    if n >= 10 {
      DigitsArePlain(n / 10);
      assert w[0] == Digits(n / 10)[0];
    }
  }

  lemma {:induction false} PlainDigits(w: Text)
    requires w != [] && AllDigit(w) && (w[0] == 48 ==> w == [48])
    ensures Digits(Stands(w)) == w && (Stands(w) == 0 <==> w == [48])
  {
    hide *;
    var init, b := w[..|w| - 1], w[|w| - 1];
    if init == [] {
      OneDigit(w);
    } else {
      assert init[0] == w[0];
      FrontDigits(w);
      PlainDigits(init);
      DigitsNext(Stands(init), b - 48);
      assert w == init + [b];
    }
  }

  lemma {:induction false} OneDigit(w: Text)
    requires |w| == 1 && AllDigit(w)
    ensures Digits(Stands(w)) == w && (Stands(w) == 0 <==> w == [48])
  {
    assert Stands(w[..0]) == 0;
  }

  lemma {:induction false} FrontDigits(w: Text)
    requires |w| > 1 && AllDigit(w)
    ensures AllDigit(w[..|w| - 1]) && 48 <= w[|w| - 1] <= 57
    ensures Stands(w) == Stands(w[..|w| - 1]) * 10 + (w[|w| - 1] - 48)
  {
    hide Digit;
    DigitIs(w[|w| - 1]);
  }

  lemma {:induction false} DigitsNext(high: nat, b: nat)
    requires high > 0 && b < 10
    ensures Digits(high * 10 + b) == Digits(high) + [48 + b]
  {
    var n := high * 10 + b;
    assert n / 10 == high && n % 10 == b;
  }

  /** The printed form of an integer is the only text of a minus or nothing and digits without a leading zero that
      stands for it. */
  lemma {:induction false} DecimalIsOnly(t: Text, n: int)
    ensures t == Decimal(n) <==>
              exists minus, w :: PlainInteger(minus, w) && t == SignAnd(minus, w) && n == Signed(minus, Stands(w))
  {
    hide Stands;
    hide AllDigit;
    var m: nat := if n < 0 then -n else n;
    DigitsArePlain(m);
    assert Decimal(n) == SignAnd(n < 0, Digits(m));
    assert PlainInteger(n < 0, Digits(m));
    if minus, w :| PlainInteger(minus, w) && t == SignAnd(minus, w) && n == Signed(minus, Stands(w)) {
      PlainDigits(w);
    }
  }

  // ---- strict JSON

  /** Section 6 of RFC 8259. */
  predicate StrictNumeral(n: Numeral) {
    && GoodNumeral(n) && n.whole != [] && (n.whole[0] == 48 ==> |n.whole| == 1)
    && (n.fraction.Some? ==> n.fraction.value != [])
  }

  /** Section 7: no quote, backslash or control byte as it is, and every escape whole. */
  predicate StrictUnit(u: Unit) { GoodUnit(u) && !u.Spoiled? && (u.Raw? ==> u.b >= 32 && u.b != 34) }

  predicate StrictString(body: Text, us: seq<Unit>) {
    (forall i :: 0 <= i < |us| ==> StrictUnit(us[i])) && SpelledUnits(us) == body
  }

  /** Section 2: space, tab, line feed, carriage return. */
  predicate StrictGap(t: Text) { forall i :: 0 <= i < |t| ==> t[i] in [32, 9, 10, 13] }

  predicate Strict(d: Doc)
    decreases d, 1
  {
    match d
    case WordDoc(v) => v.Null? || v.False? || v.True?
    case NumberDoc(n) => StrictNumeral(n)
    case StringDoc(body, us) => StrictString(body, us)
    case ArrayDoc(gap, items) => StrictGap(gap) && StrictItems(items)
    case ObjectDoc(gap, fields) => StrictGap(gap) && StrictFields(fields)
  }

  predicate StrictItems(items: seq<Item>)
    decreases items, 0
  {
    items == []
    || (StrictGap(items[0].before) && Strict(items[0].value) && StrictGap(items[0].after) && StrictItems(items[1..]))
  }

  predicate StrictFields(fields: seq<Field>)
    decreases fields, 0
  {
    fields == []
    || (StrictKey(fields[0]) && Strict(fields[0].value) && StrictGap(fields[0].after) && StrictFields(fields[1..]))
  }

  predicate StrictKey(f: Field) {
    StrictGap(f.before) && StrictString(f.body, f.units) && StrictGap(f.colon) && StrictGap(f.lead)
  }

  // ---- the printed layout

  /** A byte that needs no escape; quote or backslash, or one of five control bytes by its letter; another control
      byte by its number, in lower-case digits. */
  predicate PlainUnit(u: Unit) {
    match u
    case Raw(b) => b >= 32 && b != 34 && b != 92
    case Short(letter) => letter in [34, 92, 98, 102, 110, 114, 116]
    case Code(cp, digits) =>
      && 0 < cp < 32 && cp !in [8, 9, 10, 12, 13]
      && digits == [48, 48, LOWER_HEX[cp / 16], LOWER_HEX[cp % 16]]
    case _ => false
  }

  predicate PlainString(body: Text, us: seq<Unit>) {
    (forall i :: 0 <= i < |us| ==> PlainUnit(us[i])) && SpelledUnits(us) == body
  }

  predicate PlainNumeral(n: Numeral) {
    && n.fraction.None? && n.power.None? && PlainInteger(n.minus, n.whole)
    && -0x8000_0000 <= Signed(n.minus, Stands(n.whole)) <= 0x7FFF_FFFF
  }

  /** In formatted text a line starts, and `d` tabs. */
  function Line(fmt: bool, d: nat): Text { if fmt then [10] + Tabs(d) else [] }

  /** The layout at depth `d`. Formatted: a space after each comma of an array; each key of an object on a line of its
      own, one tab deeper than the object, with a tab after its colon; the closing brace on a line as deep as the
      object. Otherwise no gaps at all. */
  predicate Printed(v: Doc, fmt: bool, d: nat)
    decreases v, 1
  {
    match v
    case WordDoc(w) => w.Null? || w.False? || w.True?
    case NumberDoc(n) => PlainNumeral(n)
    case StringDoc(body, us) => PlainString(body, us)
    case ArrayDoc(gap, items) => gap == [] && PrintedItems(items, [], fmt, d + 1)
    case ObjectDoc(gap, fields) => gap == Line(fmt, d) && PrintedFields(fields, fmt, d + 1)
  }

  predicate PrintedItems(items: seq<Item>, before: Text, fmt: bool, d: nat)
    decreases items, 0
  {
    items == []
    || (&& items[0].before == before && Printed(items[0].value, fmt, d) && items[0].after == []
        && PrintedItems(items[1..], if fmt then [32] else [], fmt, d))
  }

  predicate PrintedFields(fields: seq<Field>, fmt: bool, d: nat)
    requires d > 0
    decreases fields, 0
  {
    fields == []
    || (&& PrintedKey(fields[0], fmt, d) && Printed(fields[0].value, fmt, d)
        && fields[0].after == (if |fields| == 1 then Line(fmt, d - 1) else [])
        && PrintedFields(fields[1..], fmt, d))
  }

  predicate PrintedKey(f: Field, fmt: bool, d: nat) {
    && f.before == Line(fmt, d) && PlainString(f.body, f.units) && f.colon == []
    && f.lead == if fmt then [9] else []
  }

  // ---- lexemes

  lemma {:induction false} UnitIsPlain(u: Unit) returns (b: Byte)
    requires PlainUnit(u)
    ensures GoodUnit(u) && StrictUnit(u) && UnitMeaning(u) == [b] && b != 0 && SpelledUnit(u) == EscapedByte(b)
  {
    match u
    case Raw(x) =>
      hide *;
      b := x;
      RawIsPlain(x);
    case Short(letter) =>
      hide *;
      b := ShortIsPlain(letter);
    case Code(cp, digits) =>
      hide *;
      b := cp;
      CodeIsPlain(cp, digits);
  }

  lemma {:induction false} RawIsPlain(b: Byte)
    requires PlainUnit(Raw(b))
    ensures var u := Raw(b);
            GoodUnit(u) && StrictUnit(u) && UnitMeaning(u) == [b] && b != 0 && SpelledUnit(u) == EscapedByte(b)
  {
  }

  lemma {:induction false} ShortIsPlain(letter: Byte) returns (b: Byte)
    requires PlainUnit(Short(letter))
    ensures var u := Short(letter);
            GoodUnit(u) && StrictUnit(u) && UnitMeaning(u) == [b] && b != 0 && SpelledUnit(u) == EscapedByte(b)
  {
    b := SHORT[letter];
  }

  lemma {:induction false} CodeIsPlain(cp: nat, digits: Text)
    requires PlainUnit(Code(cp, digits))
    ensures var u := Code(cp, digits);
            GoodUnit(u) && StrictUnit(u) && UnitMeaning(u) == [cp] && SpelledUnit(u) == EscapedByte(cp)
    ensures 0 < cp < 32
  {
    assert HexDigitFor(digits[2], cp / 16) && HexDigitFor(digits[3], cp % 16) && HexDigitFor(48, 0);
    assert HexDigit(cp / 16) == LOWER_HEX[cp / 16] && HexDigit(cp % 16) == LOWER_HEX[cp % 16];
  }

  lemma {:induction false} PlainUnitFor(b: Byte) returns (u: Unit)
    requires b != 0
    ensures PlainUnit(u) && GoodUnit(u) && UnitMeaning(u) == [b]
  {
    u := if b == 34 || b == 92 then Short(b)
      else if b >= 32 then Raw(b)
      else if b == 8 then Short(98)
      else if b == 9 then Short(116)
      else if b == 10 then Short(110)
      else if b == 12 then Short(102)
      else if b == 13 then Short(114)
      else Code(b, [48, 48, LOWER_HEX[b / 16], LOWER_HEX[b % 16]]);
    hide LOWER_HEX;
    var x := UnitIsPlain(u);
  }

  lemma {:induction false} EscapedFirst(b: Byte, t: Text)
    ensures Escaped([b] + t) == EscapedByte(b) + Escaped(t)
  {
    hide EscapedByte;
    assert ([b] + t)[1..] == t;
  }

  lemma {:induction false} UnitsArePlain(us: seq<Unit>)
    requires forall i :: 0 <= i < |us| ==> PlainUnit(us[i])
    ensures GoodUnits(us) && (forall i :: 0 <= i < |us| ==> StrictUnit(us[i]))
    ensures 0 !in JoinedMeaning(us) && SpelledUnits(us) == Escaped(JoinedMeaning(us))
  {
    hide PlainUnit;
    hide StrictUnit;
    hide GoodUnit;
    hide SpelledUnit;
    hide UnitMeaning;
    hide EscapedByte;
    if us != [] {
      var rest := us[1..];
      UnitsArePlain(rest);
      var b := UnitIsPlain(us[0]);
      assert forall i :: 1 <= i < |us| ==> us[i] == rest[i - 1];
      EscapedFirst(b, JoinedMeaning(rest));
    }
  }

  lemma {:induction false} PlainUnitsFor(s: Text) returns (us: seq<Unit>)
    requires 0 !in s
    ensures (forall i :: 0 <= i < |us| ==> PlainUnit(us[i])) && GoodUnits(us) && JoinedMeaning(us) == s
  {
    hide PlainUnit;
    hide GoodUnit;
    hide UnitMeaning;
    us := [];
    if s != [] {
      assert forall i :: 0 <= i < |s| ==> s[i] in s;
      var u := PlainUnitFor(s[0]);
      var rest := PlainUnitsFor(s[1..]);
      us := [u] + rest;
      assert us[1..] == rest;
      assert s == [s[0]] + s[1..];
    }
  }

  lemma {:induction false} HexIsNoQuote(t: Text, u: nat)
    requires Writes(t, u)
    ensures |t| == 4 && forall i :: 0 <= i < 4 ==> t[i] != 34 && t[i] != 92
  {
    HexIsHigh(t[0], u / 4096);
    HexIsHigh(t[1], u / 256 % 16);
    HexIsHigh(t[2], u / 16 % 16);
    HexIsHigh(t[3], u % 16);
  }

  lemma {:induction false} HexIsHigh(b: Byte, v: nat)
    requires HexDigitFor(b, v)
    ensures b != 34 && b != 92
  {
    HexDigitIs(b, v);
  }

  lemma {:induction false} PlainThenClosed(a: Text, rest: Text)
    requires Closed(rest) && forall i :: 0 <= i < |a| ==> a[i] != 34 && a[i] != 92
    ensures Closed(a + rest)
  {
    if a == [] {
      assert a + rest == rest;
    } else {
      PlainThenClosed(a[1..], rest);
      assert (a + rest)[1..] == a[1..] + rest;
    }
  }

  lemma {:induction false} EscapeThenClosed(b: Byte, rest: Text)
    requires Closed(rest)
    ensures Closed([92, b] + rest)
  {
    assert ([92, b] + rest)[2..] == rest;
  }

  lemma {:induction false} CodeThenClosed(digits: Text, u: nat, rest: Text)
    requires Writes(digits, u) && Closed(rest)
    ensures Closed(([92, 117] + digits) + rest)
  {
    hide Closed;
    HexIsNoQuote(digits, u);
    PlainThenClosed(digits, rest);
    EscapeThenClosed(117, digits + rest);
    assert ([92, 117] + digits) + rest == [92, 117] + (digits + rest);
  }

  lemma {:induction false} StrictThenClosed(u: Unit, rest: Text)
    requires StrictUnit(u) && Closed(rest)
    ensures Closed(SpelledUnit(u) + rest)
  {
    hide Closed;
    hide Writes;
    match u
    case Raw(b) => PlainThenClosed([b], rest);
    case Short(letter) => EscapeThenClosed(letter, rest);
    case Code(cp, digits) => CodeThenClosed(digits, cp, rest);
    case Pair(cp, high, low) =>
      CodeThenClosed(low, 0xDC00 + (cp - 0x10000) % 0x400, rest);
      CodeThenClosed(high, 0xD800 + (cp - 0x10000) / 0x400, ([92, 117] + low) + rest);
      assert SpelledUnit(u) + rest == ([92, 117] + high) + (([92, 117] + low) + rest);
  }

  /** Strict units close, so a strict literal is a literal. */
  lemma {:induction false} StrictIsClosed(us: seq<Unit>)
    requires forall i :: 0 <= i < |us| ==> StrictUnit(us[i])
    ensures GoodUnits(us) && Closed(SpelledUnits(us))
  {
    hide SpelledUnit;
    hide GoodUnit;
    if us != [] {
      StrictIsClosed(us[1..]);
      assert forall i :: 1 <= i < |us| ==> us[i] == us[1..][i - 1];
      StrictThenClosed(us[0], SpelledUnits(us[1..]));
    }
  }

  lemma {:induction false} PlainStringIs(body: Text, us: seq<Unit>)
    requires PlainString(body, us)
    ensures GoodString(body, us) && StrictString(body, us) && GoodUnits(us) && body == Escaped(StringMeaning(us))
  {
    hide PlainUnit;
    hide StrictUnit;
    hide Closed;
    hide SpelledUnits;
    hide JoinedMeaning;
    hide Escaped;
    UnitsArePlain(us);
    StrictIsClosed(us);
    CStringIsItself(JoinedMeaning(us));
  }

  lemma {:induction false} PlainStringFor(s: CString) returns (body: Text, us: seq<Unit>)
    ensures PlainString(body, us) && GoodUnits(us) && StringMeaning(us) == s
  {
    hide PlainUnit;
    hide SpelledUnits;
    hide GoodUnit;
    us := PlainUnitsFor(s);
    body := SpelledUnits(us);
    CStringIsItself(s);
  }

  lemma {:induction false} PlainSize(n: Numeral)
    requires GoodNumeral(n) && n.fraction.None? && n.power.None?
    ensures Size(n) == Stands(n.whole)
  {
    hide *;
    NumeralSizeIs(n);
    SizeIs(Stands(n.whole), 0, 0, 0);
    ZeroParts();
    ScaledIs(Stands(n.whole) * Pow10(0) + 0, 0);
    PowZero();
    NoExponent(n.power);
  }

  lemma {:induction false} ZeroParts()
    ensures Stands([]) == 0
  {
  }

  lemma {:induction false} NoExponent(p: Option<Power>)
    requires p.None?
    ensures Exponent(p) == 0
  {
  }

  lemma {:induction false} PlainNumeralIs(n: Numeral)
    requires PlainNumeral(n)
    ensures GoodNumeral(n) && StrictNumeral(n) && |SpelledNumeral(n)| <= 63
    ensures SpelledNumeral(n) == Decimal(NumeralMeaning(n))
  {
    hide Size;
    hide Stands;
    hide Digit;
    hide Decimal;
    var x, t := Signed(n.minus, Stands(n.whole)), SignAnd(n.minus, n.whole);
    PlainSize(n);
    DecimalIsOnly(t, x);
    DecimalLength(x);
    assert SpelledNumeral(n) == t;
  }

  lemma {:induction false} PlainNumeralFor(x: Int32) returns (n: Numeral)
    ensures PlainNumeral(n) && GoodNumeral(n) && NumeralMeaning(n) == x
  {
    hide Size;
    hide Stands;
    hide AllDigit;
    hide GoodNumeral;
    var y: int := x;
    var m: nat := if y < 0 then -y else y;
    DigitsArePlain(m);
    n := Numeral(x < 0, Digits(m), None, None);
    PlainNumeralIs(n);
    PlainSize(n);
  }

  // ---- the layout is the printer's

  function NewLine(fmt: bool): Text { if fmt then [10] else [] }

  lemma {:induction false} LineIs(fmt: bool, d: nat)
    ensures Line(fmt, d) == NewLine(fmt) + Lead(fmt, d)
    ensures Open(fmt) == [123] + NewLine(fmt) && Close(fmt, d) == Lead(fmt, d) + [125]
  {
  }

  lemma {:induction false} ItemsLaid(items: seq<Item>, before: Text, fmt: bool, d: nat)
    requires items != [] && PrintedItems(items, before, fmt, d)
    ensures var i := items[0];
            && i.before == before && Printed(i.value, fmt, d) && i.after == []
            && PrintedItems(items[1..], if fmt then [32] else [], fmt, d)
  {
    hide Printed;
  }

  lemma {:induction false} ItemsGood(items: seq<Item>)
    requires items != [] && Gap(items[0].before) && Good(items[0].value) && items[0].after == []
             && GoodItems(items[1..])
    ensures GoodItems(items) && ItemsMeant(items) == [Meaning(items[0].value)] + ItemsMeant(items[1..])
    ensures SpelledItems(items) == items[0].before + (Spelled(items[0].value)
              + if |items| == 1 then [] else [44] + SpelledItems(items[1..]))
  {
    hide Good;
    hide Spelled;
    hide Meaning;
    var more: Text := if |items| == 1 then [] else [44] + SpelledItems(items[1..]);
    assert [] + more == more;
  }

  lemma {:induction false} SeparatorIs(fmt: bool)
    ensures Separator(fmt) == [44] + (if fmt then [32] else [])
  {
  }

  lemma {:induction false} ItemsRendered(items: seq<Item>, before: Text, fmt: bool, d: nat)
    requires items != [] && Gap(before) && PrintedItems(items, before, fmt, d)
    ensures GoodItems(items) && SpelledItems(items) == before + RenderItems(ItemsMeant(items), fmt, d)
    decreases items, 0
  {
    hide *;
    ItemsLaid(items, before, fmt, d);
    var i, rest := items[0], items[1..];
    PrintedIsRendered(i.value, fmt, d);
    if |items| == 1 {
      NothingMeant(rest);
      ItemsGood(items);
      ItemsText(ItemsMeant(items), fmt, d);
      assert Spelled(i.value) + [] == Spelled(i.value);
    } else {
      var gap: Text := if fmt then [32] else [];
      SpaceIsGap(fmt);
      ItemsRendered(rest, gap, fmt, d);
      ItemsGood(items);
      var vs := ItemsMeant(items);
      MeantLength(rest);
      assert vs[1..] == ItemsMeant(rest);
      ItemsText(vs, fmt, d);
      SeparatorIs(fmt);
      assert [44] + (gap + RenderItems(vs[1..], fmt, d)) == ([44] + gap) + RenderItems(vs[1..], fmt, d);
    }
  }

  lemma {:induction false} SpaceIsGap(fmt: bool)
    ensures Gap(if fmt then [32] else [])
  {
  }

  lemma {:induction false} NothingMeant(items: seq<Item>)
    requires items == []
    ensures GoodItems(items) && ItemsMeant(items) == []
  {
  }

  lemma {:induction false} MeantLength(items: seq<Item>)
    requires items != [] && GoodItems(items)
    ensures ItemsMeant(items) != []
  {
    hide Good;
    hide Meaning;
  }

  lemma {:induction false} FieldsLaid(fields: seq<Field>, fmt: bool, d: nat)
    requires d > 0 && fields != [] && PrintedFields(fields, fmt, d)
    ensures var f := fields[0];
            && PrintedKey(f, fmt, d) && Printed(f.value, fmt, d) && PrintedFields(fields[1..], fmt, d)
            && f.after == (if |fields| == 1 then Line(fmt, d - 1) else [])
  {
    hide Printed;
    hide PrintedKey;
  }

  lemma {:induction false} KeyRendered(f: Field, fmt: bool, d: nat)
    requires PrintedKey(f, fmt, d)
    ensures GoodKey(f) && GoodUnits(f.units) && StrictKey(f)
    ensures SpelledKey(f) == NewLine(fmt) + MemberHead(StringMeaning(f.units), fmt, d)
  {
    hide PlainString;
    hide Escaped;
    hide StringMeaning;
    hide GoodString;
    hide StrictString;
    hide GoodUnits;
    PlainStringIs(f.body, f.units);
    LineIs(fmt, d);
    LineIsGap(fmt, d);
    var t := SpelledString(f.body);
    assert t == Quoted(StringMeaning(f.units));
    assert f.colon + ([58] + f.lead) == Colon(fmt);
    assert (NewLine(fmt) + Lead(fmt, d)) + (t + Colon(fmt)) == NewLine(fmt) + (Lead(fmt, d) + (t + Colon(fmt)));
  }

  lemma {:induction false} LineIsGap(fmt: bool, d: nat)
    ensures Gap(Line(fmt, d)) && StrictGap(Line(fmt, d))
  {
  }

  lemma {:induction false} FieldsGood(fields: seq<Field>)
    requires fields != [] && GoodKey(fields[0]) && GoodUnits(fields[0].units) && Good(fields[0].value)
    requires Gap(fields[0].after) && GoodFields(fields[1..])
    ensures GoodFields(fields)
    ensures FieldsMeant(fields) == [Member(StringMeaning(fields[0].units), Meaning(fields[0].value))]
                                   + FieldsMeant(fields[1..])
    ensures SpelledFields(fields) == SpelledKey(fields[0]) + (Spelled(fields[0].value)
              + (fields[0].after + if |fields| == 1 then [] else [44] + SpelledFields(fields[1..])))
  {
    hide Good;
    hide GoodKey;
    hide GoodUnits;
    hide Spelled;
    hide SpelledKey;
    hide StringMeaning;
    hide Meaning;
  }

  lemma {:induction false} MembersTextIs(ms: seq<Member>, fmt: bool, d: nat)
    requires ms != []
    ensures RenderMembers(ms, fmt, d)
            == (MemberHead(ms[0].key, fmt, d) + (Render(ms[0].value, fmt, d)
                + ((if |ms| == 1 then [] else [44]) + NewLine(fmt)))) + RenderMembers(ms[1..], fmt, d)
  {
    hide Render;
    hide MemberHead;
  }

  lemma {:induction false} LastTexts(n: Text, h: Text, v: Text, l: Text)
    ensures (n + h) + (v + ((n + l) + [])) == n + (((h + (v + ([] + n))) + []) + l)
  {
    assert [] + n == n;
  }

  lemma {:induction false} NextTexts(n: Text, h: Text, v: Text, r: Text, l: Text)
    ensures (n + h) + (v + ([] + ([44] + (n + (r + l))))) == n + (((h + (v + ([44] + n))) + r) + l)
  {
    assert [] + ([44] + (n + (r + l))) == [44] + (n + (r + l));
  }

  lemma {:induction false} FieldsRendered(fields: seq<Field>, fmt: bool, d: nat)
    requires d > 0 && fields != [] && PrintedFields(fields, fmt, d)
    ensures GoodFields(fields)
    ensures SpelledFields(fields) == NewLine(fmt) + (RenderMembers(FieldsMeant(fields), fmt, d) + Lead(fmt, d - 1))
    decreases fields, 0
  {
    hide *;
    FieldsLaid(fields, fmt, d);
    var f, rest := fields[0], fields[1..];
    PrintedIsRendered(f.value, fmt, d);
    KeyRendered(f, fmt, d);
    LineIs(fmt, d - 1);
    LineIsGap(fmt, d - 1);
    NoGap();
    var n, l := NewLine(fmt), Lead(fmt, d - 1);
    var h, v := MemberHead(StringMeaning(f.units), fmt, d), Spelled(f.value);
    if |fields| == 1 {
      NoFields(rest, fmt, d);
      FieldsGood(fields);
      MembersTextIs(FieldsMeant(fields), fmt, d);
      LastTexts(n, h, v, l);
    } else {
      FieldsRendered(rest, fmt, d);
      FieldsGood(fields);
      FieldsLength(rest);
      var ms := FieldsMeant(fields);
      assert ms[1..] == FieldsMeant(rest);
      MembersTextIs(ms, fmt, d);
      NextTexts(n, h, v, RenderMembers(ms[1..], fmt, d), l);
    }
  }

  lemma {:induction false} NoGap()
    ensures Gap([])
  {
  }

  lemma {:induction false} NoFields(fields: seq<Field>, fmt: bool, d: nat)
    requires fields == []
    ensures GoodFields(fields) && FieldsMeant(fields) == [] && RenderMembers([], fmt, d) == []
  {
  }

  lemma {:induction false} FieldsLength(fields: seq<Field>)
    requires fields != [] && GoodFields(fields)
    ensures FieldsMeant(fields) != []
  {
    hide Good;
    hide GoodKey;
    hide Meaning;
    hide StringMeaning;
  }

  /** A value in the printed layout is spelled as it is printed. */
  lemma {:induction false} PrintedIsRendered(v: Doc, fmt: bool, d: nat)
    requires Printed(v, fmt, d)
    ensures Good(v) && Spelled(v) == Render(Meaning(v), fmt, d)
    decreases v, 1
  {
    match v
    case WordDoc(w) =>
    case NumberDoc(n) =>
      hide SpelledNumeral;
      hide GoodNumeral;
      hide Decimal;
      hide NumeralMeaning;
      PlainNumeralIs(n);
    case StringDoc(body, us) =>
      hide PlainString;
      hide GoodString;
      hide StringMeaning;
      hide Escaped;
      PlainStringIs(body, us);
      assert SpelledString(body) == Quoted(StringMeaning(us));
    case ArrayDoc(gap, items) => ArrayRendered(v, fmt, d);
    case ObjectDoc(gap, fields) => ObjectRendered(v, fmt, d);
  }

  lemma {:induction false} ArrayRendered(v: Doc, fmt: bool, d: nat)
    requires v.ArrayDoc? && Printed(v, fmt, d)
    ensures Good(v) && Spelled(v) == Render(Meaning(v), fmt, d)
    decreases v, 0
  {
    hide PrintedItems;
    hide GoodItems;
    hide SpelledItems;
    hide ItemsMeant;
    hide RenderItems;
    if v.items == [] {
      NothingMeant(v.items);
      assert RenderItems([], fmt, d + 1) == [] by { NothingRendered(fmt, d + 1); }
    } else {
      ItemsRendered(v.items, [], fmt, d + 1);
      assert [] + RenderItems(ItemsMeant(v.items), fmt, d + 1) == RenderItems(ItemsMeant(v.items), fmt, d + 1);
    }
  }

  lemma {:induction false} NothingRendered(fmt: bool, d: nat)
    ensures RenderItems([], fmt, d) == [] && RenderMembers([], fmt, d) == []
  {
  }

  lemma {:induction false} ObjectRendered(v: Doc, fmt: bool, d: nat)
    requires v.ObjectDoc? && Printed(v, fmt, d)
    ensures Good(v) && Spelled(v) == Render(Meaning(v), fmt, d)
    decreases v, 0
  {
    hide PrintedFields;
    hide GoodFields;
    hide SpelledFields;
    hide FieldsMeant;
    hide RenderMembers;
    hide Open;
    hide Close;
    hide Line;
    hide Lead;
    hide NewLine;
    LineIs(fmt, d);
    LineIsGap(fmt, d);
    if v.fields == [] {
      NoFields(v.fields, fmt, d + 1);
      ObjectTexts([123], NewLine(fmt), [], Lead(fmt, d));
    } else {
      FieldsRendered(v.fields, fmt, d + 1);
      ObjectTexts([123], NewLine(fmt), RenderMembers(FieldsMeant(v.fields), fmt, d + 1), Lead(fmt, d));
    }
  }

  lemma {:induction false} ObjectTexts(b: Text, n: Text, r: Text, l: Text)
    ensures b + ((n + (r + l)) + [125]) == (b + n) + (r + (l + [125]))
    ensures r == [] ==> n + (r + l) == n + l
  {
  }

  // ---- every value has a text in the layout

  lemma {:induction false} PrintedDoc(v: Json, fmt: bool, d: nat) returns (doc: Doc)
    ensures Printed(doc, fmt, d) && Good(doc) && Meaning(doc) == v
    decreases v, 1
  {
    match v
    case Num(x) =>
      hide NumeralMeaning;
      hide GoodNumeral;
      var n := PlainNumeralFor(x);
      doc := NumberDoc(n);
      PrintedIsRendered(doc, fmt, d);
    case Str(s) =>
      hide PlainString;
      hide GoodString;
      hide StringMeaning;
      var body, us := PlainStringFor(s);
      doc := StringDoc(body, us);
      PrintedIsRendered(doc, fmt, d);
    case Arr(vs) =>
      hide PrintedItems;
      hide GoodItems;
      hide ItemsMeant;
      var items := PrintedItemsFor(vs, [], fmt, d + 1);
      doc := ArrayDoc([], items);
    case Obj(ms) =>
      hide PrintedFields;
      hide GoodFields;
      hide FieldsMeant;
      var fields := PrintedFieldsFor(ms, fmt, d + 1);
      doc := ObjectDoc(Line(fmt, d), fields);
      LineIsGap(fmt, d);
    case _ => doc := WordDoc(v);
  }

  lemma {:induction false} ItemsForms(i: Item, rest: seq<Item>, fmt: bool, d: nat)
    requires Printed(i.value, fmt, d) && Good(i.value) && i.after == [] && Gap(i.before)
    requires PrintedItems(rest, if fmt then [32] else [], fmt, d) && GoodItems(rest)
    ensures var items := [i] + rest;
            && PrintedItems(items, i.before, fmt, d) && GoodItems(items)
            && ItemsMeant(items) == [Meaning(i.value)] + ItemsMeant(rest)
  {
    hide Printed;
    hide Good;
    hide Meaning;
    assert ([i] + rest)[1..] == rest;
  }

  lemma {:induction false} PrintedItemsFor(vs: seq<Json>, before: Text, fmt: bool, d: nat) returns (items: seq<Item>)
    requires Gap(before)
    ensures PrintedItems(items, before, fmt, d) && GoodItems(items) && ItemsMeant(items) == vs
    decreases vs, 0
  {
    if vs == [] {
      items := [];
    } else {
      hide *;
      var doc := PrintedDoc(vs[0], fmt, d);
      SpaceIsGap(fmt);
      var rest := PrintedItemsFor(vs[1..], if fmt then [32] else [], fmt, d);
      items := [Item(before, doc, [])] + rest;
      ItemsForms(Item(before, doc, []), rest, fmt, d);
      assert vs == [vs[0]] + vs[1..];
    }
  }

  lemma {:induction false} FieldsForms(f: Field, rest: seq<Field>, fmt: bool, d: nat)
    requires d > 0 && PrintedKey(f, fmt, d) && GoodKey(f) && GoodUnits(f.units) && Printed(f.value, fmt, d)
             && Good(f.value)
    requires f.after == (if rest == [] then Line(fmt, d - 1) else []) && Gap(f.after)
    requires PrintedFields(rest, fmt, d) && GoodFields(rest)
    ensures var fields := [f] + rest;
            && PrintedFields(fields, fmt, d) && GoodFields(fields)
            && FieldsMeant(fields) == [Member(StringMeaning(f.units), Meaning(f.value))] + FieldsMeant(rest)
  {
    hide Printed;
    hide PrintedKey;
    hide GoodKey;
    hide Good;
    hide Meaning;
    hide StringMeaning;
    assert ([f] + rest)[1..] == rest;
  }

  lemma {:induction false} PrintedFieldFor(m: Member, after: Text, fmt: bool, d: nat) returns (f: Field)
    requires Gap(after)
    ensures PrintedKey(f, fmt, d) && GoodKey(f) && GoodUnits(f.units) && StringMeaning(f.units) == m.key
    ensures Printed(f.value, fmt, d) && Good(f.value) && Meaning(f.value) == m.value && f.after == after
    decreases m.value, 2
  {
    hide Printed;
    hide Good;
    hide Meaning;
    hide StringMeaning;
    hide PlainString;
    hide GoodKey;
    hide GoodUnits;
    var body, us := PlainStringFor(m.key);
    var doc := PrintedDoc(m.value, fmt, d);
    f := Field(Line(fmt, d), body, us, [], if fmt then [9] else [], doc, after);
    KeyRendered(f, fmt, d);
  }

  lemma {:induction false} PrintedFieldsFor(ms: seq<Member>, fmt: bool, d: nat) returns (fields: seq<Field>)
    requires d > 0
    ensures PrintedFields(fields, fmt, d) && GoodFields(fields) && FieldsMeant(fields) == ms
    decreases ms, 0
  {
    if ms == [] {
      fields := [];
    } else {
      hide *;
      var rest := PrintedFieldsFor(ms[1..], fmt, d);
      NoFields([], fmt, d);
      var after := if rest == [] then Line(fmt, d - 1) else [];
      LineIsGap(fmt, d - 1);
      NoGap();
      var f := PrintedFieldFor(ms[0], after, fmt, d);
      fields := [f] + rest;
      FieldsForms(f, rest, fmt, d);
      assert ms == [Member(ms[0].key, ms[0].value)] + ms[1..];
    }
  }

  // ---- and it is strict

  lemma {:induction false} PrintedIsStrict(v: Doc, fmt: bool, d: nat)
    requires Printed(v, fmt, d)
    ensures Strict(v)
    decreases v, 1
  {
    match v
    case WordDoc(w) =>
    case NumberDoc(n) =>
      hide PlainNumeral;
      hide StrictNumeral;
      PlainNumeralIs(n);
    case StringDoc(body, us) =>
      hide PlainString;
      hide StrictString;
      PlainStringIs(body, us);
    case ArrayDoc(gap, items) =>
      hide PrintedItems;
      hide StrictItems;
      ItemsStrict(items, [], fmt, d + 1);
    case ObjectDoc(gap, fields) =>
      hide PrintedFields;
      hide StrictFields;
      hide Line;
      LineIsGap(fmt, d);
      FieldsStrict(fields, fmt, d + 1);
  }

  lemma {:induction false} ItemsStrict(items: seq<Item>, before: Text, fmt: bool, d: nat)
    requires PrintedItems(items, before, fmt, d) && StrictGap(before)
    ensures StrictItems(items)
    decreases items, 0
  {
    hide Strict;
    hide Printed;
    if items != [] {
      PrintedIsStrict(items[0].value, fmt, d);
      ItemsStrict(items[1..], if fmt then [32] else [], fmt, d);
    }
  }

  lemma {:induction false} FieldsStrict(fields: seq<Field>, fmt: bool, d: nat)
    requires d > 0 && PrintedFields(fields, fmt, d)
    ensures StrictFields(fields)
    decreases fields, 0
  {
    hide Strict;
    hide Printed;
    hide PrintedKey;
    hide StrictKey;
    hide Line;
    if fields != [] {
      KeyRendered(fields[0], fmt, d);
      LineIsGap(fmt, d - 1);
      PrintedIsStrict(fields[0].value, fmt, d);
      FieldsStrict(fields[1..], fmt, d);
    }
  }

  // ---- the results

  /** In the printed layout, and by strict grammar, `doc` means `v` and is spelled `t`. */
  predicate Prints(doc: Doc, v: Json, fmt: bool, d: nat, t: Text) {
    Printed(doc, fmt, d) && Strict(doc) && Good(doc) && Meaning(doc) == v && Spelled(doc) == t
  }

  /** What is printed of a value is the only text of the layout that means it, and it is strict JSON. */
  lemma {:induction false} PrintedTextIsOnly(t: Text, v: Json, fmt: bool, d: nat)
    ensures t == Render(v, fmt, d) <==> exists doc :: Prints(doc, v, fmt, d, t)
  {
    hide Printed;
    hide Strict;
    hide Good;
    hide Meaning;
    hide Spelled;
    hide Render;
    var doc := PrintedDoc(v, fmt, d);
    PrintedIsStrict(doc, fmt, d);
    PrintedIsRendered(doc, fmt, d);
    assert Prints(doc, v, fmt, d, Render(v, fmt, d));
    if exists doc :: Prints(doc, v, fmt, d, t) {
      var doc :| Prints(doc, v, fmt, d, t);
      PrintedIsRendered(doc, fmt, d);
    }
  }

  /** Every number in it is at most 63 bytes long. */
  predicate ShortNumbers(d: Doc)
    decreases d, 1
  {
    match d
    case NumberDoc(n) => |SpelledNumeral(n)| <= 63
    case ArrayDoc(_, items) => ShortItems(items)
    case ObjectDoc(_, fields) => ShortFields(fields)
    case _ => true
  }

  predicate ShortItems(items: seq<Item>)
    decreases items, 0
  {
    items == [] || (ShortNumbers(items[0].value) && ShortItems(items[1..]))
  }

  predicate ShortFields(fields: seq<Field>)
    decreases fields, 0
  {
    fields == [] || (ShortNumbers(fields[0].value) && ShortFields(fields[1..]))
  }

  lemma {:induction false} StrictStringIsGood(body: Text, us: seq<Unit>)
    requires StrictString(body, us)
    ensures GoodString(body, us)
  {
    hide StrictUnit;
    hide Closed;
    hide GoodUnits;
    StrictIsClosed(us);
  }

  lemma {:induction false} StrictGapIsGap(t: Text)
    requires StrictGap(t)
    ensures Gap(t)
  {
  }

  /** The parser's grammar has all of strict JSON but numbers of more than 63 bytes. */
  lemma {:induction false} StrictIsGood(d: Doc)
    requires Strict(d)
    ensures Good(d) <==> ShortNumbers(d)
    decreases d, 1
  {
    match d
    case WordDoc(_) =>
    case NumberDoc(n) => hide GoodNumeral;
    case StringDoc(body, us) =>
      hide StrictString;
      hide GoodString;
      StrictStringIsGood(body, us);
    case ArrayDoc(gap, items) =>
      hide StrictGap;
      hide Gap;
      StrictGapIsGap(gap);
      StrictItemsAreGood(items);
    case ObjectDoc(gap, fields) =>
      hide StrictGap;
      hide Gap;
      StrictGapIsGap(gap);
      StrictFieldsAreGood(fields);
  }

  lemma {:induction false} StrictItemsAreGood(items: seq<Item>)
    requires StrictItems(items)
    ensures GoodItems(items) <==> ShortItems(items)
    decreases items, 0
  {
    hide Strict;
    hide Good;
    hide ShortNumbers;
    hide StrictGap;
    hide Gap;
    if items != [] {
      StrictGapIsGap(items[0].before);
      StrictGapIsGap(items[0].after);
      StrictIsGood(items[0].value);
      StrictItemsAreGood(items[1..]);
    }
  }

  lemma {:induction false} StrictFieldsAreGood(fields: seq<Field>)
    requires StrictFields(fields)
    ensures GoodFields(fields) <==> ShortFields(fields)
    decreases fields, 0
  {
    hide Strict;
    hide Good;
    hide ShortNumbers;
    hide StrictGap;
    hide Gap;
    hide StrictString;
    hide GoodString;
    if fields != [] {
      var f := fields[0];
      StrictGapIsGap(f.before);
      StrictGapIsGap(f.colon);
      StrictGapIsGap(f.lead);
      StrictGapIsGap(f.after);
      StrictStringIsGood(f.body, f.units);
      StrictIsGood(f.value);
      StrictFieldsAreGood(fields[1..]);
    }
  }
}
