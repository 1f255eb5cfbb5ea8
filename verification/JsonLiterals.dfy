/** String literals and numbers: exactly what the parser accepts, and what it makes of it. */
module JsonLiterals {
  import opened Bytes
  import opened UnicodeEscape
  import opened JsonString
  import opened JsonText
  import opened JsonGrammar
  import opened JsonSyntax

  // ---- hexadecimal digits

  lemma {:induction false} HexDigitIs(b: Byte, v: nat)
    ensures HexDigitFor(b, v) <==> IsHex(b) && HexValue(b) == v
    ensures IsHex(b) <==> b in LOWER_HEX || b in UPPER_HEX
  {
    if v < 16 {
      assert LOWER_HEX[v] == if v < 10 then 48 + v else 87 + v;
      assert UPPER_HEX[v] == if v < 10 then 48 + v else 55 + v;
    }
  }

  lemma {:induction false} HexNumberOfFour(t: Text)
    requires |t| == 4 && AllHex(t)
    ensures HexNumber(t) == HexValue(t[0]) * 4096 + HexValue(t[1]) * 256 + HexValue(t[2]) * 16 + HexValue(t[3])
  {
    hide IsHex;
    hide HexValue;
    assert t[..3][..2] == t[..2] && t[..2][..1] == t[..1] && t[..1][..0] == [];
    assert HexNumber(t[..1]) == HexValue(t[0]);
    assert HexNumber(t[..2]) == HexNumber(t[..1]) * 16 + HexValue(t[1]);
    assert HexNumber(t[..3]) == HexNumber(t[..2]) * 16 + HexValue(t[2]);
  }

  lemma {:induction false} Nibbles(a: nat, b: nat, c: nat, d: nat, u: nat)
    requires a < 16 && b < 16 && c < 16 && d < 16
    ensures u == a * 4096 + b * 256 + c * 16 + d
            <==> u < 0x10000 && a == u / 4096 && b == u / 256 % 16 && c == u / 16 % 16 && d == u % 16
  {
    Sixteens(u);
    var x := a * 16 + b;
    var y := x * 16 + c;
    if u == y * 16 + d {
      LastNibble(u, y, d);
      LastNibble(y, x, c);
      LastNibble(x, a, b);
    }
  }

  lemma {:induction false} LastNibble(u: nat, q: nat, r: nat)
    requires u == q * 16 + r && r < 16
    ensures u / 16 == q && u % 16 == r
  {
  }

  lemma {:induction false} Sixteens(u: nat)
    ensures u / 256 == u / 16 / 16 && u / 4096 == u / 16 / 16 / 16
    ensures u == ((u / 16 / 16 / 16 * 16 + u / 16 / 16 % 16) * 16 + u / 16 % 16) * 16 + u % 16
  {
  }

  lemma {:induction false} WritesIsHex(t: Text, u: nat)
    requires |t| == 4
    ensures Writes(t, u) <==> AllHex(t) && HexNumber(t) == u
  {
    hide HexDigitFor;
    hide HexNumber;
    hide IsHex;
    hide HexValue;
    if u < 0x10000 {
      HexDigitIs(t[0], u / 4096);
      HexDigitIs(t[1], u / 256 % 16);
      HexDigitIs(t[2], u / 16 % 16);
      HexDigitIs(t[3], u % 16);
    }
    if AllHex(t) {
      HexNumberOfFour(t);
      HexNumberBound(t);
      Nibbles(HexValue(t[0]), HexValue(t[1]), HexValue(t[2]), HexValue(t[3]), u);
    }
  }

  lemma {:induction false} NotAllHex(t: Text)
    requires |t| == 4
    ensures !AllHex(t) <==> exists i :: 0 <= i < 4 && t[i] !in LOWER_HEX && t[i] !in UPPER_HEX
  {
    hide IsHex;
    hide HexDigitFor;
    forall i | 0 <= i < 4 ensures IsHex(t[i]) <==> t[i] in LOWER_HEX || t[i] in UPPER_HEX { HexDigitIs(t[i], 0); }
  }

  // ---- the units of a literal

  lemma {:induction false} ShortIs(b: Byte)
    ensures SimpleEscape(b) == if b in SHORT then Some(SHORT[b]) else None
    ensures LETTER_U !in SHORT
  {
  }

  lemma {:induction false} CodeDecodes(c: Text, p: nat, end: nat, cp: nat, digits: Text)
    requires p + 6 <= end < |c| && StandsAt([92, 117] + digits, c, p) && GoodUnit(Code(cp, digits))
    ensures Decoding(c, p, end) == Round(Utf8(cp), 6)
  {
    hide HexNumber;
    hide Utf8;
    hide LiteralAt;
    hide HexDigitFor;
    StandsSplit([92, 117], digits, c, p);
    StandingByte([92, 117], c, p, 0);
    StandingByte([92, 117], c, p, 1);
    WritesIsHex(digits, cp);
    EscapesOne(c, p, cp);
    assert Utf16(cp) == [cp];
    LiteralIsUtf16(c, p, end, cp);
  }

  lemma {:induction false} PairDecodes(c: Text, p: nat, end: nat, cp: nat, high: Text, low: Text)
    requires p + 12 <= end < |c| && StandsAt(([92, 117] + high) + ([92, 117] + low), c, p)
             && GoodUnit(Pair(cp, high, low))
    ensures Decoding(c, p, end) == Round(Utf8(cp), 12)
  {
    hide HexNumber;
    hide Utf8;
    hide LiteralAt;
    hide HexDigitFor;
    StandsSplit([92, 117] + high, [92, 117] + low, c, p);
    StandsSplit([92, 117], high, c, p);
    StandsSplit([92, 117], low, c, p + 6);
    StandingByte([92, 117], c, p, 0);
    StandingByte([92, 117], c, p, 1);
    StandingByte([92, 117], c, p + 6, 0);
    StandingByte([92, 117], c, p + 6, 1);
    var u, v := 0xD800 + (cp - 0x10000) / 0x400, 0xDC00 + (cp - 0x10000) % 0x400;
    WritesIsHex(high, u);
    WritesIsHex(low, v);
    EscapesTwo(c, p, u, v);
    assert Utf16(cp) == [u, v];
    LiteralIsUtf16(c, p, end, cp);
  }

  lemma {:induction false} SpoiledDecodes(c: Text, p: nat, end: nat, bytes: Text)
    requires p + 6 <= end < |c| && StandsAt([92, 117] + bytes, c, p) && GoodUnit(Spoiled(bytes))
    ensures Decoding(c, p, end) == Round([0], 6)
  {
    hide HexNumber;
    StandsSplit([92, 117], bytes, c, p);
    StandingByte([92, 117], c, p, 0);
    StandingByte([92, 117], c, p, 1);
    NotAllHex(bytes);
    assert c[p + 2..p + 6] == bytes;
    hide AllHex;
    assert LiteralAt(c, p, end) == Literal(0, 6);
    assert Utf8(0) == [0];
  }

  /** A round of decoding takes a unit that stands there and writes what it means. */
  lemma {:induction false} UnitDecodes(u: Unit, c: Text, p: nat, end: nat)
    requires GoodUnit(u) && StandsAt(SpelledUnit(u), c, p) && p < end < |c|
    requires p + |SpelledUnit(u)| <= end || (u == Short(34) && p + 2 == end + 1)
    ensures Decoding(c, p, end) == Round(UnitMeaning(u), |SpelledUnit(u)|)
  {
    match u
    case Raw(b) => StandingByte(SpelledUnit(u), c, p, 0);
    case Short(letter) =>
      StandingByte(SpelledUnit(u), c, p, 0);
      StandingByte(SpelledUnit(u), c, p, 1);
      ShortIs(letter);
    case Code(cp, digits) =>
      hide Decoding;
      hide Utf8;
      CodeDecodes(c, p, end, cp, digits);
    case Pair(cp, high, low) =>
      hide Decoding;
      hide Utf8;
      PairDecodes(c, p, end, cp, high, low);
    case Spoiled(bytes) =>
      hide Decoding;
      SpoiledDecodes(c, p, end, bytes);
  }

  lemma {:induction false} Slice(c: Text, p: nat, a: nat, b: nat)
    requires p + a + b <= |c|
    ensures c[p..p + a + b] == c[p..p + a] + c[p + a..p + a + b]
  {
  }

  lemma {:induction false} TwoBytes(c: Text, p: nat)
    requires p + 2 <= |c|
    ensures c[p..p + 2] == [c[p], c[p + 1]]
  {
  }

  lemma {:induction false} EscapeIs(c: Text, p: nat, end: nat) returns (u: Unit)
    requires p + 1 < |c| && end < |c| && c[p] == 92 && c[p + 1] == 117 && LiteralAt(c, p, end).Literal?
    ensures GoodUnit(u) && !u.Raw? && !u.Short? && StandsAt(SpelledUnit(u), c, p)
    ensures var l := LiteralAt(c, p, end); |SpelledUnit(u)| == l.length && UnitMeaning(u) == Utf8(l.codepoint)
  {
    hide HexNumber;
    hide Utf8;
    hide HexDigitFor;
    hide Writes;
    hide EscapesAt;
    var l := LiteralAt(c, p, end);
    TwoBytes(c, p);
    Slice(c, p, 2, 4);
    var first := c[p + 2..p + 6];
    NotAllHex(first);
    if !AllHex(first) {
      u := Spoiled(first);
      assert l == Literal(0, 6);
      assert Utf8(0) == [0] by { NulIsItself(); }
      assert GoodUnit(u);
    } else if l.length == 6 {
      u := Code(l.codepoint, first);
      Hex4Bound(first);
      assert l.codepoint < 0x10000 && Utf16(l.codepoint) == [l.codepoint];
      LiteralIsUtf16(c, p, end, l.codepoint);
      EscapesOne(c, p, l.codepoint);
      WritesIsHex(first, l.codepoint);
    } else {
      var second := c[p + 8..p + 12];
      u := Pair(l.codepoint, first, second);
      LiteralIsUtf16(c, p, end, l.codepoint);
      var high, low := 0xD800 + (l.codepoint - 0x10000) / 0x400, 0xDC00 + (l.codepoint - 0x10000) % 0x400;
      EscapesTwo(c, p, high, low);
      WritesIsHex(first, high);
      WritesIsHex(second, low);
      TwoBytes(c, p + 6);
      Slice(c, p + 6, 2, 4);
      Slice(c, p, 6, 6);
    }
  }

  lemma {:induction false} NulIsItself()
    ensures Utf8(0) == [0]
  {
  }

  /** What a round of decoding takes is a unit. */
  lemma {:induction false} DecodedUnit(c: Text, p: nat, end: nat) returns (u: Unit)
    requires p < end < |c| && c[end] == QUOTE && Decoding(c, p, end).Round?
    ensures GoodUnit(u) && StandsAt(SpelledUnit(u), c, p)
            && Decoding(c, p, end) == Round(UnitMeaning(u), |SpelledUnit(u)|)
    ensures p + |SpelledUnit(u)| <= end || (u == Short(34) && p + 2 == end + 1)
  {
    hide LiteralAt;
    hide Utf8;
    if c[p] != BACKSLASH {
      u := Raw(c[p]);
    } else if c[p + 1] == LETTER_U {
      u := EscapeIs(c, p, end);
      hide GoodUnit;
    } else {
      u := Short(c[p + 1]);
      ShortIs(c[p + 1]);
      TwoBytes(c, p);
    }
  }

  // ---- all units

  lemma {:induction false} SpelledFirst(us: seq<Unit>)
    requires us != []
    ensures SpelledUnits(us) == SpelledUnit(us[0]) + SpelledUnits(us[1..])
    ensures GoodUnits(us) ==>
              && GoodUnit(us[0]) && GoodUnits(us[1..])
              && JoinedMeaning(us) == UnitMeaning(us[0]) + JoinedMeaning(us[1..])
  {
    hide SpelledUnit;
    hide GoodUnit;
    hide UnitMeaning;
  }

  /** The units fill the body, or the last takes the closing quote along. */
  predicate Fill(us: seq<Unit>, p: nat, end: nat) {
    p + |SpelledUnits(us)| == end || (us != [] && us[|us| - 1] == Short(34) && p + |SpelledUnits(us)| == end + 1)
  }

  lemma {:induction false} FillFirst(us: seq<Unit>, p: nat, end: nat)
    requires us != [] && Fill(us, p, end)
    ensures var n := |SpelledUnit(us[0])|;
            && n > 0 && p < end && (p + n <= end || (us[0] == Short(34) && p + 2 == end + 1))
            && (if p + n <= end then Fill(us[1..], p + n, end) else us[1..] == [] && n == 2)
  {
    SpelledFirst(us);
    var rest := us[1..];
    if rest == [] {
      assert SpelledUnits(rest) == [];
    } else {
      assert rest[|rest| - 1] == us[|us| - 1];
      SpelledFirst(rest);
      SpelledLast(rest);
    }
  }

  lemma {:induction false} SpelledLast(us: seq<Unit>)
    requires us != []
    ensures |SpelledUnits(us)| >= |SpelledUnit(us[|us| - 1])|
  {
    hide SpelledUnit;
    SpelledFirst(us);
    if |us| > 1 { SpelledLast(us[1..]); }
  }

  lemma {:induction false} UnitsDecode(us: seq<Unit>, c: Text, p: nat, end: nat)
    requires GoodUnits(us) && StandsAt(SpelledUnits(us), c, p) && Fill(us, p, end) && end < |c|
    ensures p <= end && Decode(c, p, end) == Decoded(JoinedMeaning(us))
    decreases |us|
  {
    hide *;
    if us == [] {
      NothingDecodes(c, p, end);
    } else {
      SpelledFirst(us);
      FillFirst(us, p, end);
      StandsSplit(SpelledUnit(us[0]), SpelledUnits(us[1..]), c, p);
      UnitDecodes(us[0], c, p, end);
      var n := |SpelledUnit(us[0])|;
      if p + n <= end {
        UnitsDecode(us[1..], c, p + n, end);
      } else {
        NothingAfter(c, p + n, end);
        NoUnits(us[1..]);
      }
      DecodeStep(c, p, end, JoinedMeaning(us[1..]));
    }
  }

  lemma {:induction false} NoUnits(us: seq<Unit>)
    requires us == []
    ensures GoodUnits(us) && JoinedMeaning(us) == [] && SpelledUnits(us) == []
  {
  }

  lemma {:induction false} NothingDecodes(c: Text, p: nat, end: nat)
    requires Fill([], p, end) && end < |c|
    ensures p == end && Decode(c, p, end) == Decoded([]) && JoinedMeaning([]) == []
  {
  }

  lemma {:induction false} NothingAfter(c: Text, p: nat, end: nat)
    requires p == end + 1 && end < |c|
    ensures Decode(c, p, end) == Decoded([])
  {
  }

  lemma {:induction false} DecodeStep(c: Text, p: nat, end: nat, t: Text)
    requires p < end < |c| && Decoding(c, p, end).Round?
    requires Decode(c, p + Decoding(c, p, end).taken, end) == Decoded(t)
    ensures Decode(c, p, end) == Decoded(Decoding(c, p, end).written + t)
  {
    hide Decoding;
  }

  lemma {:induction false} DecodeSplit(c: Text, p: nat, end: nat)
    requires p < end < |c| && Decode(c, p, end).Decoded?
    ensures Decoding(c, p, end).Round? && Decode(c, p + Decoding(c, p, end).taken, end).Decoded?
  {
    hide Decoding;
  }

  /** What is decoded is the meaning of units that stand there. */
  lemma {:induction false} DecodedUnits(c: Text, p: nat, end: nat) returns (us: seq<Unit>)
    requires p <= end < |c| && c[end] == QUOTE && Decode(c, p, end).Decoded?
    ensures GoodUnits(us) && StandsAt(SpelledUnits(us), c, p) && Fill(us, p, end)
    ensures Decode(c, p, end) == Decoded(JoinedMeaning(us))
    decreases end - p
  {
    hide *;
    us := [];
    if p == end {
      NoneDecoded(c, p);
    } else {
      DecodeSplit(c, p, end);
      var u := DecodedUnit(c, p, end);
      var n, rest: seq<Unit> := |SpelledUnit(u)|, [];
      if p + n <= end {
        rest := DecodedUnits(c, p + n, end);
      } else {
        NothingAfter(c, p + n, end);
        NoUnits(rest);
        EmptyStands(c, p + n);
      }
      us := [u] + rest;
      assert us[1..] == rest;
      UnitsJoin(u, rest, c, p);
      FillJoins(u, rest, p, end);
      DecodeStep(c, p, end, JoinedMeaning(rest));
    }
  }

  lemma {:induction false} NoneDecoded(c: Text, p: nat)
    requires p < |c|
    ensures GoodUnits([]) && StandsAt(SpelledUnits([]), c, p) && Fill([], p, p)
    ensures Decode(c, p, p) == Decoded(JoinedMeaning([]))
  {
  }

  lemma {:induction false} EmptyStands(c: Text, p: nat)
    requires p <= |c|
    ensures StandsAt([], c, p)
  {
  }

  lemma {:induction false} UnitsJoin(u: Unit, rest: seq<Unit>, c: Text, p: nat)
    requires GoodUnit(u) && GoodUnits(rest)
    requires StandsAt(SpelledUnit(u), c, p) && StandsAt(SpelledUnits(rest), c, p + |SpelledUnit(u)|)
    ensures var us := [u] + rest;
            GoodUnits(us) && StandsAt(SpelledUnits(us), c, p)
                && JoinedMeaning(us) == UnitMeaning(u) + JoinedMeaning(rest)
  {
    hide SpelledUnit;
    hide GoodUnit;
    hide UnitMeaning;
    hide SpelledUnits;
    var us := [u] + rest;
    assert us[1..] == rest && us[0] == u;
    assert GoodUnits(us);
    SpelledFirst(us);
    Slice(c, p, |SpelledUnit(u)|, |SpelledUnits(rest)|);
  }

  lemma {:induction false} FillJoins(u: Unit, rest: seq<Unit>, p: nat, end: nat)
    requires var n := |SpelledUnit(u)|;
             if p + n <= end then Fill(rest, p + n, end) else rest == [] && u == Short(34) && p + 2 == end + 1
    ensures Fill([u] + rest, p, end)
  {
    var us := [u] + rest;
    assert us[1..] == rest && us[0] == u;
    SpelledFirst(us);
    if rest != [] { assert us[|us| - 1] == rest[|rest| - 1]; }
  }

  // ---- the closing quote

  /** The first pass stops at the first quote that no backslash covers. */
  lemma {:induction false} ClosedIsScanned(c: Text, p: nat, end: nat)
    requires p <= end < |c|
    ensures ScanQuote(c, p) == Some(end) <==> c[end] == QUOTE && Closed(c[p..end])
    decreases end - p
  {
    var body := c[p..end];
    if p < end {
      if c[p] == BACKSLASH {
        if p + 2 <= end {
          ClosedIsScanned(c, p + 2, end);
          assert body[2..] == c[p + 2..end];
        } else {
          assert |body| == 1;
          if p + 2 <= |c| && ScanQuote(c, p + 2).Some? { assert ScanQuote(c, p + 2).value >= p + 2; }
        }
      } else {
        ClosedIsScanned(c, p + 1, end);
        assert body[1..] == c[p + 1..end];
      }
    }
  }

  // ---- literals

  lemma {:induction false} QuotesStand(body: Text, c: Text, p: nat)
    requires StandsAt(SpelledString(body), c, p)
    ensures var end := p + 1 + |body|; end < |c| && c[p] == 34 && c[end] == 34 && c[p + 1..end] == body
    ensures StandsAt(body, c, p + 1) && StandsAt(body + [34], c, p + 1)
  {
    StandsSplit([34], body + [34], c, p);
    StandsSplit(body, [34], c, p + 1);
    StandingByte([34], c, p, 0);
    StandingByte([34], c, p + 1 + |body|, 0);
  }

  /** A literal spelled by units is read as what they mean. */
  lemma {:induction false} LiteralRead(body: Text, us: seq<Unit>, c: Text, p: nat)
    requires Terminated(c) && GoodString(body, us) && StandsAt(SpelledString(body), c, p)
    ensures StringAt(c, p) == StringOk(StringMeaning(us), p + |SpelledString(body)|)
  {
    hide Closed;
    hide GoodUnits;
    hide SpelledUnits;
    hide JoinedMeaning;
    hide ScanQuote;
    hide Decode;
    hide AsCString;
    hide StandsAt;
    var end := p + 1 + |body|;
    QuotesStand(body, c, p);
    ClosedIsScanned(c, p + 1, end);
    UnitsDecode(us, c, p + 1, end);
  }

  /** What is read as a string is a literal that stands there. */
  lemma {:induction false} ReadLiteral(c: Text, p: nat) returns (body: Text, us: seq<Unit>)
    requires Terminated(c) && p < |c| && StringAt(c, p).StringOk?
    ensures GoodString(body, us) && StandsAt(SpelledString(body), c, p)
    ensures StringAt(c, p) == StringOk(StringMeaning(us), p + |SpelledString(body)|)
  {
    hide Closed;
    hide GoodUnits;
    hide SpelledUnits;
    hide JoinedMeaning;
    hide ScanQuote;
    hide Decode;
    hide AsCString;
    var end := StringAt(c, p).offset - 1;
    ClosedIsScanned(c, p + 1, end);
    us := DecodedUnits(c, p + 1, end);
    body := c[p + 1..end];
    assert c[p..end + 1] == [34] + (body + [34]);
    assert c[p + 1..end + 1] == body + [34];
  }

  lemma {:induction false} UnitsThenBad(us: seq<Unit>, c: Text, p: nat, end: nat)
    requires GoodUnits(us) && StandsAt(SpelledUnits(us), c, p) && p + |SpelledUnits(us)| <= end < |c|
    requires Decode(c, p + |SpelledUnits(us)|, end) == BadAt(p + |SpelledUnits(us)|)
    ensures Decode(c, p, end) == BadAt(p + |SpelledUnits(us)|)
    decreases |us|
  {
    hide *;
    if us == [] {
      NoUnits(us);
    } else {
      SpelledFirst(us);
      StandsSplit(SpelledUnit(us[0]), SpelledUnits(us[1..]), c, p);
      UnitDecodes(us[0], c, p, end);
      UnitsThenBad(us[1..], c, p + |SpelledUnit(us[0])|, end);
      DecodeBad(c, p, end, p + |SpelledUnits(us)|);
    }
  }

  lemma {:induction false} DecodeBad(c: Text, p: nat, end: nat, at: nat)
    requires p < end < |c| && Decoding(c, p, end).Round?
    requires Decode(c, p + Decoding(c, p, end).taken, end) == BadAt(at)
    ensures Decode(c, p, end) == BadAt(at)
  {
    hide Decoding;
  }

  /** Behind any units, a backslash and a byte that is neither `u` nor one of the eight letters fail there. */
  lemma {:induction false} OtherEscapesFail(us: seq<Unit>, b: Byte, rest: Text, c: Text, p: nat)
    requires Terminated(c) && GoodUnits(us) && b != 117 && b !in [34, 92, 47, 98, 102, 110, 114, 116]
    requires var body := SpelledUnits(us) + ([92, b] + rest); Closed(body) && StandsAt(SpelledString(body), c, p)
    ensures StringAt(c, p) == StringFail(p + 1 + |SpelledUnits(us)|)
  {
    hide Closed;
    hide GoodUnits;
    hide SpelledUnits;
    hide ScanQuote;
    hide StandsAt;
    var text := SpelledUnits(us);
    var body := text + ([92, b] + rest);
    var end, q := p + 1 + |body|, p + 1 + |text|;
    QuotesStand(body, c, p);
    ClosedIsScanned(c, p + 1, end);
    StandsSplit(text, [92, b] + rest, c, p + 1);
    StandsSplit([92, b], rest, c, q);
    StandingByte([92, b], c, q, 0);
    StandingByte([92, b], c, q, 1);
    ShortIs(b);
    assert Decode(c, q, end) == BadAt(q);
    hide Decode;
    UnitsThenBad(us, c, p + 1, end);
  }

  // ---- numbers

  lemma {:induction false} DigitIs(b: Byte)
    ensures Digit(b) <==> IsDigit(b)
  {
  }

  lemma {:induction false} RunAtLeast(t: Text, p: nat, q: nat)
    requires p <= q <= |t| && AllDigit(t[p..q])
    ensures DigitRun(t, p) >= q && (q == |t| || !IsDigit(t[q]) ==> DigitRun(t, p) == q)
    decreases q - p
  {
    hide Digit;
    if p < q {
      DigitIs(t[p..q][0]);
      assert t[p..q][1..] == t[p + 1..q];
      RunAtLeast(t, p + 1, q);
    }
  }

  lemma {:induction false} RunIsDigits(t: Text, p: nat)
    requires p <= |t|
    ensures AllDigit(t[p..DigitRun(t, p)])
    decreases |t| - p
  {
    hide Digit;
    var q := DigitRun(t, p);
    if q > p {
      DigitIs(t[p]);
      RunIsDigits(t, p + 1);
      assert t[p..q][1..] == t[p + 1..q];
      assert forall i :: 1 <= i < q - p ==> t[p..q][i] == t[p + 1..q][i - 1];
    }
  }

  /** Where the parts of a number end: the sign, the whole digits, the fraction, the mark and its sign, the power. */
  datatype Ends = Ends(i: nat, j: nat, k: nat, m: nat, x: nat)

  predicate EndsIn(t: Text, e: Ends) {
    && e.i <= |t| && e.i == (if t != [] && (t[0] == 43 || t[0] == MINUS) then 1 else 0)
    && e.j == DigitRun(t, e.i)
    && e.k == (if e.j < |t| && t[e.j] == 46 then DigitRun(t, e.j + 1) else e.j)
    && e.m == (if e.k < |t| && t[e.k] in [69, 101] then
                 if e.k + 1 < |t| && t[e.k + 1] in [43, 45] then e.k + 2 else e.k + 1
               else e.k)
    && e.x == if e.m > e.k then DigitRun(t, e.m) else e.k
  }

  function EndsOf(t: Text): (e: Ends)
    ensures EndsIn(t, e)
    ensures e.i <= e.j <= e.k <= |t| && e.k <= e.m <= |t| && e.x <= |t| && (e.m == e.k ==> e.x == e.k)
    ensures e.m > e.k ==> e.m <= e.x
  {
    var i := if t != [] && (t[0] == 43 || t[0] == MINUS) then 1 else 0;
    var j := DigitRun(t, i);
    var k := if j < |t| && t[j] == 46 then DigitRun(t, j + 1) else j;
    var m := if k < |t| && t[k] in [69, 101] then
               if k + 1 < |t| && t[k + 1] in [43, 45] then k + 2 else k + 1
             else k;
    Ends(i, j, k, m, if m > k then DigitRun(t, m) else k)
  }

  /** The numeral in front of `t`. */
  function NumeralOf(t: Text): Numeral {
    var e := EndsOf(t);
    Numeral(e.i == 1, t[e.i..e.j], if e.k > e.j then Some(t[e.j + 1..e.k]) else None,
            if e.x > e.m then Some(Power(t[e.k], t[e.k + 1..e.m], t[e.m..e.x])) else None)
  }

  predicate Gated(t: Text) { t != [] && (t[0] == MINUS || IsDigit(t[0])) }

  /** A whole number times a power of ten, cut to an integer. */
  function Scaled(m: nat, s: int): int { if s >= 0 then m * Pow10(s) else m / Pow10(-s) }

  lemma {:induction false} ScaledIs(m: nat, s: int)
    ensures Scaled(m, s) == if s >= 0 then m * Pow10(s) else m / Pow10(-s)
  {
  }

  lemma {:induction false} StrtodIs(t: Text)
    ensures var e := EndsOf(t);
            var fraction := if e.k > e.j then e.k - (e.j + 1) else 0;
            var exponent: int := if e.x > e.m then DigitsValue(t[e.m..e.x]) else 0;
            var scale := (if e.x > e.m && t[e.m - 1] == MINUS then -exponent else exponent) - fraction;
            var mantissa := DigitsValue(t[e.i..e.k]);
            var size := Scaled(mantissa, scale);
            Strtod(t) == if e.j - e.i + fraction == 0 then NotANumber
                         else Number(if e.i == 1 && t[0] == MINUS then -size else size, if e.x > e.m then e.x else e.k)
  {
    hide DigitRun;
    hide DigitsValue;
    hide Pow10;
  }

  // its value

  lemma {:induction false} DigitsStand(t: Text)
    requires AllDigit(t)
    ensures DigitsValue(t) == Stands(t)
  {
    hide Digit;
    if t != [] {
      DigitIs(t[|t| - 1]);
      DigitsStand(t[..|t| - 1]);
    }
  }

  lemma {:induction false} FractionValue(w: Text, f: Text)
    requires AllDigit(w) && AllDigit(f)
    ensures DigitsValue(w + ([46] + f)) == Stands(w) * Pow10(|f|) + Stands(f)
  {
    hide Digit;
    var t := w + ([46] + f);
    if f == [] {
      assert t[..|t| - 1] == w && t[|t| - 1] == 46;
      DigitsStand(w);
      assert Pow10(0) == 1;
    } else {
      var init, b := f[..|f| - 1], f[|f| - 1];
      assert t[..|t| - 1] == w + ([46] + init) && t[|t| - 1] == b;
      DigitIs(b);
      FractionValue(w, init);
      ShiftSum(Stands(w), Pow10(|init|), Stands(init), b - 48);
    }
  }

  lemma {:induction false} ShiftSum(w: nat, p: nat, f: nat, b: int)
    ensures (w * p + f) * 10 + b == w * (10 * p) + (f * 10 + b)
  {
  }

  lemma {:induction false} TenUp(e: int)
    ensures Ten(e + 1) == 10.0 * Ten(e)
  {
  }

  lemma {:induction false} TenIsPow10(n: nat)
    ensures Ten(n) == Pow10(n) as real
  {
    if n > 0 { TenIsPow10(n - 1); }
  }

  lemma {:induction false} TenShift(e: int, n: nat)
    ensures Ten(e + n) == Ten(e) * (Pow10(n) as real)
  {
    hide *;
    if n == 0 {
      PowZero();
    } else {
      TenShift(e, n - 1);
      TenUp(e + n - 1);
      PowUp(n - 1);
      ThreeFactors(Ten(e), Pow10(n - 1) as real);
    }
  }

  lemma {:induction false} PowZero()
    ensures Pow10(0) == 1
  {
  }

  lemma {:induction false} PowUp(n: nat)
    ensures Pow10(n + 1) as real == 10.0 * (Pow10(n) as real)
  {
  }

  lemma {:induction false} ThreeFactors(x: real, p: real)
    ensures 10.0 * (x * p) == x * (10.0 * p)
  {
  }

  lemma {:induction false} FloorDivides(a: nat, b: nat)
    requires b > 0
    ensures ((a as real) / (b as real)).Floor == a / b
  {
    var q, r := a / b, a % b;
    assert a as real == (q as real) * (b as real) + r as real;
    Quotient(a as real, b as real, q as real, r as real);
  }

  lemma {:induction false} Quotient(a: real, b: real, q: real, r: real)
    requires b > 0.0 && a == q * b + r && 0.0 <= r < b
    ensures q <= a / b < q + 1.0
  {
    var y := r / b;
    assert y * b == r;
    UnderOne(y, b, r);
    assert (q + y) * b == a;
    assert a / b == q + y;
  }

  lemma {:induction false} UnderOne(y: real, b: real, r: real)
    requires b > 0.0 && y * b == r && 0.0 <= r < b
    ensures 0.0 <= y < 1.0
  {
  }

  lemma {:induction false} OneFraction(w: real, f: real, p: real)
    requires p > 0.0
    ensures w + f / p == (w * p + f) / p
  {
  }

  lemma {:induction false} Cancelled(m: real, p: real, x: real)
    requires p > 0.0
    ensures (m / p) * (x * p) == m * x
  {
  }

  lemma {:induction false} SizeIs(w: nat, f: nat, n: nat, e: int)
    ensures var m := w * Pow10(n) + f;
            ((w as real + f as real / Ten(n)) * Ten(e)).Floor
            == Scaled(m, e - n)
  {
    hide *;
    ScaledIs(w * Pow10(n) + f, e - n);
    var p, s := Pow10(n), e - n;
    var m := w * p + f;
    SizeReal(w, f, n, e);
    if s >= 0 {
      TenIsPow10(s);
      RealProduct(m, Pow10(s));
    } else {
      TenShift(s, -s);
      TenIsOne();
      Inverse(m as real, Ten(s), Pow10(-s) as real);
      FloorDivides(m, Pow10(-s));
    }
  }

  lemma {:induction false} RealProduct(a: nat, b: nat)
    ensures (a as real) * (b as real) == (a * b) as real
    ensures ((a as real) * (b as real)).Floor == a * b
  {
  }

  lemma {:induction false} SizeReal(w: nat, f: nat, n: nat, e: int)
    ensures (w as real + f as real / Ten(n)) * Ten(e) == (w * Pow10(n) + f) as real * Ten(e - n)
  {
    hide *;
    var p := Pow10(n);
    TenIsPow10(n);
    TenShift(e - n, n);
    RealProduct(w, p);
    OneFraction(w as real, f as real, p as real);
    Cancelled((w * p + f) as real, p as real, Ten(e - n));
  }

  lemma {:induction false} TenIsOne()
    ensures Ten(0) == 1.0
  {
  }

  lemma {:induction false} Inverse(m: real, x: real, p: real)
    requires p > 0.0 && x * p == 1.0
    ensures m * x == m / p
  {
    assert m * x * p == m;
  }

  // its parts

  /** What is known of the ends. */
  lemma {:induction false} EndsKnown(t: Text)
    requires Gated(t) && Strtod(t).Number?
    ensures var e := EndsOf(t);
            && (e.i == 1 <==> t[0] == MINUS) && (e.i == 1 || e.j > 0)
            && (e.k > e.j ==> t[e.j] == 46)
            && (e.j > e.i || e.k > e.j + 1)
            && Strtod(t).used == if e.x > e.m then e.x else e.k
  {
    hide Strtod;
    hide DigitsValue;
    hide Pow10;
    StrtodIs(t);
  }

  lemma {:induction false} SignSlice(t: Text, k: nat, m: nat)
    requires k <= m <= |t| && m <= k + 1
    ensures t[k..m] == if m == k + 1 then [t[k]] else []
  {
  }

  lemma {:induction false} PowerGood(t: Text)
    ensures var p := NumeralOf(t).power; p.Some? ==> GoodPower(p.value)
  {
    hide DigitRun;
    hide Digit;
    var e := EndsOf(t);
    if e.x > e.m {
      RunIsDigits(t, e.m);
      SignSlice(t, e.k + 1, e.m);
    }
  }

  lemma {:induction false} NumeralGood(t: Text)
    requires Gated(t) && Strtod(t).Number?
    ensures GoodNumeral(NumeralOf(t))
  {
    hide Strtod;
    hide DigitRun;
    hide GoodPower;
    hide AllDigit;
    EndsKnown(t);
    var e := EndsOf(t);
    RunIsDigits(t, e.i);
    if e.k > e.j { RunIsDigits(t, e.j + 1); }
    PowerGood(t);
  }

  lemma {:induction false} PowerSpelled(t: Text)
    ensures var e := EndsOf(t);
            SpelledPower(NumeralOf(t).power) == if e.x > e.m then t[e.k..e.x] else []
  {
    hide DigitRun;
    var e := EndsOf(t);
    if e.x > e.m {
      assert t[e.k..e.x] == [t[e.k]] + (t[e.k + 1..e.m] + t[e.m..e.x]);
    }
  }

  lemma {:induction false} NumeralSpelled(t: Text)
    requires Gated(t) && Strtod(t).Number?
    ensures SpelledNumeral(NumeralOf(t)) == t[..Strtod(t).used]
  {
    hide Strtod;
    hide DigitRun;
    hide SpelledPower;
    hide EndsIn;
    EndsKnown(t);
    PowerSpelled(t);
    var e := EndsOf(t);
    var n := NumeralOf(t);
    assert (if n.minus then [45] else []) == t[..e.i];
    assert SpelledFraction(n.fraction) == t[e.j..e.k];
    Rejoined(t, e.i, e.j, e.k, if e.x > e.m then e.x else e.k);
    assert t[e.k..e.k] == [];
  }

  lemma {:induction false} Rejoined(t: Text, i: nat, j: nat, k: nat, x: nat)
    requires i <= j <= k <= x <= |t|
    ensures t[..i] + (t[i..j] + (t[j..k] + t[k..x])) == t[..x]
  {
  }

  lemma {:induction false} NumeralSized(t: Text)
    requires Gated(t) && Strtod(t).Number?
    ensures GoodNumeral(NumeralOf(t))
    ensures Strtod(t).truncated == if NumeralOf(t).minus then -Size(NumeralOf(t)) else Size(NumeralOf(t))
  {
    hide *;
    NumeralGood(t);
    NumeralSizeIs(NumeralOf(t));
    NumeralDigits(NumeralOf(t));
    StrtodIs(t);
    EndsKnown(t);
    MantissaIs(t);
    ExponentIs(t);
    var n := NumeralOf(t);
    var f: Text := if n.fraction.None? then [] else n.fraction.value;
    SizeIs(Stands(n.whole), Stands(f), |f|, Exponent(n.power));
    PartsOf(t);
  }

  lemma {:induction false} PartsOf(t: Text)
    ensures var e, n := EndsOf(t), NumeralOf(t);
            var f: Text := if n.fraction.None? then [] else n.fraction.value;
            n.minus == (e.i == 1) && |f| == if e.k > e.j then e.k - (e.j + 1) else 0
  {
    hide EndsIn;
  }

  lemma {:induction false} NumeralDigits(n: Numeral)
    requires GoodNumeral(n)
    ensures AllDigit(n.whole) && AllDigit(if n.fraction.None? then [] else n.fraction.value)
    ensures n.power.Some? ==> GoodPower(n.power.value)
  {
    hide GoodPower;
    hide Digit;
  }

  lemma {:induction false} NumeralSizeIs(n: Numeral)
    requires GoodNumeral(n)
    ensures var f: Text := if n.fraction.None? then [] else n.fraction.value;
            && AllDigit(f) && AllDigit(n.whole) && (n.power.Some? ==> GoodPower(n.power.value))
            && Size(n) == ((Stands(n.whole) as real + Stands(f) as real / Ten(|f|)) * Ten(Exponent(n.power))).Floor
  {
    hide GoodPower;
    hide Digit;
    hide Stands;
    hide Ten;
    hide Exponent;
  }

  lemma {:induction false} MantissaIs(t: Text)
    requires GoodNumeral(NumeralOf(t))
    ensures var e, n := EndsOf(t), NumeralOf(t);
            var f: Text := if n.fraction.None? then [] else n.fraction.value;
            AllDigit(f) && DigitsValue(t[e.i..e.k]) == Stands(n.whole) * Pow10(|f|) + Stands(f)
  {
    hide DigitRun;
    hide DigitsValue;
    hide Digit;
    hide GoodPower;
    var e, n := EndsOf(t), NumeralOf(t);
    if e.k > e.j {
      assert t[e.i..e.k] == n.whole + ([46] + n.fraction.value);
      FractionValue(n.whole, n.fraction.value);
    } else {
      DigitsStand(n.whole);
      assert Stands([]) == 0 && Pow10(0) == 1;
    }
  }

  lemma {:induction false} ExponentIs(t: Text)
    requires GoodNumeral(NumeralOf(t))
    ensures var e := EndsOf(t);
            var x: int := if e.x > e.m then DigitsValue(t[e.m..e.x]) else 0;
            Exponent(NumeralOf(t).power) == if e.x > e.m && t[e.m - 1] == MINUS then -x else x
  {
    hide DigitRun;
    hide DigitsValue;
    hide Stands;
    hide AllDigit;
    var e := EndsOf(t);
    if e.x > e.m {
      DigitsStand(t[e.m..e.x]);
      SignSlice(t, e.k + 1, e.m);
    }
  }

  // the longest numeral

  /** Where the parts of a numeral end. */
  function EndsFor(n: Numeral): Ends {
    var i := if n.minus then 1 else 0;
    var j := i + |n.whole|;
    var k := j + |SpelledFraction(n.fraction)|;
    var m := if n.power.Some? then k + 1 + |n.power.value.sign| else k;
    Ends(i, j, k, m, if n.power.Some? then m + |n.power.value.digits| else k)
  }

  lemma {:induction false} PartsStand(n: Numeral, t: Text)
    requires SpelledNumeral(n) <= t
    ensures var e := EndsFor(n);
            && e.i <= e.j <= e.k <= e.m <= e.x == |SpelledNumeral(n)| <= |t|
            && (n.minus ==> t[0] == 45) && t[e.i..e.j] == n.whole
            && (n.fraction.Some? ==> e.j < e.k && t[e.j] == 46 && t[e.j + 1..e.k] == n.fraction.value)
            && (n.power.Some? ==>
                  && e.k < e.m && t[e.k] == n.power.value.mark
                  && t[e.k + 1..e.m] == n.power.value.sign && t[e.m..e.x] == n.power.value.digits)
  {
    hide *;
    FourStand(n, t);
    EndsForIs(n);
    PowerGiven(n.power);
    var e := EndsFor(n);
    StandsSlice(n.whole, t, e.i);
    if n.fraction.Some? {
      assert n.fraction == Some(n.fraction.value);
      FractionStands(n.fraction.value, t, e.j);
    }
    if n.power.Some? { PowerStands(n.power.value, t, e.k); }
  }

  lemma {:induction false} EndsForIs(n: Numeral)
    ensures var e := EndsFor(n);
            && e.j == e.i + |n.whole| && (n.fraction.Some? ==> e.k == e.j + 1 + |n.fraction.value|)
            && (n.power.Some? ==> e.m == e.k + 1 + |n.power.value.sign| && e.x == e.m + |n.power.value.digits|)
  {
  }

  lemma {:induction false} PowerGiven(p: Option<Power>)
    ensures p.Some? ==> p == Some(p.value)
  {
  }

  lemma {:induction false} FourStand(n: Numeral, t: Text)
    requires SpelledNumeral(n) <= t
    ensures var e := EndsFor(n);
            && e.i <= e.j <= e.k <= e.m <= e.x == |SpelledNumeral(n)| <= |t|
            && (n.minus ==> t[0] == 45) && StandsAt(n.whole, t, e.i)
            && StandsAt(SpelledFraction(n.fraction), t, e.j) && StandsAt(SpelledPower(n.power), t, e.k)
  {
    hide StandsAt;
    hide SpelledFraction;
    var e := EndsFor(n);
    var a: Text := if n.minus then [45] else [];
    var f, p := SpelledFraction(n.fraction), SpelledPower(n.power);
    assert |p| == e.x - e.k;
    PrefixStands(SpelledNumeral(n), t);
    StandsSplit(a, n.whole + (f + p), t, 0);
    StandsSplit(n.whole, f + p, t, e.i);
    StandsSplit(f, p, t, e.j);
    if n.minus { StandingByte(a, t, 0, 0); }
  }

  lemma {:induction false} StandsSlice(a: Text, t: Text, p: nat)
    requires StandsAt(a, t, p)
    ensures p + |a| <= |t| && t[p..p + |a|] == a
  {
  }

  lemma {:induction false} FractionStands(f: Text, t: Text, j: nat)
    requires StandsAt(SpelledFraction(Some(f)), t, j)
    ensures j + 1 + |f| <= |t| && t[j] == 46 && t[j + 1..j + 1 + |f|] == f
  {
    StandsSplit([46], f, t, j);
    StandingByte([46], t, j, 0);
  }

  lemma {:induction false} PowerStands(q: Power, t: Text, k: nat)
    requires StandsAt(SpelledPower(Some(q)), t, k)
    ensures var m := k + 1 + |q.sign|;
            m + |q.digits| <= |t| && t[k] == q.mark && t[k + 1..m] == q.sign && t[m..m + |q.digits|] == q.digits
  {
    StandsSplit([q.mark], q.sign + q.digits, t, k);
    StandsSplit(q.sign, q.digits, t, k + 1);
    StandingByte([q.mark], t, k, 0);
  }

  lemma {:induction false} PrefixStands(a: Text, t: Text)
    ensures a <= t <==> StandsAt(a, t, 0)
  {
  }

  /** The sign and the whole digits. */
  lemma {:induction false} WholeEnds(n: Numeral, t: Text)
    requires GoodNumeral(n) && SpelledNumeral(n) <= t
    ensures Gated(t) && EndsOf(t).i == EndsFor(n).i && EndsOf(t).j >= EndsFor(n).j
    ensures n.fraction.Some? || n.power.Some? || t == SpelledNumeral(n) ==> EndsOf(t).j == EndsFor(n).j
  {
    hide DigitRun;
    hide SpelledNumeral;
    hide AllDigit;
    PartsStand(n, t);
    NumeralDigits(n);
    var e := EndsFor(n);
    if !n.minus { FirstIsDigit(n.whole); assert t[0] == t[0..e.j][0]; }
    RunAtLeast(t, e.i, e.j);
  }

  lemma {:induction false} FirstIsDigit(t: Text)
    requires t != [] && AllDigit(t)
    ensures IsDigit(t[0])
  {
    DigitIs(t[0]);
  }

  lemma {:induction false} FractionEnds(n: Numeral, t: Text)
    requires GoodNumeral(n) && SpelledNumeral(n) <= t && EndsOf(t).j >= EndsFor(n).j
    requires n.fraction.Some? || n.power.Some? || t == SpelledNumeral(n) ==> EndsOf(t).j == EndsFor(n).j
    ensures EndsOf(t).k >= EndsFor(n).k
    ensures n.power.Some? || t == SpelledNumeral(n) ==> EndsOf(t).k == EndsFor(n).k
  {
    hide DigitRun;
    hide SpelledNumeral;
    hide AllDigit;
    PartsStand(n, t);
    NumeralDigits(n);
    var e := EndsFor(n);
    if n.fraction.Some? { RunAtLeast(t, e.j + 1, e.k); }
  }

  lemma {:induction false} PowerEnds(n: Numeral, t: Text)
    requires GoodNumeral(n) && SpelledNumeral(n) <= t && n.power.Some? && EndsOf(t).k == EndsFor(n).k
    ensures EndsOf(t).m == EndsFor(n).m < EndsFor(n).x <= EndsOf(t).x
    ensures t == SpelledNumeral(n) ==> EndsOf(t).x == EndsFor(n).x
  {
    hide DigitRun;
    hide SpelledNumeral;
    hide AllDigit;
    PartsStand(n, t);
    NumeralDigits(n);
    var e, p := EndsFor(n), n.power.value;
    FirstIsDigit(p.digits);
    assert t[e.m] == t[e.m..e.x][0];
    if p.sign != [] { assert t[e.k + 1] == t[e.k + 1..e.m][0]; }
    RunAtLeast(t, e.m, e.x);
  }

  /** If a numeral stands in front of a text, at least as much of it is read. */
  lemma {:induction false} ReadsLongest(n: Numeral, t: Text)
    requires GoodNumeral(n) && SpelledNumeral(n) <= t
    ensures Gated(t) && Strtod(t).Number? && Strtod(t).used >= |SpelledNumeral(n)|
    ensures t == SpelledNumeral(n) ==> NumeralOf(t) == n
  {
    hide *;
    WholeEnds(n, t);
    FractionEnds(n, t);
    if n.power.Some? { PowerEnds(n, t); }
    PartsStand(n, t);
    StrtodIs(t);
    MantissaThere(n);
    NoPower(n, t);
    if t == SpelledNumeral(n) { SameNumeral(n, t); }
  }

  lemma {:induction false} MantissaThere(n: Numeral)
    requires GoodNumeral(n)
    ensures var e := EndsFor(n); e.i < e.j || e.j + 1 < e.k
    ensures var e := EndsFor(n); e.i <= e.j <= e.k && (n.power.None? ==> e.x == e.k)
  {
    hide AllDigit;
    hide GoodPower;
  }

  lemma {:induction false} NoPower(n: Numeral, t: Text)
    ensures var e := EndsOf(t); e.i <= e.j <= e.k <= |t| && (e.x > e.m ==> e.x > e.k)
  {
    hide DigitRun;
  }

  lemma {:induction false} SameNumeral(n: Numeral, t: Text)
    requires GoodNumeral(n) && t == SpelledNumeral(n) && EndsOf(t).i == EndsFor(n).i
    requires EndsOf(t).j == EndsFor(n).j && EndsOf(t).k == EndsFor(n).k
    requires n.power.Some? ==> EndsOf(t).m == EndsFor(n).m < EndsFor(n).x == EndsOf(t).x
    ensures NumeralOf(t) == n
  {
    hide DigitRun;
    hide SpelledNumeral;
    hide AllDigit;
    hide GoodPower;
    PartsStand(n, t);
  }

  // ---- a number in a text

  ghost predicate IsNumeral(t: Text) { exists n :: GoodNumeral(n) && SpelledNumeral(n) == t }

  /** No numeral of at most 63 bytes that stands at `p` reaches past `o`. */
  ghost predicate Longest(c: Text, p: nat, o: nat) {
    forall k :: p <= o < k <= |c| && k <= p + 63 ==> !IsNumeral(c[p..k])
  }

  predicate NumberText(t: Text) { forall i :: 0 <= i < |t| ==> IsNumberByte(t[i]) }

  lemma {:induction false} NumberTexts(a: Text, b: Text)
    requires NumberText(a) && NumberText(b)
    ensures NumberText(a + b)
  {
    hide IsNumberByte;
  }

  lemma {:induction false} DigitsAreNumberText(t: Text)
    requires AllDigit(t)
    ensures NumberText(t)
  {
    hide Digit;
    hide IsNumberByte;
    NumberBytes();
  }

  lemma {:induction false} PowerText(p: Option<Power>)
    requires p.Some? ==> GoodPower(p.value)
    ensures NumberText(SpelledPower(p))
  {
    hide AllDigit;
    if p.Some? {
      DigitsAreNumberText(p.value.digits);
      NumberTexts(p.value.sign, p.value.digits);
      NumberTexts([p.value.mark], p.value.sign + p.value.digits);
    }
  }

  lemma {:induction false} FractionText(f: Option<Text>)
    requires f.Some? ==> AllDigit(f.value)
    ensures NumberText(SpelledFraction(f))
  {
    hide AllDigit;
    if f.Some? {
      DigitsAreNumberText(f.value);
      NumberTexts([46], f.value);
    }
  }

  lemma {:induction false} NumeralBytes(n: Numeral)
    requires GoodNumeral(n)
    ensures NumberText(SpelledNumeral(n))
  {
    hide NumberText;
    hide AllDigit;
    hide GoodPower;
    hide SpelledFraction;
    hide SpelledPower;
    var a: Text := if n.minus then [45] else [];
    assert NumberText(a) by { SignText(n.minus); }
    DigitsAreNumberText(n.whole);
    FractionText(n.fraction);
    PowerText(n.power);
    NumberTexts(SpelledFraction(n.fraction), SpelledPower(n.power));
    NumberTexts(n.whole, SpelledFraction(n.fraction) + SpelledPower(n.power));
    NumberTexts(a, n.whole + (SpelledFraction(n.fraction) + SpelledPower(n.power)));
  }

  lemma {:induction false} SignText(minus: bool)
    ensures NumberText(if minus then [45] else [])
  {
  }

  lemma {:induction false} NumberBytes()
    ensures forall b: Byte :: Digit(b) ==> IsNumberByte(b)
    ensures forall b: Byte :: b in [43, 45, 46, 69, 101] ==> IsNumberByte(b)
    ensures !IsNumberByte(44) && !IsNumberByte(93) && !IsNumberByte(125) && forall b: Byte :: b <= 32 ==>
            !IsNumberByte(b)
  {
  }

  lemma {:induction false} RunReaches(c: Text, p: nat, k: nat, limit: nat)
    requires p + k <= |c| && k <= limit && forall i :: p <= i < p + k ==> IsNumberByte(c[i])
    ensures NumberRun(c, p, limit) >= k
    decreases k
  {
    if k > 0 { RunReaches(c, p + 1, k - 1, limit - 1); }
  }

  /** A numeral of at most 63 bytes is inside what is copied. */
  lemma {:induction false} NumeralInRun(n: Numeral, c: Text, p: nat)
    requires GoodNumeral(n) && StandsAt(SpelledNumeral(n), c, p) && |SpelledNumeral(n)| <= 63
    ensures var run := NumberRun(c, p, 63); SpelledNumeral(n) <= c[p..p + run]
  {
    hide SpelledNumeral;
    hide GoodNumeral;
    hide NumberRun;
    hide IsNumberByte;
    var s := SpelledNumeral(n);
    NumeralBytes(n);
    forall i | p <= i < p + |s| ensures IsNumberByte(c[i]) { StandingByte(s, c, p, i - p); }
    RunReaches(c, p, |s|, 63);
    var t := c[p..p + NumberRun(c, p, 63)];
    assert t[..|s|] == c[p..p + |s|];
  }

  lemma {:induction false} NumberIs(c: Text, p: nat)
    requires Terminated(c) && p < |c|
    ensures var t := c[p..p + NumberRun(c, p, 63)];
            && |t| <= 63
            && NumberAt(c, p) == match Strtod(t)
                                 case NotANumber => Fail(p)
                                 case Number(x, used) => Ok(Num(Saturated(x)), p + used)
  {
    hide Strtod;
    hide NumberRun;
  }

  lemma {:induction false} SaturatedIs(n: Numeral)
    requires GoodNumeral(n)
    ensures NumeralMeaning(n) == Saturated(if n.minus then -Size(n) else Size(n))
  {
    hide Size;
    hide GoodNumeral;
  }

  /** What is read as a number is the longest numeral that stands there. */
  lemma {:induction false} ReadNumeral(c: Text, p: nat) returns (n: Numeral)
    requires Terminated(c) && p < |c| && (c[p] == 45 || Digit(c[p])) && NumberAt(c, p).Ok?
    ensures GoodNumeral(n) && |SpelledNumeral(n)| <= 63 && StandsAt(SpelledNumeral(n), c, p)
    ensures NumberAt(c, p) == Ok(Num(NumeralMeaning(n)), p + |SpelledNumeral(n)|)
    ensures Longest(c, p, p + |SpelledNumeral(n)|)
  {
    hide *;
    NumberIs(c, p);
    var t := c[p..p + NumberRun(c, p, 63)];
    RunStarts(c, p);
    n := NumeralOf(t);
    NumeralGood(t);
    NumeralSpelled(t);
    NumeralSized(t);
    SaturatedIs(n);
    SlicePrefix(c, p, |t|, Strtod(t).used);
    LongestRead(c, p, Strtod(t).used);
  }

  lemma {:induction false} RunStarts(c: Text, p: nat)
    requires p < |c| && (c[p] == 45 || Digit(c[p]))
    ensures Gated(c[p..p + NumberRun(c, p, 63)])
  {
    DigitIs(c[p]);
    assert IsNumberByte(c[p]);
    RunReaches(c, p, 1, 63);
  }

  lemma {:induction false} SlicePrefix(c: Text, p: nat, n: nat, k: nat)
    requires p + n <= |c| && k <= n
    ensures c[p..p + n][..k] == c[p..p + k] && StandsAt(c[p..p + n][..k], c, p)
  {
  }

  lemma {:induction false} LongestRead(c: Text, p: nat, used: nat)
    requires p < |c|
    requires Strtod(c[p..p + NumberRun(c, p, 63)]).Number? && Strtod(c[p..p + NumberRun(c, p, 63)]).used == used
    ensures Longest(c, p, p + used)
  {
    hide Strtod;
    hide NumberRun;
    hide SpelledNumeral;
    hide GoodNumeral;
    var t := c[p..p + NumberRun(c, p, 63)];
    forall k | p + used < k <= |c| && k <= p + 63 ensures !IsNumeral(c[p..k]) {
      if IsNumeral(c[p..k]) {
        var n :| GoodNumeral(n) && SpelledNumeral(n) == c[p..k];
        NumeralInRun(n, c, p);
        ReadsLongest(n, t);
        assert false;
      }
    }
  }

  /** A numeral that stands there and cannot be longer is read as what it means. */
  lemma {:induction false} NumeralRead(n: Numeral, c: Text, p: nat)
    requires Terminated(c) && GoodNumeral(n) && |SpelledNumeral(n)| <= 63 && StandsAt(SpelledNumeral(n), c, p)
    requires p < |c| && Longest(c, p, p + |SpelledNumeral(n)|)
    ensures (c[p] == 45 || Digit(c[p])) && NumberAt(c, p) == Ok(Num(NumeralMeaning(n)), p + |SpelledNumeral(n)|)
  {
    hide *;
    NumberIs(c, p);
    var s, t := SpelledNumeral(n), c[p..p + NumberRun(c, p, 63)];
    NumeralInRun(n, c, p);
    ReadsLongest(n, t);
    NumeralGood(t);
    NumeralSpelled(t);
    NumeralSized(t);
    var m, used := NumeralOf(t), Strtod(t).used;
    SlicePrefix(c, p, |t|, used);
    NotLonger(m, c, p, p + |s|, p + used);
    Whole(s, t);
    ReadsLongest(n, s);
    ReadsLongest(m, s);
    SaturatedIs(n);
    FirstGated(c, p, t);
  }

  lemma {:induction false} Whole(s: Text, t: Text)
    requires s <= t
    ensures t[..|s|] == s && s <= s
  {
  }

  lemma {:induction false} FirstGated(c: Text, p: nat, t: Text)
    requires p < |c| && t <= c[p..] && Gated(t)
    ensures c[p] == 45 || Digit(c[p])
  {
    DigitIs(c[p]);
    assert c[p..][0] == c[p];
  }

  lemma {:induction false} NotLonger(m: Numeral, c: Text, p: nat, o: nat, k: nat)
    requires Longest(c, p, o) && p <= o <= k <= |c| && k <= p + 63 && GoodNumeral(m) && SpelledNumeral(m) == c[p..k]
    ensures k == o
  {
    hide GoodNumeral;
    hide SpelledNumeral;
    assert IsNumeral(c[p..k]);
  }

  /** Before a byte that no number has, a numeral cannot be longer. */
  lemma {:induction false} NumeralEnds(c: Text, p: nat, o: nat)
    requires p <= o < |c| && !IsNumberByte(c[o])
    ensures Longest(c, p, o)
  {
    hide GoodNumeral;
    hide SpelledNumeral;
    hide IsNumberByte;
    forall k | o < k <= |c| && k <= p + 63 ensures !IsNumeral(c[p..k]) {
      assert c[p..k][o - p] == c[o];
      if IsNumeral(c[p..k]) {
        var n :| GoodNumeral(n) && SpelledNumeral(n) == c[p..k];
        NumeralBytes(n);
        assert false;
      }
    }
  }
}
