/** String literals: two passes over the text between the quotes, and the escaping that writes it.

    The first pass finds the closing quote and counts the units to allocate, a backslash and the
    byte after it being one unit.  The second pass decodes.  The passes need not agree on where units
    start, because a `\u` escape with bad digits is accepted and may swallow a backslash; the bytes
    written stay within the units counted all the same. */
module JsonString {
  import opened Bytes
  import opened UnicodeEscape

  // ---- first pass

  /** The closing quote of the literal whose text starts at `p`. */
  function ScanQuote(c: Text, p: nat): (r: Option<nat>)
    requires p <= |c|
    ensures r.Some? ==> p <= r.value < |c| && c[r.value] == QUOTE
    decreases |c| - p
  {
    if p == |c| then None
    else if c[p] == QUOTE then Some(p)
    else if c[p] == BACKSLASH then
      if p + 1 >= |c| then None else ScanQuote(c, p + 2)
    else ScanQuote(c, p + 1)
  }

  /** The units the first pass counts from `p` up to the closing quote. */
  function Units(c: Text, p: nat): nat
    requires p <= |c| && ScanQuote(c, p).Some?
    decreases |c| - p
  {
    if c[p] == QUOTE then 0
    else if c[p] == BACKSLASH then 1 + Units(c, p + 2)
    else 1 + Units(c, p + 1)
  }

  // ---- second pass

  /** What follows a backslash, when it is one byte. */
  function SimpleEscape(b: Byte): Option<Byte> {
    if b == LETTER_B then Some(8)
    else if b == LETTER_F then Some(12)
    else if b == LETTER_N then Some(10)
    else if b == LETTER_R then Some(13)
    else if b == LETTER_T then Some(9)
    else if b == QUOTE || b == BACKSLASH || b == SLASH then Some(b)
    else None
  }

  /** One round of the decoding loop: the bytes it writes and the bytes it takes. */
  datatype Round = Bad | Round(written: Text, taken: nat)

  function Decoding(c: Text, p: nat, end: nat): (r: Round)
    requires p < end < |c|
    ensures r.Round? ==> 1 <= r.taken && p + r.taken <= end + 1
  {
    if c[p] != BACKSLASH then Round([c[p]], 1)
    else if c[p + 1] == LETTER_U then
      match LiteralAt(c, p, end)
      case Malformed => Bad
      case Literal(cp, length) => Round(Utf8(cp), length)
    else
      match SimpleEscape(c[p + 1])
      case None => Bad
      case Some(b) => Round([b], 2)
  }

  datatype DecodeResult = BadAt(at: nat) | Decoded(text: Text)

  function Decode(c: Text, p: nat, end: nat): (r: DecodeResult)
    requires p <= end + 1 && end < |c|
    ensures r.BadAt? ==> p <= r.at < end
    decreases end + 1 - p
  {
    if p >= end then Decoded([])
    else
      match Decoding(c, p, end)
      case Bad => BadAt(p)
      case Round(w, n) =>
        match Decode(c, p + n, end)
        case BadAt(at) => BadAt(at)
        case Decoded(t) => Decoded(w + t)
  }

  // ---- the bytes written never exceed the units counted

  /** The second pass at `p` is where the first pass starts a unit, or (`inside`) on the second byte
      of one. */
  predicate Tracks(c: Text, p: nat, end: nat, inside: bool) {
    var q := if inside then p + 1 else p;
    p <= end && q <= |c| && ScanQuote(c, q) == Some(end)
  }

  /** The units left: the one the second pass is inside counts. */
  function UnitsLeft(c: Text, p: nat, end: nat, inside: bool): nat
    requires Tracks(c, p, end, inside)
  {
    if inside then 1 + Units(c, p + 1) else Units(c, p)
  }

  /** One byte on: a unit is used up, unless the byte is the backslash that starts one. */
  lemma {:induction false} TrackByte(c: Text, p: nat, end: nat, inside: bool) returns (inside': bool)
    requires Tracks(c, p, end, inside) && p < end
    ensures inside' == (!inside && c[p] == BACKSLASH)
    ensures Tracks(c, p + 1, end, inside')
    ensures UnitsLeft(c, p, end, inside) == UnitsLeft(c, p + 1, end, inside') + if inside' then 0 else 1
  {
    inside' := !inside && c[p] == BACKSLASH;
  }

  /** Bytes that are no backslashes are a unit each. */
  lemma {:induction false} TrackPlain(c: Text, p: nat, end: nat, k: nat)
    requires Tracks(c, p, end, false) && p + k <= end
    requires forall i :: p <= i < p + k ==> c[i] != BACKSLASH
    ensures Tracks(c, p + k, end, false) && UnitsLeft(c, p, end, false) == UnitsLeft(c, p + k, end, false) + k
  {
    if k > 0 {
      TrackPlain(c, p, end, k - 1);
      var inside := TrackByte(c, p + k - 1, end, false);
    }
  }

  /** Any bytes use units up. */
  lemma {:induction false} TrackAny(c: Text, p: nat, end: nat, inside: bool, k: nat) returns (inside': bool)
    requires Tracks(c, p, end, inside) && p + k <= end
    ensures Tracks(c, p + k, end, inside') && UnitsLeft(c, p + k, end, inside') <= UnitsLeft(c, p, end, inside)
    decreases k
  {
    inside' := inside;
    if k > 0 {
      inside' := TrackByte(c, p, end, inside);
      inside' := TrackAny(c, p + 1, end, inside', k - 1);
    }
  }

  /** Backslash, `u` and four hexadecimal digits: at least five units. */
  lemma {:induction false} TrackHexEscape(c: Text, p: nat, end: nat, inside: bool)
    requires Tracks(c, p, end, inside) && p + 6 <= end < |c|
    requires c[p] == BACKSLASH && c[p + 1] == LETTER_U && AllHex(c[p + 2..p + 6])
    ensures Tracks(c, p + 6, end, false)
    ensures UnitsLeft(c, p, end, inside) >= UnitsLeft(c, p + 6, end, false) + 5
  {
    forall i | p + 2 <= i < p + 6 ensures c[i] != BACKSLASH {
      assert IsHex(c[p + 2..p + 6][i - (p + 2)]);
    }
    var x := TrackByte(c, p, end, inside);
    x := TrackByte(c, p + 1, end, x);
    TrackPlain(c, p + 2, end, 4);
  }

  /** A round of decoding writes no more bytes than the units it uses up. */
  lemma {:induction false} RoundFits(c: Text, p: nat, end: nat, inside: bool) returns (inside': bool)
    requires Tracks(c, p, end, inside) && p < end < |c| && Decoding(c, p, end).Round?
    ensures var r := Decoding(c, p, end);
            if p + r.taken > end then |r.written| <= UnitsLeft(c, p, end, inside)
            else Tracks(c, p + r.taken, end, inside')
                 && |r.written| + UnitsLeft(c, p + r.taken, end, inside') <= UnitsLeft(c, p, end, inside)
  {
    hide Utf8;
    var r := Decoding(c, p, end);
    if c[p] != BACKSLASH {
      inside' := TrackByte(c, p, end, inside);
    } else if c[p + 1] != LETTER_U {
      inside' := TrackByte(c, p, end, inside);
      if p + 2 <= end {
        inside' := TrackByte(c, p + 1, end, inside');
      }
    } else if AllHex(c[p + 2..p + 6]) {
      TrackHexEscape(c, p, end, inside);
      inside' := false;
      assert |Utf8(LiteralAt(c, p, end).codepoint)| <= 4;
      if r.taken == 12 {
        assert AllHex(c[p + 8..p + 12]) by { assert Hex4(c[p + 8..p + 12]) != 0; }
        TrackHexEscape(c, p + 6, end, false);
      }
    } else {
      assert LiteralAt(c, p, end) == Literal(0, 6);
      assert |Utf8(0)| == 1 by { NulIsOneByte(); }
      inside' := TrackByte(c, p, end, inside);
      inside' := TrackByte(c, p + 1, end, inside');
      inside' := TrackAny(c, p + 2, end, inside', 4);
    }
  }

  lemma {:induction false} NulIsOneByte()
    ensures |Utf8(0)| == 1
  {
  }

  /** So the whole decoded text fits in the units counted, aligned or not. */
  lemma {:induction false} DecodeFits(c: Text, p: nat, end: nat, inside: bool)
    requires Tracks(c, p, end, inside) && end < |c|
    ensures var r := Decode(c, p, end); r.Decoded? ==> |r.text| <= UnitsLeft(c, p, end, inside)
    decreases end - p
  {
    hide Decoding;
    if p < end && Decoding(c, p, end).Round? {
      var r := Decoding(c, p, end);
      var inside' := RoundFits(c, p, end, inside);
      if p + r.taken <= end {
        DecodeFits(c, p + r.taken, end, inside');
      }
    }
  }

  // ---- writing a literal

  function HexDigit(v: nat): Byte
    requires v < 16
  {
    if v < 10 then 48 + v else 97 + v - 10
  }

  /** One byte of a string as it is printed. */
  function EscapedByte(b: Byte): Text {
    if b == QUOTE || b == BACKSLASH then [BACKSLASH, b]
    else if b > 31 then [b]
    else if b == 8 then [BACKSLASH, LETTER_B]
    else if b == 12 then [BACKSLASH, LETTER_F]
    else if b == 10 then [BACKSLASH, LETTER_N]
    else if b == 13 then [BACKSLASH, LETTER_R]
    else if b == 9 then [BACKSLASH, LETTER_T]
    else [BACKSLASH, LETTER_U, 48, 48, HexDigit(b / 16), HexDigit(b % 16)]
  }

  function Escaped(s: Text): Text {
    if s == [] then [] else EscapedByte(s[0]) + Escaped(s[1..])
  }

  function Quoted(s: Text): Text { [QUOTE] + Escaped(s) + [QUOTE] }

  /** `t` stands in `c` at `p`. */
  predicate StandsAt(t: Text, c: Text, p: nat) {
    p + |t| <= |c| && c[p..p + |t|] == t
  }

  lemma {:induction false} StandsSplit(a: Text, b: Text, c: Text, p: nat)
    requires StandsAt(a + b, c, p)
    ensures StandsAt(a, c, p) && StandsAt(b, c, p + |a|)
  {
    assert c[p..p + |a|] == c[p..p + |a + b|][..|a|];
    assert c[p + |a|..p + |a| + |b|] == c[p..p + |a + b|][|a|..];
  }

  lemma {:induction false} StandingByte(t: Text, c: Text, p: nat, i: nat)
    requires StandsAt(t, c, p) && i < |t|
    ensures p + i < |c| && c[p + i] == t[i]
  {
    assert c[p..p + |t|][i] == c[p + i];
  }

  lemma {:induction false} ScanOver(c: Text, p: nat, n: nat)
    requires p + n <= |c| && forall i :: p <= i < p + n ==> c[i] != QUOTE && c[i] != BACKSLASH
    ensures ScanQuote(c, p) == ScanQuote(c, p + n)
    decreases n
  {
    if n > 0 { ScanOver(c, p + 1, n - 1); }
  }

  /** The digits of a control byte's escape. */
  lemma {:induction false} ControlDigits(b: Byte)
    requires b < 32
    ensures var hex := [48, 48, HexDigit(b / 16), HexDigit(b % 16)];
            && AllHex(hex) && HexNumber(hex) == b
            && forall i :: 0 <= i < 4 ==> hex[i] != QUOTE && hex[i] != BACKSLASH
  {
    var hex := [48, 48, HexDigit(b / 16), HexDigit(b % 16)];
    assert hex[..3][..2] == hex[..2] && hex[..2][..1] == hex[..1] && hex[..1][..0] == [];
    assert HexNumber(hex[..1]) == 0;
    assert HexNumber(hex[..2]) == 0;
    assert HexNumber(hex[..3]) == b / 16;
  }

  lemma {:induction false} ControlDecodes(b: Byte, c: Text, p: nat, end: nat)
    requires b < 32 && p + 6 <= end < |c|
    requires c[p] == BACKSLASH && c[p + 1] == LETTER_U
             && c[p + 2..p + 6] == [48, 48, HexDigit(b / 16), HexDigit(b % 16)]
    ensures Decoding(c, p, end) == Round([b], 6) && ScanQuote(c, p) == ScanQuote(c, p + 6)
  {
    var hex := c[p + 2..p + 6];
    ControlDigits(b);
    assert forall i :: 0 <= i < 4 ==> c[p + 2 + i] == hex[i];
    assert ScanQuote(c, p) == ScanQuote(c, p + 2);
    ScanOver(c, p + 2, 4);
    hide ScanQuote;
    hide HexNumber;
    hide HexDigit;
    hide AllHex;
    assert LiteralAt(c, p, end) == Literal(b, 6);
    assert Utf8(b) == [b];
  }

  /** Both passes undo the escaping of a byte. */
  lemma {:induction false} EscapedByteDecodes(b: Byte, c: Text, p: nat, end: nat)
    requires StandsAt(EscapedByte(b), c, p) && p + |EscapedByte(b)| <= end < |c|
    ensures Decoding(c, p, end) == Round([b], |EscapedByte(b)|)
    ensures ScanQuote(c, p) == ScanQuote(c, p + |EscapedByte(b)|)
  {
    hide LiteralAt;
    hide Utf8;
    var e := EscapedByte(b);
    StandingByte(e, c, p, 0);
    if |e| == 6 {
      StandingByte(e, c, p, 1);
      assert c[p + 2..p + 6] == c[p..p + 6][2..] == e[2..];
      assert e[2..] == [48, 48, HexDigit(b / 16), HexDigit(b % 16)];
      ControlDecodes(b, c, p, end);
    } else if |e| == 2 {
      StandingByte(e, c, p, 1);
    }
  }

  /** An escaped string is its first byte escaped and then the rest. */
  lemma {:induction false} FirstEscaped(s: Text, c: Text, p: nat)
    requires s != [] && StandsAt(Escaped(s) + [QUOTE], c, p)
    ensures var e, rest := EscapedByte(s[0]), Escaped(s[1..]);
            && e != [] && |Escaped(s)| == |e| + |rest|
            && StandsAt(e, c, p) && StandsAt(rest + [QUOTE], c, p + |e|) && p + |e| + |rest| < |c|
  {
    hide EscapedByte;
    var e, rest := EscapedByte(s[0]), Escaped(s[1..]);
    EscapedByteNotEmpty(s[0]);
    assert Escaped(s) + [QUOTE] == e + (rest + [QUOTE]);
    StandsSplit(e, rest + [QUOTE], c, p);
  }

  lemma {:induction false} NothingEscapedDecodes(c: Text, p: nat)
    requires StandsAt(Escaped([]) + [QUOTE], c, p)
    ensures Escaped([]) == [] && p < |c| && ScanQuote(c, p) == Some(p) && Decode(c, p, p) == Decoded([])
  {
    StandingByte([QUOTE], c, p, 0);
  }

  /** Decoding the escaped form of a string gives the string, and stops at its closing quote. */
  lemma {:induction false} EscapedDecodes(s: Text, c: Text, p: nat)
    requires StandsAt(Escaped(s) + [QUOTE], c, p)
    ensures var end := p + |Escaped(s)|; ScanQuote(c, p) == Some(end) && Decode(c, p, end) == Decoded(s)
  {
    hide *;
    if s == [] {
      NothingEscapedDecodes(c, p);
    } else {
      FirstEscaped(s, c, p);
      var e, end := EscapedByte(s[0]), p + |Escaped(s)|;
      EscapedDecodes(s[1..], c, p + |e|);
      EscapedByteDecodes(s[0], c, p, end);
      DecodeAfter(c, p, end, s[0], |e|, s[1..]);
      assert [s[0]] + s[1..] == s;
    }
  }

  lemma {:induction false} DecodeAfter(c: Text, p: nat, end: nat, b: Byte, n: nat, t: Text)
    requires p < end < |c| && p + n <= end + 1 && n > 0
    requires Decoding(c, p, end) == Round([b], n)
    requires Decode(c, p + n, end) == Decoded(t)
    ensures Decode(c, p, end) == Decoded([b] + t)
  {
    hide Decoding;
  }

  lemma {:induction false} EscapedByteNotEmpty(b: Byte)
    ensures EscapedByte(b) != []
  {
  }
}
