/** `\uXXXX` escapes: UTF-16 code units in hexadecimal, decoded to UTF-8. */
module UnicodeEscape {
  import opened Bytes

  // ---- four hexadecimal digits

  predicate IsHex(b: Byte) { 48 <= b <= 57 || 65 <= b <= 70 || 97 <= b <= 102 }

  function HexValue(b: Byte): (v: nat)
    requires IsHex(b)
    ensures v < 16
  {
    if b <= 57 then b - 48 else if b <= 70 then b - 65 + 10 else b - 97 + 10
  }

  predicate AllHex(s: Text) { forall i :: 0 <= i < |s| ==> IsHex(s[i]) }

  /** The number written by hexadecimal digits. */
  function HexNumber(s: Text): nat
    requires AllHex(s)
  {
    if s == [] then 0 else HexNumber(s[..|s| - 1]) * 16 + HexValue(s[|s| - 1])
  }

  /** Bad digits read as zero: there is no error return. */
  function Hex4(s: Text): nat {
    if AllHex(s) then HexNumber(s) else 0
  }

  lemma {:induction false} HexNumberBound(s: Text)
    requires AllHex(s) && |s| == 4
    ensures HexNumber(s) < 0x10000
  {
    assert s[..3][..2] == s[..2] && s[..2][..1] == s[..1] && s[..1][..0] == [];
    assert HexNumber(s[..1]) < 16;
    assert HexNumber(s[..2]) < 256;
    assert HexNumber(s[..3]) < 4096;
  }

  method ParseHex4(input: Text, at: nat) returns (h: nat)
    requires at + 4 <= |input|
    ensures h == Hex4(input[at..at + 4]) && h < 0x10000
  {
    h := 0;
    ghost var s := input[at..at + 4];
    for i := 0 to 4
      invariant AllHex(s[..i])
      invariant h == if i < 4 then HexNumber(s[..i]) * 16 else HexNumber(s[..i])
    {
      var b := input[at + i];
      assert b == s[i];
      if 48 <= b <= 57 {
        h := h + (b - 48);
      } else if 65 <= b <= 70 {
        h := h + (10 + b - 65);
      } else if 97 <= b <= 102 {
        h := h + (10 + b - 97);
      } else {
        return 0;
      }
      if i < 3 {
        h := h * 16;  // h << 4
      }
      assert s[..i + 1][..i] == s[..i];
    }
    assert s[..4] == s;
    HexNumberBound(s);
  }

  // ---- UTF-16

  /** The Unicode scalar values: the code points that are not surrogates. */
  predicate IsScalar(cp: int) { 0 <= cp < 0xD800 || 0xE000 <= cp <= 0x10FFFF }

  /** The code units of a scalar value (section 2.1 of RFC 2781). */
  function Utf16(cp: nat): seq<nat>
    requires IsScalar(cp)
  {
    if cp < 0x10000 then [cp]
    else [0xD800 + (cp - 0x10000) / 0x400, 0xDC00 + (cp - 0x10000) % 0x400]
  }

  datatype Literal = Malformed | Literal(codepoint: nat, length: nat)

  /** The escape at `at`: one unit, or a surrogate pair. */
  function LiteralAt(input: Text, at: nat, end: nat): (r: Literal)
    requires end <= |input|
    ensures r.Literal? ==> IsScalar(r.codepoint) && (r.length == 6 || r.length == 12) && at + r.length <= end
  {
    if end - at < 6 then Malformed
    else
      var first := Hex4(input[at + 2..at + 6]);
      Hex4Bound(input[at + 2..at + 6]);
      if 0xDC00 <= first <= 0xDFFF then Malformed
      else if 0xD800 <= first <= 0xDBFF then
        if end - (at + 6) < 6 then Malformed
        else if input[at + 6] != BACKSLASH || input[at + 7] != LETTER_U then Malformed
        else
          var second := Hex4(input[at + 8..at + 12]);
          if second < 0xDC00 || second > 0xDFFF then Malformed
          else Literal(0x10000 + (first % 0x400) * 0x400 + second % 0x400, 12)
      else Literal(first, 6)
  }

  lemma {:induction false} Hex4Bound(s: Text)
    requires |s| == 4
    ensures Hex4(s) < 0x10000
  {
    if AllHex(s) { HexNumberBound(s); }
  }

  /** The escapes at `at` have valid digits and are the code units `units`. */
  predicate EscapesAt(input: Text, at: nat, units: seq<nat>) {
    && at + 6 * |units| <= |input|
    && forall i :: 0 <= i < |units| ==>
         && input[at + 6 * i] == BACKSLASH && input[at + 6 * i + 1] == LETTER_U
         && AllHex(input[at + 6 * i + 2..at + 6 * i + 6])
         && HexNumber(input[at + 6 * i + 2..at + 6 * i + 6]) == units[i]
  }

  /** If its first four digits are valid, an escape decodes to `cp` exactly if it is the UTF-16
      form of `cp`: lone and wrongly paired surrogates are rejected. */
  lemma {:induction false} LiteralIsUtf16(input: Text, at: nat, end: nat, cp: nat)
    requires at + 6 <= end <= |input| && IsScalar(cp)
    requires input[at] == BACKSLASH && input[at + 1] == LETTER_U && AllHex(input[at + 2..at + 6])
    ensures LiteralAt(input, at, end) == Literal(cp, 6 * |Utf16(cp)|)
            <==> EscapesAt(input, at, Utf16(cp)) && at + 6 * |Utf16(cp)| <= end
  {
    hide HexNumber;
    hide AllHex;
    hide EscapesAt;
    HexNumberBound(input[at + 2..at + 6]);
    if cp < 0x10000 {
      EscapesOne(input, at, cp);
    } else {
      EscapesTwo(input, at, 0xD800 + (cp - 0x10000) / 0x400, 0xDC00 + (cp - 0x10000) % 0x400);
      if at + 12 <= |input| && AllHex(input[at + 8..at + 12]) { HexNumberBound(input[at + 8..at + 12]); }
    }
  }

  lemma {:induction false} EscapesOne(input: Text, at: nat, u: nat)
    requires at + 6 <= |input|
    ensures EscapesAt(input, at, [u]) <==>
            && input[at] == BACKSLASH && input[at + 1] == LETTER_U
            && AllHex(input[at + 2..at + 6]) && HexNumber(input[at + 2..at + 6]) == u
  {
    hide HexNumber;
    hide AllHex;
    assert input[at + 6 * 0 + 2..at + 6 * 0 + 6] == input[at + 2..at + 6];
  }

  lemma {:induction false} EscapesTwo(input: Text, at: nat, u: nat, v: nat)
    requires at + 6 <= |input|
    ensures EscapesAt(input, at, [u, v]) <==>
            && at + 12 <= |input| && input[at] == BACKSLASH && input[at + 1] == LETTER_U
            && AllHex(input[at + 2..at + 6]) && HexNumber(input[at + 2..at + 6]) == u
            && input[at + 6] == BACKSLASH && input[at + 7] == LETTER_U
            && AllHex(input[at + 8..at + 12]) && HexNumber(input[at + 8..at + 12]) == v
  {
    hide HexNumber;
    hide AllHex;
    assert input[at + 6 * 0 + 2..at + 6 * 0 + 6] == input[at + 2..at + 6];
    if at + 12 <= |input| {
      assert input[at + 6 * 1 + 2..at + 6 * 1 + 6] == input[at + 8..at + 12];
      assert [u, v][0] == u && [u, v][1] == v;
      if EscapesAt(input, at, [u, v]) {
        assert input[at + 6 * 1] == BACKSLASH && input[at + 6 * 1 + 1] == LETTER_U;
      }
    }
  }

  // ---- UTF-8

  /** The UTF-8 form of a code point (section 3 of RFC 3629). */
  function Utf8(cp: nat): (t: Text)
    requires cp <= 0x10FFFF
    ensures 1 <= |t| <= 4
  {
    if cp < 0x80 then [cp]
    else if cp < 0x800 then [0xC0 + cp / 64, 0x80 + cp % 64]
    else if cp < 0x10000 then [0xE0 + cp / 64 / 64, 0x80 + cp / 64 % 64, 0x80 + cp % 64]
    else [0xF0 + cp / 64 / 64 / 64, 0x80 + cp / 64 / 64 % 64, 0x80 + cp / 64 % 64, 0x80 + cp % 64]
  }

  predicate Continues(b: Byte) { 0x80 <= b < 0xC0 }

  function Joined(high: nat, b: Byte): nat
    requires Continues(b)
  {
    high * 64 + (b - 0x80)
  }

  /** The number that the bits of a byte sequence of UTF-8 shape spell out, shortest form or not. */
  function Utf8Value(t: Text): Option<nat> {
    if |t| == 1 && t[0] < 0x80 then Some(t[0])
    else if |t| == 2 && 0xC0 <= t[0] < 0xE0 && Continues(t[1]) then
      var high: nat := t[0] - 0xC0;
      Some(Joined(high, t[1]))
    else if |t| == 3 && 0xE0 <= t[0] < 0xF0 && Continues(t[1]) && Continues(t[2]) then
      var high: nat := t[0] - 0xE0;
      Some(Joined(Joined(high, t[1]), t[2]))
    else if |t| == 4 && 0xF0 <= t[0] < 0xF8 && Continues(t[1]) && Continues(t[2]) && Continues(t[3]) then
      var high: nat := t[0] - 0xF0;
      Some(Joined(Joined(Joined(high, t[1]), t[2]), t[3]))
    else None
  }

  lemma {:induction false} Unjoined(high: nat, b: Byte)
    requires Continues(b)
    ensures Joined(high, b) / 64 == high && 0x80 + Joined(high, b) % 64 == b
  {
  }

  /** The encoding decodes back, is the shortest form of the code point, and the only one so short. */
  lemma {:induction false} Utf8IsShortest(cp: nat, t: Text)
    requires cp <= 0x10FFFF
    ensures Utf8Value(Utf8(cp)) == Some(cp)
    ensures Utf8Value(t) == Some(cp) ==> |Utf8(cp)| <= |t| && (|t| == |Utf8(cp)| ==> t == Utf8(cp))
  {
    hide Utf8;
    hide Utf8Value;
    if Utf8Value(t) == Some(cp) { ShortestForm(cp, t); }
    DecodesBack(cp);
  }

  lemma {:induction false} DecodesBack(cp: nat)
    requires cp <= 0x10FFFF
    ensures Utf8Value(Utf8(cp)) == Some(cp)
  {
  }

  lemma {:induction false} ShortestForm(cp: nat, t: Text)
    requires cp <= 0x10FFFF && Utf8Value(t) == Some(cp)
    ensures |Utf8(cp)| <= |t| && (|t| == |Utf8(cp)| ==> t == Utf8(cp))
  {
    if |t| >= 2 {
      var high: nat := t[0] - (if |t| == 2 then 0xC0 else if |t| == 3 then 0xE0 else 0xF0);
      Unjoined(high, t[1]);
      if |t| >= 3 { Unjoined(Joined(high, t[1]), t[2]); }
      if |t| == 4 { Unjoined(Joined(Joined(high, t[1]), t[2]), t[3]); }
    }
  }

  /** The masks and shifts of the encoder are the arithmetic used here. */
  lemma {:induction false} MasksAreArithmetic(x: bv32)
    ensures ((x | 0x80) & 0xBF) & 0xFF == 0x80 + x % 64
    ensures x >> 6 == x / 64
  {
  }

  /** Decode the escape at `at` and append its UTF-8 form to `output` at `pos`. */
  method Utf16LiteralToUtf8(input: Text, at: nat, end: nat, output: array<Byte>, pos: nat)
      returns (sequenceLength: nat, pos': nat)
    requires end <= |input|
    requires LiteralAt(input, at, end).Literal? ==> pos + |Utf8(LiteralAt(input, at, end).codepoint)| <= output.Length
    modifies output
    ensures LiteralAt(input, at, end).Malformed? ==> sequenceLength == 0 && pos' == pos && output[..] == old(output[..])
    ensures LiteralAt(input, at, end).Literal? ==>
              var l := LiteralAt(input, at, end);
              && sequenceLength == l.length && pos' == pos + |Utf8(l.codepoint)|
              && output[..] == old(output[..pos]) + Utf8(l.codepoint) + old(output[pos'..])
  {
    hide Utf8;
    hide Hex4;
    if end - at < 6 { return 0, pos; }
    var first := ParseHex4(input, at + 2);
    if 0xDC00 <= first <= 0xDFFF { return 0, pos; }
    var codepoint: nat;
    if 0xD800 <= first <= 0xDBFF {
      sequenceLength := 12;
      if end - (at + 6) < 6 { return 0, pos; }
      if input[at + 6] != BACKSLASH || input[at + 7] != LETTER_U { return 0, pos; }
      var second := ParseHex4(input, at + 8);
      if second < 0xDC00 || second > 0xDFFF { return 0, pos; }
      codepoint := 0x10000 + (first % 0x400) * 0x400 + second % 0x400;
    } else {
      sequenceLength := 6;
      codepoint := first;
    }
    pos' := EncodeUtf8(codepoint, output, pos);
  }

  method EncodeUtf8(cp: nat, output: array<Byte>, pos: nat) returns (pos': nat)
    requires cp <= 0x10FFFF && pos + |Utf8(cp)| <= output.Length
    modifies output
    ensures pos' == pos + |Utf8(cp)|
    ensures output[..] == old(output[..pos]) + Utf8(cp) + old(output[pos'..])
  {
    hide Utf8;
    hide Shifted;
    Utf8Bytes(cp);
    Utf8Length(cp);
    var codepoint := cp;
    var length, mark := 0, 0;
    if codepoint < 0x80 {
      length := 1;
    } else if codepoint < 0x800 {
      length, mark := 2, 0xC0;
    } else if codepoint < 0x10000 {
      length, mark := 3, 0xE0;
    } else {
      length, mark := 4, 0xF0;
    }
    ghost var code := Utf8(cp);
    codepoint := PutContinuations(cp, length, output, pos, code);
    output[pos] := mark + codepoint;  // the high bits fit beside the mark
    pos' := pos + length;
    AllPlaced(output[..], old(output[..]), pos, code);
  }

  lemma {:induction false} Utf8Length(cp: nat)
    requires cp <= 0x10FFFF
    ensures |Utf8(cp)| == if cp < 0x80 then 1 else if cp < 0x800 then 2 else if cp < 0x10000 then 3 else 4
  {
  }

  /** The bytes after the first, last one first; the high bits of the code point are left. */
  method PutContinuations(cp: nat, length: nat, output: array<Byte>, pos: nat, ghost code: Text)
      returns (codepoint: nat)
    requires length == |code| > 0 && pos + length <= output.Length
    requires forall j :: 0 < j < length ==> code[j] == 0x80 + Shifted(cp, length - 1 - j) % 64
    modifies output
    ensures codepoint == Shifted(cp, length - 1)
    ensures forall j :: 0 < j < length ==> output[pos + j] == code[j]
    ensures forall j :: 0 <= j < output.Length && !(pos <= j < pos + length) ==> output[j] == old(output[j])
  {
    codepoint := cp;
    var i := length - 1;
    while i > 0
      invariant 0 <= i < length
      invariant codepoint == Shifted(cp, length - 1 - i)
      invariant forall j :: i < j < length ==> output[pos + j] == code[j]
      invariant forall j :: 0 <= j < output.Length && !(pos <= j < pos + length) ==> output[j] == old(output[j])
    {
      output[pos + i] := 0x80 + codepoint % 64;  // (codepoint | 0x80) & 0xBF
      codepoint := codepoint / 64;
      i := i - 1;
    }
  }

  lemma {:induction false} AllPlaced(now: Text, was: Text, pos: nat, code: Text)
    requires |now| == |was| && pos + |code| <= |now| && forall j :: 0 <= j < |code| ==> now[pos + j] == code[j]
    requires forall j :: 0 <= j < |now| && !(pos <= j < pos + |code|) ==> now[j] == was[j]
    ensures now == was[..pos] + code + was[pos + |code|..]
  {
    assert now[pos..pos + |code|] == code;
  }

  function Shifted(cp: nat, n: nat): nat { if n == 0 then cp else Shifted(cp, n - 1) / 64 }

  function Mark(length: nat): nat {
    if length == 1 then 0 else if length == 2 then 0xC0 else if length == 3 then 0xE0 else 0xF0
  }

  lemma {:induction false} Utf8Bytes(cp: nat)
    requires cp <= 0x10FFFF
    ensures var t := Utf8(cp);
            && t[0] == Mark(|t|) + Shifted(cp, |t| - 1)
            && forall i :: 0 < i < |t| ==> t[i] == 0x80 + Shifted(cp, |t| - 1 - i) % 64
  {
    assert Shifted(cp, 1) == cp / 64;
    assert Shifted(cp, 2) == cp / 64 / 64;
    assert Shifted(cp, 3) == cp / 64 / 64 / 64;
  }
}
