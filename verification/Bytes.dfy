/** Bytes and C strings. */
module Bytes {
  type Byte = x: int | 0 <= x < 256 witness 0
  type Text = seq<Byte>

  /** A C string is the bytes before its NUL. */
  type CString = t: Text | 0 !in t witness []

  const INT_MAX: int := 2147483647
  const INT_MIN: int := -2147483648
  type Int32 = x: int | INT_MIN <= x <= INT_MAX witness 0

  datatype Option<+T> = None | Some(value: T)

  /** What a reader of C strings sees of a buffer. */
  function AsCString(t: Text): (s: CString)
    ensures s <= t && (|s| < |t| ==> t[|s|] == 0)
  {
    if t == [] || t[0] == 0 then [] else
    var rest := AsCString(t[1..]);
    var s := [t[0]] + rest;
    assert forall i :: 0 <= i < |s| ==> s[i] != 0;
    s
  }

  lemma {:induction false} CStringIsItself(s: CString)
    ensures AsCString(s) == s
  {
    if s != [] {
      assert s[0] in s;
      assert forall x :: x in s[1..] ==> x in s;
      CStringIsItself(s[1..]);
    }
  }

  /** The text ends with a NUL. */
  predicate Terminated(c: Text) { c != [] && c[|c| - 1] == 0 }

  lemma {:induction false} Regrouped(a: Text, b: Text, c: Text)
    ensures a + (b + c) == (a + b) + c
  {
  }

  const TAB: Byte := 9
  const NEWLINE: Byte := 10
  const QUOTE: Byte := 34
  const COMMA: Byte := 44
  const MINUS: Byte := 45
  const SLASH: Byte := 47
  const COLON: Byte := 58
  const OPEN_BRACKET: Byte := 91
  const BACKSLASH: Byte := 92
  const CLOSE_BRACKET: Byte := 93
  const LETTER_B: Byte := 98
  const LETTER_F: Byte := 102
  const LETTER_N: Byte := 110
  const LETTER_R: Byte := 114
  const LETTER_T: Byte := 116
  const LETTER_U: Byte := 117
  const OPEN_BRACE: Byte := 123
  const CLOSE_BRACE: Byte := 125
}
