/** The string helpers that header handling uses. */
module HeaderText {
  import opened Bytes

  predicate IsSpace(c: char) { c in " \t\n\r" || c as int == 11 || c as int == 12 }

  function LTrim(s: string): string {
    if s == "" || !IsSpace(s[0]) then s else LTrim(s[1..])
  }

  function RTrim(s: string): string {
    if s == "" || !IsSpace(s[|s| - 1]) then s else RTrim(s[..|s| - 1])
  }

  function Trim(s: string): string { LTrim(RTrim(s)) }

  /** The pieces of `s` between separators: always at least one. */
  function Pieces(s: string, sep: char): (r: seq<string>)
    ensures |r| > 0
  {
    if s == "" then [""]
    else
      var r := Pieces(s[1..], sep);
      if s[0] == sep then [""] + r else [[s[0]] + r[0]] + r[1..]
  }

  function Split(s: string, sep: char): seq<string> {
    if s == "" then [] else Pieces(s, sep)
  }

  /** Strip one pair of quotes.  A lone quote counts as its own pair, and taking it off twice makes
      the length underflow: `None` stands for the exception that turning the result into a string
      then throws. */
  function TrimPairs(s: string): Option<string> {
    if s == "" then Some(s)
    else if s[0] == s[|s| - 1] && s[0] in "\"'" then
      if |s| == 1 then None else Some(s[1..|s| - 1])
    else Some(s)
  }

  function Lower(c: char): char {
    if 'A' <= c <= 'Z' then c - 'A' + 'a' else c
  }

  predicate EqualIgnoringCase(a: string, b: string) {
    |a| == |b| && forall i :: 0 <= i < |a| ==> Lower(a[i]) == Lower(b[i])
  }

  lemma {:induction false} OnePiece(p: string, sep: char)
    requires sep !in p
    ensures Pieces(p, sep) == [p]
  {
    if p != "" {
      OnePiece(p[1..], sep);
      assert [p[0]] + p[1..] == p;
    }
  }

  lemma {:induction false} FirstPiece(p: string, sep: char, rest: string)
    requires sep !in p
    ensures Pieces(p + ([sep] + rest), sep) == [p] + Pieces(rest, sep)
  {
    var s := p + ([sep] + rest);
    if p == "" {
      assert s == [sep] + rest;
      assert s[1..] == rest;
    } else {
      FirstPiece(p[1..], sep, rest);
      assert s[1..] == p[1..] + ([sep] + rest);
      assert [p[0]] + p[1..] == p;
    }
  }

  /** Joining pieces with a separator that none of them contains, and splitting again, is the identity. */
  function JoinedBy(ps: seq<string>, sep: char): string
    requires |ps| > 0
  {
    if |ps| == 1 then ps[0] else ps[0] + ([sep] + JoinedBy(ps[1..], sep))
  }

  lemma {:induction false} SplitJoined(ps: seq<string>, sep: char)
    requires |ps| > 0 && forall i :: 0 <= i < |ps| ==> sep !in ps[i]
    ensures Pieces(JoinedBy(ps, sep), sep) == ps
  {
    if |ps| == 1 {
      OnePiece(ps[0], sep);
    } else {
      SplitJoined(ps[1..], sep);
      FirstPiece(ps[0], sep, JoinedBy(ps[1..], sep));
    }
  }

  lemma {:induction false} TrimOneSpace(t: string)
    requires t != "" && !IsSpace(t[0]) && !IsSpace(t[|t| - 1])
    ensures Trim(t) == t && Trim([' '] + t) == t
  {
    var s := [' '] + t;
    assert s[|s| - 1] == t[|t| - 1];
    assert s[1..] == t;
  }
}
