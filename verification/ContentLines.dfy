/** A file's lines as the digest worker must see them, whatever blocks the file is read in. */
module ContentLines {
  import opened Bytes

  const LF: Byte := 10

  predicate IsSpace(b: Byte) { b == 32 || 9 <= b <= 13 }

  predicate IsBlankLine(line: Text) { forall i :: 0 <= i < |line| ==> IsSpace(line[i]) }

  // ---- the reference: one line at a time from the whole text

  /** How far the first line reaches: up to a line feed, or to the end. */
  function LineLength(t: Text): (n: nat)
    ensures n <= |t| && (n < |t| ==> t[n] == LF)
    ensures forall i :: 0 <= i < n ==> t[i] != LF
  {
    if t == [] || t[0] == LF then 0 else 1 + LineLength(t[1..])
  }

  /** Every line without its line feed; nothing after a last line feed is not a line. */
  function FileLines(t: Text): seq<Text>
    decreases |t|
  {
    if t == [] then [] else
      var n := LineLength(t);
      [t[..n]] + if n == |t| then [] else FileLines(t[n + 1..])
  }

  function Kept(lines: seq<Text>): seq<Text> {
    if lines == [] then [] else (if IsBlankLine(lines[0]) then [] else [lines[0]]) + Kept(lines[1..])
  }

  function BlankCount(lines: seq<Text>): nat {
    if lines == [] then 0 else (if IsBlankLine(lines[0]) then 1 else 0) + BlankCount(lines[1..])
  }

  // ---- the worker: block after block, with the unfinished line carried over

  /** The line carried over, the lines whose digests are listed, and the number of blank lines. */
  datatype Tally = Tally(carry: Text, kept: seq<Text>, blanks: nat)

  function Count(y: Tally, line: Text): Tally {
    if IsBlankLine(line) then y.(blanks := y.blanks + 1) else y.(kept := y.kept + [line])
  }

  /** The end of a line: what was carried over goes in front of it. */
  function EndLine(y: Tally, line: Text): Tally {
    Count(y, y.carry + line).(carry := [])
  }

  function ByLines(y: Tally, block: Text): Tally
    decreases |block|
  {
    var n := LineLength(block);
    if n == |block| then y.(carry := y.carry + block) else ByLines(EndLine(y, block[..n]), block[n + 1..])
  }

  /** The end of the file. A blank last line is counted, but stays in the carry. */
  function Finish(y: Tally): Tally {
    if y.carry == [] then y
    else if IsBlankLine(y.carry) then y.(blanks := y.blanks + 1)
    else Tally([], y.kept + [y.carry], y.blanks)
  }

  lemma {:induction false} LineLengthJoined(a: Text, b: Text)
    ensures LineLength(a + b) == if LineLength(a) < |a| then LineLength(a) else |a| + LineLength(b)
  {
    if a == [] {
      assert a + b == b;
    } else if a[0] != LF {
      assert (a + b)[1..] == a[1..] + b;
      LineLengthJoined(a[1..], b);
    }
  }

  lemma {:induction false} LineSplit(a: Text, b: Text, n: nat)
    requires n < |a|
    ensures (a + b)[..n] == a[..n] && (a + b)[n + 1..] == a[n + 1..] + b
  {
  }

  /** Where the blocks are cut makes no difference. */
  lemma {:induction false} BlocksJoin(y: Tally, a: Text, b: Text)
    ensures ByLines(ByLines(y, a), b) == ByLines(y, a + b)
    decreases |a|
  {
    var n := LineLength(a);
    LineLengthJoined(a, b);
    if n < |a| {
      LineSplit(a, b, n);
      BlocksJoin(EndLine(y, a[..n]), a[n + 1..], b);
    } else {
      CarryOn(y, a, b);
    }
  }

  lemma {:induction false} ByLinesStep(y: Tally, block: Text, n: nat)
    requires n == LineLength(block)
    ensures n == |block| ==> ByLines(y, block) == y.(carry := y.carry + block)
    ensures n < |block| ==> ByLines(y, block) == ByLines(EndLine(y, block[..n]), block[n + 1..])
  {
    hide EndLine;
  }

  /** An unfinished line in front of a block. */
  lemma {:induction false} CarryOn(y: Tally, a: Text, b: Text)
    requires LineLength(a) == |a|
    ensures ByLines(y.(carry := y.carry + a), b) == ByLines(y, a + b)
  {
    hide ByLines;
    hide IsBlankLine;
    hide LineLength;
    var n := LineLength(b);
    var x := y.(carry := y.carry + a);
    LineLengthJoined(a, b);
    ByLinesStep(x, b, n);
    ByLinesStep(y, a + b, |a| + n);
    if n == |b| {
      assert y.carry + a + b == y.carry + (a + b);
    } else {
      CutInSecond(a, b, n);
      assert y.carry + a + b[..n] == y.carry + (a + b[..n]);
      assert EndLine(x, b[..n]) == EndLine(y, a + b[..n]);
    }
  }

  lemma {:induction false} CutInSecond(a: Text, b: Text, n: nat)
    requires n < |b|
    ensures (a + b)[..|a| + n] == a + b[..n] && (a + b)[|a| + n + 1..] == b[n + 1..]
  {
  }

  function AfterFirst(t: Text): Text {
    var n := LineLength(t);
    if n == |t| then [] else t[n + 1..]
  }

  lemma {:induction false} FirstOfLines(t: Text)
    requires t != []
    ensures FileLines(t) == [t[..LineLength(t)]] + FileLines(AfterFirst(t))
  {
    hide LineLength;
  }

  /** The first line and the rest of the text. */
  lemma {:induction false} FirstLine(t: Text)
    requires t != []
    ensures var line := t[..LineLength(t)];
            && Kept(FileLines(t)) == (if IsBlankLine(line) then [] else [line]) + Kept(FileLines(AfterFirst(t)))
            && BlankCount(FileLines(t)) == (if IsBlankLine(line) then 1 else 0) + BlankCount(FileLines(AfterFirst(t)))
  {
    hide FileLines;
    hide LineLength;
    hide AfterFirst;
    hide IsBlankLine;
    FirstOfLines(t);
    var line, rest := t[..LineLength(t)], FileLines(AfterFirst(t));
    assert ([line] + rest)[1..] == rest;
  }

  lemma {:induction false} NoLines()
    ensures Kept(FileLines([])) == [] && BlankCount(FileLines([])) == 0
  {
  }

  lemma {:induction false} Counted(y: Tally, line: Text, kept: seq<Text>)
    requires y.carry == []
    ensures var z := EndLine(y, line);
            && z.carry == [] && z.blanks == y.blanks + (if IsBlankLine(line) then 1 else 0)
            && z.kept + kept == y.kept + ((if IsBlankLine(line) then [] else [line]) + kept)
  {
    hide IsBlankLine;
    assert [] + line == line;
    assert y.kept + ([line] + kept) == y.kept + [line] + kept;
    assert [] + kept == kept;
  }

  lemma {:induction false} LastCounted(y: Tally, line: Text)
    requires y.carry == [] && line != []
    ensures var z := Finish(y.(carry := line));
            && z.blanks == y.blanks + (if IsBlankLine(line) then 1 else 0)
            && z.kept == y.kept + ((if IsBlankLine(line) then [] else [line]) + [])
  {
    hide IsBlankLine;
  }

  lemma {:induction false} TallyOf(y: Tally, t: Text)
    requires y.carry == []
    ensures var z := Finish(ByLines(y, t));
            z.kept == y.kept + Kept(FileLines(t)) && z.blanks == y.blanks + BlankCount(FileLines(t))
    decreases |t|
  {
    hide *;
    var n := LineLength(t);
    ByLinesStep(y, t, n);
    NoLines();
    assert [] + t == t;
    if t == [] {
      assert y.(carry := []) == y;
      NothingLeft(y);
    } else {
      FirstLine(t);
      AfterFirstOf(t);
      if n == |t| {
        assert t[..n] == t;
        LastCounted(y, t);
      } else {
        var line, rest := t[..n], AfterFirst(t);
        Counted(y, line, Kept(FileLines(rest)));
        TallyOf(EndLine(y, line), rest);
      }
    }
  }

  lemma {:induction false} NothingLeft(y: Tally)
    requires y.carry == []
    ensures Finish(y) == y && LineLength([]) == 0
  {
  }

  /** The whole file after a line carried over: the lines of both together. */
  lemma {:induction false} TallyIsFileLines(c: Text, t: Text)
    requires LF !in c
    ensures var z := Finish(ByLines(Tally(c, [], 0), t));
            z.kept == Kept(FileLines(c + t)) && z.blanks == BlankCount(FileLines(c + t))
  {
    var y := Tally([], [], 0);
    assert LineLength(c) == |c|;
    assert [] + c == c;
    CarryOn(y, c, t);
    TallyOf(y, c + t);
  }

  lemma {:induction false} AfterFirstOf(t: Text)
    ensures var n := LineLength(t); AfterFirst(t) == if n == |t| then [] else t[n + 1..]
  {
  }

  // ---- what is left in the carry

  /** The text after the last line feed. */
  function Unfinished(t: Text): Text
    decreases |t|
  {
    var n := LineLength(t);
    if n == |t| then t else Unfinished(t[n + 1..])
  }

  lemma {:induction false} UnfinishedStep(t: Text, n: nat)
    requires n == LineLength(t)
    ensures Unfinished(t) == if n == |t| then t else Unfinished(t[n + 1..])
    ensures n == |t| <==> LF !in t
  {
    hide LineLength;
  }

  lemma {:induction false} CarryIsUnfinished(c: Text, t: Text, kept: seq<Text>, blanks: nat)
    requires LF !in c
    ensures var y := ByLines(Tally(c, kept, blanks), t);
            y.carry == Unfinished(c + t) && LF !in y.carry
    decreases |t|
  {
    hide *;
    var y := Tally(c, kept, blanks);
    var n := LineLength(t);
    UnfinishedStep(c, LineLength(c));
    LineLengthJoined(c, t);
    ByLinesStep(y, t, n);
    UnfinishedStep(c + t, LineLength(c + t));
    if n < |t| {
      CutInSecond(c, t, n);
      var z := EndLine(y, t[..n]);
      LineEnded(y, t[..n]);
      CarryIsUnfinished([], t[n + 1..], z.kept, z.blanks);
      assert [] + t[n + 1..] == t[n + 1..];
    }
  }

  lemma {:induction false} LineEnded(y: Tally, line: Text)
    ensures EndLine(y, line).carry == []
  {
  }

  /** What a file leaves behind: its last line, if that is blank and has no line feed. */
  lemma {:induction false} CarryLeft(c: Text, t: Text)
    requires LF !in c
    ensures var z := Finish(ByLines(Tally(c, [], 0), t));
            && LF !in z.carry && IsBlankLine(z.carry)
            && z.carry == if IsBlankLine(Unfinished(c + t)) then Unfinished(c + t) else []
  {
    hide ByLines;
    hide Unfinished;
    CarryIsUnfinished(c, t, [], 0);
  }

  /** A blank line carried into a file is harmless exactly when the file's first line is blank too. */
  lemma {:induction false} StaleCarry(c: Text, t: Text)
    requires LF !in c && IsBlankLine(c)
    ensures Kept(FileLines(c + t)) == Kept(FileLines(t)) && BlankCount(FileLines(c + t)) == BlankCount(FileLines(t))
            <==> c == [] || (t != [] && IsBlankLine(t[..LineLength(t)]))
  {
    if c == [] {
      assert c + t == t;
    } else {
      assert LineLength(c) == |c|;
      LineLengthJoined(c, t);
      FirstLine(c + t);
      SameRest(c, t);
      NoLines();
      if t != [] { FirstLine(t); }
      var line, l := (c + t)[..LineLength(c + t)], t[..LineLength(t)];
      var rest: seq<Text> := Kept(FileLines(AfterFirst(t)));
      assert line == c + l;
      BlankJoined(c, l);
      hide *;
      if !IsBlankLine(l) {
        OtherFirst(line, l, rest);
      }
    }
  }

  lemma {:induction false} OtherFirst(a: Text, b: Text, rest: seq<Text>)
    requires a != b
    ensures [a] + rest != [b] + rest
  {
    assert ([a] + rest)[0] == a && ([b] + rest)[0] == b;
  }

  lemma {:induction false} BlankJoined(a: Text, b: Text)
    ensures IsBlankLine(a + b) == (IsBlankLine(a) && IsBlankLine(b))
  {
    assert IsBlankLine(a + b) ==> IsBlankLine(a) && IsBlankLine(b) by {
      assert forall i :: 0 <= i < |a| ==> (a + b)[i] == a[i];
      assert forall i :: 0 <= i < |b| ==> (a + b)[|a| + i] == b[i];
    }
  }

  lemma {:induction false} SameRest(c: Text, t: Text)
    requires LineLength(c) == |c|
    ensures AfterFirst(c + t) == AfterFirst(t)
  {
    hide LineLength;
    LineLengthJoined(c, t);
  }

  // ---- carriage returns

  const CR: Byte := 13

  predicate EndsInCr(line: Text) { line != [] && line[|line| - 1] == CR }

  function TrimCr(line: Text): Text { if EndsInCr(line) then line[..|line| - 1] else line }

  function WithoutCr(lines: seq<Text>): seq<Text> {
    if lines == [] then [] else [TrimCr(lines[0])] + WithoutCr(lines[1..])
  }

  predicate HasCrLine(lines: seq<Text>) {
    lines != [] && ((!IsBlankLine(lines[0]) && EndsInCr(lines[0])) || HasCrLine(lines[1..]))
  }

  lemma {:induction false} TrimmedIsBlank(line: Text)
    ensures IsBlankLine(TrimCr(line)) == IsBlankLine(line)
  {
    if EndsInCr(line) {
      assert line == TrimCr(line) + [CR];
      BlankJoined(TrimCr(line), [CR]);
    }
  }

  lemma {:induction false} SameLines(a: Text, b: Text, x: seq<Text>, y: seq<Text>)
    ensures [a] + x == [b] + y <==> a == b && x == y
  {
    if [a] + x == [b] + y {
      assert ([a] + x)[0] == a && ([b] + y)[0] == b;
      assert ([a] + x)[1..] == x && ([b] + y)[1..] == y;
    }
  }

  lemma {:induction false} NoneKept()
    ensures WithoutCr([]) == [] && !HasCrLine([])
  {
  }

  lemma {:induction false} FirstTrimmed(lines: seq<Text>)
    requires lines != []
    ensures WithoutCr(lines) != [] && WithoutCr(lines)[0] == TrimCr(lines[0])
            && WithoutCr(lines)[1..] == WithoutCr(lines[1..])
    ensures TrimCr(lines[0]) == lines[0] <==> !EndsInCr(lines[0])
    ensures HasCrLine(lines) <==> (!IsBlankLine(lines[0]) && EndsInCr(lines[0])) || HasCrLine(lines[1..])
  {
    hide IsBlankLine;
  }

  lemma {:induction false} KeptStep(lines: seq<Text>)
    requires lines != []
    ensures Kept(lines) == if IsBlankLine(lines[0]) then Kept(lines[1..]) else [lines[0]] + Kept(lines[1..])
    ensures BlankCount(lines) == (if IsBlankLine(lines[0]) then 1 else 0) + BlankCount(lines[1..])
  {
    hide IsBlankLine;
    assert [] + Kept(lines[1..]) == Kept(lines[1..]);
  }

  lemma {:induction false} KeptWithoutCr(lines: seq<Text>)
    ensures Kept(lines) == Kept(WithoutCr(lines)) <==> !HasCrLine(lines)
    ensures BlankCount(lines) == BlankCount(WithoutCr(lines))
    decreases |lines|
  {
    hide *;
    NoneKept();
    if lines != [] {
      var line, rest := lines[0], lines[1..];
      KeptWithoutCr(rest);
      TrimmedIsBlank(line);
      FirstTrimmed(lines);
      KeptStep(lines);
      KeptStep(WithoutCr(lines));
      SameLines(line, TrimCr(line), Kept(rest), Kept(WithoutCr(rest)));
    }
  }

  /** A carriage return at a line's end is digested with the line: the lines digested are those without it
      exactly when no line but blank ones ends in one. It makes no difference to the number of blank lines. */
  lemma {:induction false} CrIsDigested(t: Text)
    ensures var z := Finish(ByLines(Tally([], [], 0), t));
            && (z.kept == Kept(WithoutCr(FileLines(t))) <==> !HasCrLine(FileLines(t)))
            && z.blanks == BlankCount(WithoutCr(FileLines(t)))
  {
    hide ByLines;
    hide FileLines;
    hide HasCrLine;
    hide WithoutCr;
    TallyIsFileLines([], t);
    assert [] + t == t;
    KeptWithoutCr(FileLines(t));
  }

  /** "a" and a carriage return, on one line: both bytes are digested. */
  lemma {:induction false} CrLine()
    ensures var t := [97, CR, LF];
            Finish(ByLines(Tally([], [], 0), t)).kept == [[97, CR]] && Kept(WithoutCr(FileLines(t))) == [[97]]
  {
    hide FileLines;
    hide ByLines;
    hide LineLength;
    hide Kept;
    hide IsBlankLine;
    hide BlankCount;
    var t, line, trimmed: Text := [97, CR, LF], [97, CR], [97];
    OneLine(line);
    assert t == line + [10];
    VisibleKept(line);
    VisibleKept(trimmed);
    assert line[..1] == trimmed;
    WithoutOneCr(line);
    TallyIsFileLines([], t);
    assert [] + t == t;
  }

  lemma {:induction false} OneLine(line: Text)
    requires 10 !in line
    ensures FileLines(line + [10]) == [line]
  {
    hide FileLines;
    LinesAreRead([line], []);
    assert Ended([line]) + [] == line + [10] by {
      assert [line][1..] == [];
      assert Ended([]) == [];
    }
    assert [line] + [] == [line];
  }

  lemma {:induction false} VisibleKept(line: Text)
    requires line != [] && line[0] == 97
    ensures Kept([line]) == [line]
  {
    assert !IsSpace(line[0]);
    assert [line][1..] == [];
  }

  lemma {:induction false} WithoutOneCr(line: Text)
    requires line == [97, CR]
    ensures WithoutCr([line]) == [line[..1]]
  {
    assert [line][1..] == [];
  }

  // ---- lines and blanks, by their bytes

  /** Space, tab, line feed, vertical tab, form feed, carriage return. */
  predicate OnlyBlanks(line: Text) { forall i :: 0 <= i < |line| ==> line[i] in [32, 9, 10, 11, 12, 13] }

  /** Wherever a line stands, it is kept in its place if it has any other byte, and otherwise counted. */
  lemma {:induction false} KeptInPlace(a: seq<Text>, line: Text, b: seq<Text>)
    ensures Kept([]) == [] && BlankCount([]) == 0
    ensures Kept(a + ([line] + b)) == Kept(a) + (if OnlyBlanks(line) then [] else [line]) + Kept(b)
    ensures BlankCount(a + ([line] + b)) == BlankCount(a) + (if OnlyBlanks(line) then 1 else 0) + BlankCount(b)
  {
    hide *;
    BlankIs(line);
    KeptNone();
    if a == [] {
      KeptFirst(line, b);
      assert a + ([line] + b) == [line] + b;
    } else {
      KeptFirst(a[0], a[1..] + ([line] + b));
      KeptFirst(a[0], a[1..]);
      assert a == [a[0]] + a[1..] && a + ([line] + b) == [a[0]] + (a[1..] + ([line] + b));
      KeptInPlace(a[1..], line, b);
    }
  }

  lemma {:induction false} KeptNone()
    ensures Kept([]) == [] && BlankCount([]) == 0
  {
  }

  lemma {:induction false} KeptFirst(line: Text, rest: seq<Text>)
    ensures Kept([line] + rest) == (if IsBlankLine(line) then [] else [line]) + Kept(rest)
    ensures BlankCount([line] + rest) == (if IsBlankLine(line) then 1 else 0) + BlankCount(rest)
  {
    hide IsBlankLine;
    assert ([line] + rest)[1..] == rest;
  }

  lemma {:induction false} BlankIs(line: Text)
    ensures IsBlankLine(line) <==> OnlyBlanks(line)
  {
  }

  /** Each line with a line feed after it. */
  function Ended(lines: seq<Text>): Text { if lines == [] then [] else lines[0] + ([10] + Ended(lines[1..])) }

  /** Lines that end in a line feed, and perhaps one more that does not, are read as they are. */
  lemma {:induction false} LinesAreRead(lines: seq<Text>, last: Text)
    requires (forall i :: 0 <= i < |lines| ==> 10 !in lines[i]) && 10 !in last
    ensures FileLines(Ended(lines) + last) == lines + if last == [] then [] else [last]
  {
    hide *;
    var t := Ended(lines) + last;
    if lines == [] {
      OnlyLast(last);
    } else {
      var rest := Ended(lines[1..]) + last;
      EndedFirst(lines);
      assert t == lines[0] + ([10] + rest);
      FirstIsRead(lines[0], rest);
      LinesAreRead(lines[1..], last);
      assert lines == [lines[0]] + lines[1..];
    }
  }

  lemma {:induction false} OnlyLast(last: Text)
    requires 10 !in last
    ensures FileLines(Ended([]) + last) == [] + if last == [] then [] else [last]
  {
    assert [] + last == last;
    assert last[..|last|] == last;
    NoLineFeed(last);
  }

  lemma {:induction false} EndedFirst(lines: seq<Text>)
    requires lines != []
    ensures Ended(lines) == lines[0] + ([10] + Ended(lines[1..]))
  {
  }

  lemma {:induction false} FirstIsRead(line: Text, rest: Text)
    requires 10 !in line
    ensures FileLines(line + ([10] + rest)) == [line] + FileLines(rest)
  {
    hide LineLength;
    var t, n := line + ([10] + rest), |line|;
    LengthOfLine(line, rest);
    assert t[..n] == line && t[n + 1..] == rest;
  }

  lemma {:induction false} NoLineFeed(t: Text)
    requires 10 !in t
    ensures LineLength(t) == |t|
  {
    if t != [] {
      assert t[0] in t && forall x :: x in t[1..] ==> x in t;
      NoLineFeed(t[1..]);
    }
  }

  lemma {:induction false} LengthOfLine(line: Text, rest: Text)
    requires 10 !in line
    ensures LineLength(line + ([10] + rest)) == |line|
  {
    hide LineLength;
    var t := line + ([10] + rest);
    assert forall i :: 0 <= i < |line| ==> t[i] == line[i];
    assert t[|line|] == 10;
  }
}
