/** Headers that are not written as the encoder writes them: names in any case, and pieces of a
    Content-Disposition with spaces around them and values with or without quotes. */
module FormHeaders {
  import opened Bytes
  import opened HeaderText
  import opened MultipartMachine
  import opened MultipartDelimiter
  import opened MultipartGrammar
  import opened FormData
  import opened MultipartForm
  import opened FormContents
  import opened FormRoundTrip

  // ---- the case of names

  const LOWER := "abcdefghijklmnopqrstuvwxyz"
  const UPPER := "ABCDEFGHIJKLMNOPQRSTUVWXYZ"

  /** The same character, or one letter in its two cases. */
  predicate SameLetter(a: char, b: char) {
    a == b || (exists i :: 0 <= i < 26 && Pair(a, b, i)) || exists i :: 0 <= i < 26 && Pair(b, a, i)
  }

  predicate Recased(s: string, t: string) { |s| == |t| && forall i :: 0 <= i < |s| ==> SameLetter(s[i], t[i]) }

  lemma {:induction false} Alphabet(i: nat)
    requires i < 26
    ensures LOWER[i] as int == 'a' as int + i && UPPER[i] as int == 'A' as int + i
  {
  }

  /** The letter `a` in lower case is the `i`-th, and `b` is it in upper case. */
  predicate Pair(a: char, b: char, i: nat)
    requires i < 26
  {
    a == LOWER[i] && b == UPPER[i]
  }

  lemma {:induction false} PairIs(a: char, b: char, i: nat)
    requires i < 26
    ensures Pair(a, b, i) <==> a as int == 'a' as int + i && b as int == 'A' as int + i
  {
    Alphabet(i);
  }

  lemma {:induction false} PairIsLowered(a: char, b: char)
    ensures (exists i :: 0 <= i < 26 && Pair(a, b, i)) <==> 'A' <= b <= 'Z' && a == Lower(b)
  {
    hide Pair;
    if 'A' <= b <= 'Z' { PairIs(a, b, b as int - 'A' as int); }
    if i :| 0 <= i < 26 && Pair(a, b, i) { PairIs(a, b, i); }
  }

  lemma {:induction false} LowerIsLetter(a: char, b: char)
    ensures Lower(a) == Lower(b) <==> SameLetter(a, b)
  {
    hide Pair;
    PairIsLowered(a, b);
    PairIsLowered(b, a);
  }

  /** Names are compared by their letters, whatever the case. */
  lemma {:induction false} NamesComparedByLetters(s: string, t: string)
    ensures EqualIgnoringCase(s, t) <==> Recased(s, t)
  {
    hide Lower;
    hide SameLetter;
    if |s| == |t| {
      forall i | 0 <= i < |s| ensures Lower(s[i]) == Lower(t[i]) <==> SameLetter(s[i], t[i]) {
        LowerIsLetter(s[i], t[i]);
      }
    }
  }

  lemma {:induction false} RecasedJoins(r: string, s: string, t: string)
    requires Recased(r, s) && Recased(s, t)
    ensures Recased(s, r) && Recased(r, t)
  {
    hide EqualIgnoringCase;
    NamesComparedByLetters(r, s);
    NamesComparedByLetters(s, t);
    NamesComparedByLetters(s, r);
    NamesComparedByLetters(r, t);
    CaseJoins(r, s, t);
  }

  lemma {:induction false} CaseJoins(r: string, s: string, t: string)
    requires EqualIgnoringCase(r, s) && EqualIgnoringCase(s, t)
    ensures EqualIgnoringCase(s, r) && EqualIgnoringCase(r, t)
  {
    hide Lower;
  }

  lemma {:induction false} RecasedAppends(a: string, b: string, s: string, t: string)
    requires Recased(a, b) && Recased(s, t)
    ensures Recased(a + s, b + t)
  {
    hide SameLetter;
    forall i | 0 <= i < |a + s| ensures SameLetter((a + s)[i], (b + t)[i]) {
      if i >= |a| { assert SameLetter(s[i - |a|], t[i - |a|]); }
    }
  }

  lemma {:induction false} RecasedItself(s: string)
    ensures Recased(s, s)
  {
  }

  // ---- the case of names in what the parser reports

  predicate RecasedEvent(e: Event, f: Event) {
    e == f || (e.OnHeaderField? && f.OnHeaderField? && Recased(e.name, f.name))
  }

  predicate RecasedTrace(s: seq<Event>, t: seq<Event>) {
    |s| == |t| && forall i :: 0 <= i < |s| ==> RecasedEvent(s[i], t[i])
  }

  predicate RecasedData(c: Collected, d: Collected) {
    Recased(c.headerField, d.headerField) && d == c.(headerField := d.headerField)
  }

  lemma {:induction false} FieldIsNotDisposed(c: Collected, f: string, pieces: seq<string>)
    ensures AllDisposed(c.(headerField := f), pieces) == AllDisposed(c, pieces).(headerField := f)
  {
    hide Trim;
    hide Split;
    hide TrimPairs;
    if pieces != [] { FieldIsNotDisposed(c, f, pieces[..|pieces| - 1]); }
  }

  lemma {:induction false} HeaderRecased(c: Collected, d: Collected)
    requires RecasedData(c, d)
    ensures RecasedData(HeaderHandled(c), HeaderHandled(d))
  {
    hide Lower;
    hide SameLetter;
    hide AllDisposed;
    hide Split;
    var pieces := Split(c.headerValue, ';');
    NamesComparedByLetters(c.headerField, d.headerField);
    if EqualIgnoringCase(c.headerField, DISPOSITION) {
      CaseJoins(d.headerField, d.headerField, c.headerField);
      CaseJoins(d.headerField, c.headerField, DISPOSITION);
    } else if EqualIgnoringCase(d.headerField, DISPOSITION) {
      CaseJoins(c.headerField, d.headerField, DISPOSITION);
    }
    FieldIsNotDisposed(c, d.headerField, pieces);
    DisposedKeepsHeader(c, pieces);
  }

  lemma {:induction false} EventRecased(c: Collected, d: Collected, e: Event, f: Event)
    requires RecasedData(c, d) && RecasedEvent(e, f)
    ensures RecasedData(Handled(c, e), Handled(d, f))
  {
    hide HeaderHandled;
    hide Recased;
    HeaderRecased(c, d);
    if e.OnHeaderField? {
      RecasedItself(e.name);
      var c', d' := HeaderHandled(c), HeaderHandled(d);
      RecasedAppends(c'.headerField, d'.headerField, e.name, f.name);
    }
  }

  lemma {:induction false} TraceRecased(c: Collected, d: Collected, s: seq<Event>, t: seq<Event>)
    requires RecasedData(c, d) && RecasedTrace(s, t)
    ensures RecasedData(AllHandled(c, s), AllHandled(d, t))
  {
    hide Handled;
    hide RecasedData;
    hide RecasedEvent;
    if s != [] {
      var n := |s| - 1;
      TraceRecased(c, d, s[..n], t[..n]);
      assert RecasedEvent(s[n], t[n]);
      EventRecased(AllHandled(c, s[..n]), AllHandled(d, t[..n]), s[n], t[n]);
    }
  }

  /** What is collected does not depend on the case of the names reported. */
  lemma {:induction false} CaseIsIgnored(s: seq<Event>, t: seq<Event>)
    requires RecasedTrace(s, t)
    ensures FormCollected(AllHandled(NOTHING, s)) == FormCollected(AllHandled(NOTHING, t))
  {
    hide AllHandled;
    TraceRecased(NOTHING, NOTHING, s, t);
  }

  // ---- the case of names in the text

  /** Where the next byte is one of a header's name. */
  predicate InName(b: string, s: string, i: nat)
    requires |b| > 0 && i <= |s|
  {
    var f := Feed(b, INITIAL, s[..i]);
    !f.rejected && f.m.state in {HeaderFieldStart, HeaderField}
  }

  /** The two texts are the same, save for the case of letters in the names of headers. */
  predicate NamesRecased(b: string, s: string, t: string)
    requires |b| > 0
  {
    |s| == |t| && forall i :: 0 <= i < |s| ==> s[i] == t[i] || (InName(b, s, i) && SameLetter(s[i], t[i]))
  }

  predicate RecasedMachine(m: Machine, n: Machine) {
    && Recased(m.pending, n.pending) && RecasedTrace(m.heard, n.heard)
    && n == m.(pending := n.pending, heard := n.heard)
  }

  lemma {:induction false} HearRecased(h: seq<Event>, k: seq<Event>, e: Event, f: Event)
    requires RecasedTrace(h, k) && RecasedEvent(e, f)
    ensures RecasedTrace(Hear(h, e), Hear(k, f))
  {
    hide Recased;
    if h != [] {
      var n := |h| - 1;
      assert RecasedEvent(h[n], k[n]);
      if h[n].OnHeaderField? && e.OnHeaderField? {
        RecasedItself(h[n].name);
        RecasedItself(e.name);
        RecasedAppends(h[n].name, k[n].name, e.name, f.name);
      }
    }
  }

  lemma {:induction false} NameByteRecased(m: Machine, n: Machine, c: char, d: char)
    requires RecasedMachine(m, n) && SameLetter(c, d)
    ensures var o, p := NameByte(m, c), NameByte(n, d); o.Reject? == p.Reject? && RecasedMachine(o.m, p.m)
  {
    hide Hear;
    hide Recased;
    hide RecasedTrace;
    LowerIsLetter(c, d);
    HearRecased(m.heard, n.heard, OnHeaderField(m.pending), OnHeaderField(n.pending));
    hide SameLetter;
    RecasedItself("");
    OneRecased(c, d);
    RecasedAppends(m.pending, n.pending, [c], [d]);
  }

  lemma {:induction false} OneRecased(c: char, d: char)
    requires SameLetter(c, d)
    ensures Recased([c], [d])
  {
    hide SameLetter;
  }

  lemma {:induction false} SameHeard(h: seq<Event>, k: seq<Event>, e: Event)
    requires RecasedTrace(h, k)
    ensures RecasedTrace(Hear(h, e), Hear(k, e))
  {
    hide Hear;
    hide Recased;
    HearRecased(h, k, e, e);
  }

  /** Elsewhere both machines do the same with the same byte. */
  lemma {:induction false} BodyRecased(m: Machine, n: Machine, c: char)
    requires RecasedMachine(m, n)
    ensures RecasedMachine(BodyByte(m, c), BodyByte(n, c)) && RecasedMachine(ValueByte(m, c), ValueByte(n, c))
  {
    hide Hear;
    hide Recased;
    hide RecasedTrace;
    SameHeard(m.heard, n.heard, OnPartData(""));
    SameHeard(m.heard, n.heard, OnPartData([c]));
    SameHeard(m.heard, n.heard, OnHeaderValue(""));
    SameHeard(m.heard, n.heard, OnHeaderValue([c]));
  }

  lemma {:induction false} HeardRecased(m: Machine, n: Machine, e: Event)
    requires RecasedMachine(m, n)
    ensures RecasedMachine(m.(heard := Hear(m.heard, e)), n.(heard := Hear(n.heard, e)))
  {
    hide Hear;
    hide Recased;
    hide RecasedTrace;
    SameHeard(m.heard, n.heard, e);
  }

  lemma {:induction false} StepRecased(b: string, m: Machine, n: Machine, c: char)
    requires Consistent(b, m) && Consistent(b, n) && RecasedMachine(m, n)
    ensures var o, p := Step(b, m, c), Step(b, n, c); o.Reject? == p.Reject? && RecasedMachine(o.m, p.m)
  {
    hide Hear;
    hide Recased;
    hide RecasedTrace;
    hide BodyByte;
    hide ValueByte;
    hide NameByte;
    NameByteRecased(m, n, c, c);
    BodyRecased(m, n, c);
    HeardRecased(m, n, OnPartDataBegin);
    HeardRecased(m, n, OnPartDataEnd);
    HeardRecased(m, n, OnBodyEnd);
    HeardRecased(m, n, OnHeadersComplete);
    BodyRecased(m.(heard := Hear(m.heard, OnHeadersComplete)), n.(heard := Hear(n.heard, OnHeadersComplete)), c);
    HeardRecased(m, n, OnPartData([CR]));
    BodyRecased(m.(heard := Hear(m.heard, OnPartData([CR]))), n.(heard := Hear(n.heard, OnPartData([CR]))), c);
    if m.state == PartDataBoundary {
      var held := CRLF + b[..m.index];
      HeardRecased(m, n, OnPartData(held));
      BodyRecased(m.(heard := Hear(m.heard, OnPartData(held))), n.(heard := Hear(n.heard, OnPartData(held))), c);
    }
  }

  lemma {:induction false} FeedRecased(b: string, s: string, t: string, k: nat)
    requires |b| > 0 && NamesRecased(b, s, t) && k <= |s|
    ensures var f, g := Feed(b, INITIAL, s[..k]), Feed(b, INITIAL, t[..k]);
            f.taken == g.taken && f.rejected == g.rejected && RecasedMachine(f.m, g.m)
    decreases k
  {
    hide Step;
    hide Recased;
    hide SameLetter;
    if k == 0 {
      RecasedItself("");
    } else {
      var f, g := Feed(b, INITIAL, s[..k - 1]), Feed(b, INITIAL, t[..k - 1]);
      FeedRecased(b, s, t, k - 1);
      assert s[..k][..k - 1] == s[..k - 1] && t[..k][..k - 1] == t[..k - 1];
      if !f.rejected {
        if s[k - 1] == t[k - 1] {
          StepRecased(b, f.m, g.m, s[k - 1]);
        } else {
          assert InName(b, s, k - 1);
          NameStep(b, f.m, s[k - 1]);
          NameStep(b, g.m, t[k - 1]);
          NameByteRecased(f.m, g.m, s[k - 1], t[k - 1]);
        }
      }
    }
  }

  lemma {:induction false} NameStep(b: string, m: Machine, c: char)
    requires Consistent(b, m) && m.state in {HeaderFieldStart, HeaderField}
    ensures Step(b, m, c) == NameByte(m, c)
  {
    hide NameByte;
  }

  /** For every boundary, changing the case of letters in the names of headers changes neither how much of a body
      is taken nor the form collected from it. */
  lemma {:induction false} CaseOfNamesIsFree(b: string, s: string, t: string)
    requires |b| > 0 && NamesRecased(b, s, t)
    ensures var f, g := Chunk(b, INITIAL, s), Chunk(b, INITIAL, t);
            && f.taken == g.taken && f.rejected == g.rejected
            && FormCollected(AllHandled(NOTHING, f.m.heard)) == FormCollected(AllHandled(NOTHING, g.m.heard))
  {
    hide *;
    FeedRecased(b, s, t, |s|);
    SameLength(b, s, t);
    assert s[..|s|] == s && t[..|t|] == t;
    ChunkRecased(b, s, t);
    CaseIsIgnored(Chunk(b, INITIAL, s).m.heard, Chunk(b, INITIAL, t).m.heard);
  }

  lemma {:induction false} SameLength(b: string, s: string, t: string)
    requires |b| > 0 && NamesRecased(b, s, t)
    ensures |s| == |t| && Consistent(b, INITIAL)
  {
  }

  lemma {:induction false} ChunkRecased(b: string, s: string, t: string)
    requires |b| > 0
    requires var f, g := Feed(b, INITIAL, s), Feed(b, INITIAL, t);
             f.taken == g.taken && f.rejected == g.rejected && RecasedMachine(f.m, g.m)
    ensures var f, g := Chunk(b, INITIAL, s), Chunk(b, INITIAL, t);
            f.taken == g.taken && f.rejected == g.rejected && RecasedTrace(f.m.heard, g.m.heard)
  {
    hide Feed;
    hide Hear;
    hide SameLetter;
    hide RecasedTrace;
    var f, g := Feed(b, INITIAL, s), Feed(b, INITIAL, t);
    HearRecased(f.m.heard, g.m.heard, OnHeaderField(f.m.pending), OnHeaderField(g.m.pending));
  }

  // ---- the pieces of a Content-Disposition

  /** Around a value: nothing, or one of the two quotes on both sides. */
  datatype Quote = Bare | Single | Double

  function Mark(q: Quote): string {
    match q
    case Bare => ""
    case Single => "'"
    case Double => "\""
  }

  /** A piece that is no `key=value`; a key and a value; a key and one lone quote. */
  datatype Piece =
    | Word(text: string)
    | Field(before: string, key: string, quote: Quote, value: string, after: string)
    | Lone(before: string, key: string, mark: char, after: string)

  function Spelled(p: Piece): string {
    match p
    case Word(text) => text
    case Field(before, key, q, value, after) => before + (key + (['='] + (Mark(q) + value + Mark(q)))) + after
    case Lone(before, key, mark, after) => before + (key + (['='] + [mark])) + after
  }

  /** Space, tab, line feed, carriage return, vertical tab, form feed. */
  const BLANKS: string := [' ', '\t', '\n', '\r', 11 as char, 12 as char]

  predicate Spaces(s: string) { forall i :: 0 <= i < |s| ==> s[i] in BLANKS }

  /** A value written without quotes neither ends in a space nor looks quoted. */
  predicate Unquoted(v: string) {
    v == "" || (v[|v| - 1] !in BLANKS && !(v[0] == v[|v| - 1] && v[0] in "\"'"))
  }

  predicate IsKey(s: string) {
    '=' !in s && ';' !in s && (s == "" || s[0] !in BLANKS)
  }

  predicate Formed(p: Piece) {
    match p
    case Word(text) =>
      ';' !in text && ('=' !in text || exists i, j :: 0 <= i < j < |text| && text[i] == '=' && text[j] == '=')
    case Field(before, key, q, value, after) =>
      Spaces(before) && Spaces(after) && IsKey(key) && '=' !in value && ';' !in value && (q.Bare? ==> Unquoted(value))
    case Lone(before, key, mark, after) => Spaces(before) && Spaces(after) && IsKey(key) && mark in "\"'"
  }

  /** What a piece sets: the name, the file name, or nothing. A lone quote for either throws. */
  function Set(c: Collected, p: Piece): Collected {
    if c.aborted || p.Word? then c
    else if |p.key| >= 4 && p.key[..4] == "name" then
      if p.Lone? then c.(aborted := true) else c.(name := p.value)
    else if |p.key| >= 8 && p.key[..8] == "filename" then
      if p.Lone? then c.(aborted := true) else c.(filename := p.value)
    else c
  }

  function AllSet(c: Collected, ps: seq<Piece>): Collected
    decreases |ps|
  {
    if ps == [] then c else AllSet(Set(c, ps[0]), ps[1..])
  }

  predicate AllFormed(ps: seq<Piece>) { forall i :: 0 <= i < |ps| ==> Formed(ps[i]) }

  function AllSpelled(ps: seq<Piece>): (r: seq<string>)
    ensures |r| == |ps| && forall i :: 0 <= i < |r| ==> r[i] == Spelled(ps[i])
  {
    seq(|ps|, i requires 0 <= i < |ps| => Spelled(ps[i]))
  }

  // trimming

  lemma {:induction false} SpacesAreSpaces(c: char)
    ensures c in BLANKS <==> IsSpace(c)
  {
  }

  lemma {:induction false} RTrimmed(t: string, after: string)
    requires Spaces(after) && (t == "" || t[|t| - 1] !in BLANKS)
    ensures RTrim(t + after) == t
    decreases |after|
  {
    hide IsSpace;
    if after == "" {
      assert t + after == t;
      if t != "" { SpacesAreSpaces(t[|t| - 1]); }
    } else {
      var init := after[..|after| - 1];
      SpacesAreSpaces(after[|after| - 1]);
      assert (t + after)[..|t + after| - 1] == t + init;
      RTrimmed(t, init);
    }
  }

  lemma {:induction false} LTrimmed(before: string, t: string)
    requires Spaces(before) && (t == "" || t[0] !in BLANKS)
    ensures LTrim(before + t) == t
    decreases |before|
  {
    hide IsSpace;
    if before == "" {
      assert before + t == t;
      if t != "" { SpacesAreSpaces(t[0]); }
    } else {
      SpacesAreSpaces(before[0]);
      assert (before + t)[1..] == before[1..] + t;
      LTrimmed(before[1..], t);
    }
  }

  lemma {:induction false} Trimmed(before: string, t: string, after: string)
    requires Spaces(before) && Spaces(after) && t != ""
    requires t[0] !in BLANKS && t[|t| - 1] !in BLANKS
    ensures Trim(before + t + after) == t
  {
    hide *;
    assert (before + t)[|before + t| - 1] == t[|t| - 1];
    RTrimmed(before + t, after);
    LTrimmed(before, t);
    TrimIs(before + t + after);
  }

  lemma {:induction false} TrimIs(s: string)
    ensures Trim(s) == LTrim(RTrim(s))
  {
    hide LTrim;
    hide RTrim;
  }

  // words

  function Count(s: string, c: char): nat {
    if s == "" then 0 else (if s[0] == c then 1 else 0) + Count(s[1..], c)
  }

  lemma {:induction false} PiecesCount(s: string, sep: char)
    ensures |Pieces(s, sep)| == Count(s, sep) + 1
  {
    if s != "" { PiecesCount(s[1..], sep); }
  }

  lemma {:induction false} CountParts(a: string, b: string, c: char)
    ensures Count(a + b, c) == Count(a, c) + Count(b, c)
  {
    if a == "" {
      assert a + b == b;
    } else {
      assert (a + b)[1..] == a[1..] + b;
      CountParts(a[1..], b, c);
    }
  }

  lemma {:induction false} CountNone(s: string, c: char)
    ensures Count(s, c) == 0 <==> c !in s
  {
    if s != "" {
      CountNone(s[1..], c);
      assert s == [s[0]] + s[1..];
    }
  }

  lemma {:induction false} TrimKeepsCount(s: string)
    ensures Count(Trim(s), '=') == Count(s, '=')
  {
    hide *;
    TrimIs(s);
    RTrimKeepsCount(s);
    LTrimKeepsCount(RTrim(s));
  }

  lemma {:induction false} LTrimKeepsCount(s: string)
    ensures Count(LTrim(s), '=') == Count(s, '=')
  {
    if s != "" && IsSpace(s[0]) { LTrimKeepsCount(s[1..]); }
  }

  lemma {:induction false} RTrimKeepsCount(s: string)
    ensures Count(RTrim(s), '=') == Count(s, '=')
    decreases |s|
  {
    if s != "" && IsSpace(s[|s| - 1]) {
      var init, last := s[..|s| - 1], [s[|s| - 1]];
      RTrimKeepsCount(init);
      assert s == init + last;
      CountParts(init, last, '=');
      assert last[1..] == "";
    }
  }

  lemma {:induction false} WordCount(text: string)
    requires '=' !in text || exists i, j :: 0 <= i < j < |text| && text[i] == '=' && text[j] == '='
    ensures Count(text, '=') != 1
  {
    CountNone(text, '=');
    if i, j :| 0 <= i < j < |text| && text[i] == '=' && text[j] == '=' {
      hide Count;
      var a, b := text[..j], text[j..];
      assert text == a + b && a[i] == '=' && b[0] == '=';
      CountParts(a, b, '=');
      CountNone(a, '=');
      CountNone(b, '=');
    }
  }

  lemma {:induction false} WordDisposed(c: Collected, p: Piece)
    requires p.Word? && Formed(p)
    ensures Disposed(c, Spelled(p)) == c
  {
    hide Count;
    hide Pieces;
    hide Trim;
    WordCount(p.text);
    TrimKeepsCount(p.text);
    PiecesCount(Trim(p.text), '=');
  }

  // keys and values

  lemma {:induction false} KeyValueSplit(before: string, key: string, v: string, after: string)
    requires Spaces(before) && Spaces(after) && IsKey(key) && '=' !in v
    requires v == "" || v[|v| - 1] !in BLANKS
    ensures Split(Trim(before + (key + (['='] + v)) + after), '=') == [key, v]
  {
    hide Trim;
    hide Pieces;
    var t := key + (['='] + v);
    assert t[|t| - 1] == if v == "" then '=' else v[|v| - 1];
    assert t[0] == if key == "" then '=' else key[0];
    Trimmed(before, t, after);
    FirstPiece(key, '=', v);
    OnePiece(v, '=');
    assert [key] + [v] == [key, v];
  }

  lemma {:induction false} QuotesTrimmed(q: Quote, v: string)
    requires q.Bare? ==> Unquoted(v)
    ensures TrimPairs(Mark(q) + v + Mark(q)) == Some(v)
  {
    var s := Mark(q) + v + Mark(q);
    if q.Bare? {
      assert s == v;
    } else {
      assert s[1..|s| - 1] == v;
    }
  }

  lemma {:induction false} DisposedIs(c: Collected, piece: string, key: string, v: string)
    requires Split(Trim(piece), '=') == [key, v]
    ensures Disposed(c, piece)
            == (if c.aborted then c
                else if |key| >= 4 && key[..4] == "name" then
                  (match TrimPairs(v) { case None => c.(aborted := true) case Some(x) => c.(name := x) })
                else if |key| >= 8 && key[..8] == "filename" then
                  (match TrimPairs(v) { case None => c.(aborted := true) case Some(x) => c.(filename := x) })
                else c)
  {
    hide Trim;
    hide Split;
    hide TrimPairs;
  }

  lemma {:induction false} FieldDisposed(c: Collected, p: Piece)
    requires p.Field? && Formed(p)
    ensures Disposed(c, Spelled(p)) == Set(c, p)
  {
    hide Disposed;
    hide TrimPairs;
    hide Trim;
    hide Split;
    var v := Mark(p.quote) + p.value + Mark(p.quote);
    KeyValueSplit(p.before, p.key, v, p.after);
    QuotesTrimmed(p.quote, p.value);
    DisposedIs(c, Spelled(p), p.key, v);
  }

  lemma {:induction false} LoneDisposed(c: Collected, p: Piece)
    requires p.Lone? && Formed(p)
    ensures Disposed(c, Spelled(p)) == Set(c, p)
  {
    hide Disposed;
    hide Trim;
    hide Split;
    KeyValueSplit(p.before, p.key, [p.mark], p.after);
    assert TrimPairs([p.mark]) == None;
    DisposedIs(c, Spelled(p), p.key, [p.mark]);
  }

  lemma {:induction false} PieceSets(c: Collected, p: Piece)
    requires Formed(p)
    ensures Disposed(c, Spelled(p)) == Set(c, p) && ';' !in Spelled(p)
  {
    hide Disposed;
    hide Spelled;
    NoSemicolons(p);
    match p
    case Word(_) => WordDisposed(c, p);
    case Field(_, _, _, _, _) => FieldDisposed(c, p);
    case Lone(_, _, _, _) => LoneDisposed(c, p);
  }

  lemma {:induction false} NoSemicolons(p: Piece)
    requires Formed(p)
    ensures ';' !in Spelled(p)
  {
    hide Unquoted;
    if !p.Word? { SpacesHaveNone(p.before); SpacesHaveNone(p.after); }
  }

  lemma {:induction false} SpacesHaveNone(s: string)
    requires Spaces(s)
    ensures ';' !in s
  {
  }

  lemma {:induction false} PiecesSet(c: Collected, ps: seq<Piece>)
    requires AllFormed(ps)
    ensures AllDisposed(c, AllSpelled(ps)) == AllSet(c, ps)
  {
    hide Formed;
    hide Disposed;
    hide Set;
    if ps != [] {
      var n := |ps| - 1;
      PiecesSet(c, ps[..n]);
      assert AllSpelled(ps)[..n] == AllSpelled(ps[..n]);
      PieceSets(AllSet(c, ps[..n]), ps[n]);
      LastSet(c, ps);
    }
  }

  lemma {:induction false} LastSet(c: Collected, ps: seq<Piece>)
    requires ps != []
    ensures AllSet(c, ps) == Set(AllSet(c, ps[..|ps| - 1]), ps[|ps| - 1])
    decreases |ps|
  {
    hide Set;
    var n := |ps| - 1;
    if n > 0 {
      LastSet(Set(c, ps[0]), ps[1..]);
      assert ps[1..][..n - 1] == ps[..n][1..];
    }
  }

  /** A Content-Disposition written by hand: spaces around a key and its value are dropped, and so is a pair of quotes
      around the value. */
  lemma {:induction false} DispositionIsPieces(c: Collected, ps: seq<Piece>)
    requires ps != [] && AllFormed(ps)
    ensures AllDisposed(c, Split(JoinedBy(AllSpelled(ps), ';'), ';')) == AllSet(c, ps)
  {
    hide Formed;
    hide Disposed;
    hide AllDisposed;
    hide Set;
    hide Spelled;
    var texts := AllSpelled(ps);
    forall i | 0 <= i < |texts| ensures ';' !in texts[i] { PieceSets(c, ps[i]); }
    SplitJoined(texts, ';');
    PiecesSet(c, ps);
    if JoinedBy(texts, ';') == "" { EmptyJoined(c, texts); }
  }

  lemma {:induction false} EmptyJoined(c: Collected, texts: seq<string>)
    requires texts != [] && JoinedBy(texts, ';') == ""
    ensures AllDisposed(c, texts) == c && Split("", ';') == [] && AllDisposed(c, []) == c
  {
    assert texts == [""];
    assert [""][..0] == [];
    assert Trim("") == "" && Split("", '=') == [];
  }

  /** Whatever the case of its name, a Content-Disposition sets what its pieces say and is forgotten; a header of any
      other name is only forgotten. */
  lemma {:induction false} HeaderByHand(c: Collected, ps: seq<Piece>)
    requires ps != [] && AllFormed(ps) && !c.aborted
    requires c.headerField != "" && c.headerValue == JoinedBy(AllSpelled(ps), ';') != ""
    ensures HeaderHandled(c) ==
            if !Recased(c.headerField, "Content-Disposition") then c.(headerField := "", headerValue := "")
            else if AllSet(c, ps).aborted then AllSet(c, ps)
            else AllSet(c, ps).(headerField := "", headerValue := "")
  {
    hide Disposed;
    hide AllDisposed;
    hide AllSet;
    hide Recased;
    hide EqualIgnoringCase;
    NamesComparedByLetters(c.headerField, DISPOSITION);
    DispositionIsPieces(c, ps);
  }

  // ---- a part written by hand

  /** A header line of any case, `blanks` spaces in front of its value, and a body up to its delimiter. */
  function PartByHand(b: string, header: string, blanks: string, value: string, body: string, tail: string): string {
    (b + CRLF) + (header + ([':'] + (blanks + (value + (CRLF + (CRLF + (body + Delimiter(b) + ("--" + tail))))))))
  }

  lemma {:induction false} OpeningIs(b: string, s: string)
    ensures Opening(b, b + CRLF + s) == Then(|b| + 2, [OnPartDataBegin], HeaderLines(b, s))
  {
    hide HeaderLines;
    hide Then;
    assert (b + CRLF + s)[|b| + 2..] == s;
  }

  lemma {:induction false} LineIs(b: string, name: string, s: string)
    requires forall i :: 0 <= i < |name| ==> name[i] == '-' || 'a' <= name[i] <= 'z' || 'A' <= name[i] <= 'Z'
    ensures HeaderLines(b, name + ([':'] + s)) == Then(|name| + 1, [OnHeaderField(name)], Value(b, s))
  {
    hide *;
    var t := name + ([':'] + s);
    HeaderLinesIs(b, t);
    assert t[|name|] == ':' && forall i :: 0 <= i < |name| ==> t[i] == name[i];
    assert NameLength(t) == |name|;
    assert t[..|name|] == name && t[|name| + 1..] == s;
  }

  lemma {:induction false} LastLineIs(b: string, s: string)
    requires s != ""
    ensures HeaderLines(b, CRLF + s) == Then(2, [], BodyText(b, s))
  {
    hide HeaderLines;
    hide AfterNames;
    hide BodyText;
    hide Value;
    hide Then;
    var t := CRLF + s;
    HeaderLinesIs(b, t);
    assert t[0] == CR && t[1] == LF && t[2..] == s;
    AfterNamesIs(b, t);
  }

  lemma {:induction false} AfterNamesIs(b: string, t: string)
    requires |t| > 2 && t[1] == LF
    ensures AfterNames(b, t, 0) == Then(2, [], BodyText(b, t[2..]))
  {
    hide BodyText;
    hide Then;
  }

  lemma {:induction false} ValueIs(b: string, blanks: string, v: string, s: string)
    requires (forall i :: 0 <= i < |blanks| ==> blanks[i] == ' ') && CR !in v && (v == "" || v[0] != ' ')
    ensures Value(b, blanks + (v + (CRLF + s))) == Then(|blanks| + |v| + 2, [OnHeaderValue(v)], HeaderLines(b, s))
  {
    hide *;
    var t, k := blanks + (v + (CRLF + s)), |blanks|;
    LineBytes(v, s);
    assert t[k..] == v + (CRLF + s);
    assert t[k] == t[k..][0];
    BlanksAre(blanks, t);
    FirstCr(t[k..], |v|);
    ValueAt(b, t, k, |v|);
    assert t[k..k + |v|] == t[k..][..|v|] && t[k + |v| + 2..] == t[k..][|v| + 2..];
  }

  lemma {:induction false} LineBytes(v: string, s: string)
    requires CR !in v && (v == "" || v[0] != ' ')
    ensures var t := v + (CRLF + s);
            && |t| >= |v| + 2 && t[0] != ' ' && t[..|v|] == v && CR !in t[..|v|] && t[|v|] == CR && t[|v| + 1] == LF
            && t[|v| + 2..] == s
  {
  }

  lemma {:induction false} BlanksAre(blanks: string, t: string)
    requires blanks <= t && |blanks| < |t| && t[|blanks|] != ' ' && forall i :: 0 <= i < |blanks| ==> blanks[i] == ' '
    ensures Blanks(t) == |blanks|
  {
    assert forall i :: 0 <= i < |blanks| ==> t[i] == blanks[i];
  }

  lemma {:induction false} ValueAt(b: string, t: string, k: nat, n: nat)
    requires k < |t| && Blanks(t) == k && ToCr(t[k..]) == n && k + n + 1 < |t| && t[k..][n + 1] == LF
    ensures Value(b, t) == Then(k + n + 2, [OnHeaderValue(t[k..k + n])], HeaderLines(b, t[k + n + 2..]))
  {
    hide HeaderLines;
    hide Then;
    hide Blanks;
    hide ToCr;
    assert t[k..][n + 1] == t[k + n + 1];
  }

  lemma {:induction false} FirstCr(t: string, n: nat)
    requires n < |t| && t[n] == CR && CR !in t[..n]
    ensures ToCr(t) == n
  {
    hide ToCr;
    var k := ToCr(t);
    assert forall i :: 0 <= i < n ==> t[..n][i] == t[i];
    assert forall i :: 0 <= i < k ==> t[..k][i] == t[i];
  }

  lemma {:induction false} BodyIs(b: string, body: string, s: string)
    requires EndsWithFirst(Delimiter(b), body + Delimiter(b))
    ensures BodyText(b, body + Delimiter(b) + s)
            == Then(|body| + |Delimiter(b)|, [OnHeadersComplete, OnPartData(body), OnPartDataEnd], AfterDelimiter(b, s))
  {
    hide AfterDelimiter;
    hide Then;
    hide CompatibleAt;
    hide FirstDelimiter;
    hide FirstStart;
    hide Delimiter;
    var d, t := Delimiter(b), body + Delimiter(b) + s;
    assert |d| >= 2 by { DelimiterLength(b); }
    forall i | 0 <= i <= |body| ensures OccursAt(d, t, i) <==> OccursAt(d, body + d, i) {
        OccursHere(d, body + d, s, i); }
    assert FirstDelimiter(d, t, 0) == |body|;
    assert t[..|body|] == body && t[|body| + |d|..] == s;
  }

  lemma {:induction false} DelimiterLength(b: string)
    ensures |Delimiter(b)| >= 2
  {
  }

  lemma {:induction false} OccursHere(d: string, t: string, s: string, i: nat)
    requires i + |d| <= |t|
    ensures OccursAt(d, t + s, i) <==> OccursAt(d, t, i)
  {
    assert forall k :: 0 <= k < |t| ==> (t + s)[k] == t[k];
  }

  lemma {:induction false} EndIs(b: string, tail: string)
    ensures AfterDelimiter(b, "--" + tail) == Reading(|tail| + 2, false, [OnBodyEnd])
  {
  }

  lemma {:induction false} HandIsRead(b: string, header: string, blanks: string, v: string, body: string, tail: string)
    requires forall i :: 0 <= i < |header| ==>
               header[i] == '-' || 'a' <= header[i] <= 'z' || 'A' <= header[i] <= 'Z'
    requires (forall i :: 0 <= i < |blanks| ==> blanks[i] == ' ') && CR !in v && (v == "" || v[0] != ' ')
    requires EndsWithFirst(Delimiter(b), body + Delimiter(b))
    ensures Opening(b, PartByHand(b, header, blanks, v, body, tail)).heard
            == [OnPartDataBegin, OnHeaderField(header), OnHeaderValue(v), OnHeadersComplete, OnPartData(body),
                OnPartDataEnd, OnBodyEnd]
  {
    hide *;
    var rest := body + Delimiter(b) + ("--" + tail);
    var value := blanks + (v + (CRLF + (CRLF + rest)));
    OpeningIs(b, header + ([':'] + value));
    LineIs(b, header, value);
    ValueIs(b, blanks, v, CRLF + rest);
    LastLineIs(b, rest);
    BodyIs(b, body, "--" + tail);
    EndIs(b, tail);
    assert rest != "" && PartByHand(b, header, blanks, v, body, tail) == b + CRLF + (header + ([':'] + value)) by {
      ByHandIs(b, header, blanks, v, body, tail);
    }
    var last := AfterDelimiter(b, "--" + tail);
    var data := Then(|body| + |Delimiter(b)|, [OnHeadersComplete, OnPartData(body), OnPartDataEnd], last);
    var line := Then(2, [], data);
    var val := Then(|blanks| + |v| + 2, [OnHeaderValue(v)], line);
    ThenHeard(|body| + |Delimiter(b)|, [OnHeadersComplete, OnPartData(body), OnPartDataEnd], last);
    ThenHeard(2, [], data);
    ThenHeard(|blanks| + |v| + 2, [OnHeaderValue(v)], line);
    ThenHeard(|header| + 1, [OnHeaderField(header)], val);
    ThenHeard(|b| + 2, [OnPartDataBegin], Then(|header| + 1, [OnHeaderField(header)], val));
  }

  lemma {:induction false} ThenHeard(n: nat, h: seq<Event>, r: Reading)
    ensures Then(n, h, r).heard == h + r.heard
  {
  }

  lemma {:induction false} ByHandIs(b: string, header: string, blanks: string, v: string, body: string, tail: string)
    ensures var rest := body + Delimiter(b) + ("--" + tail);
            rest != "" && PartByHand(b, header, blanks, v, body, tail)
                          == b + CRLF + (header + ([':'] + (blanks + (v + (CRLF + (CRLF + rest))))))
  {
    hide Delimiter;
  }

  lemma {:induction false} RecasedName(header: string)
    requires Recased(header, "Content-Disposition")
    ensures forall i :: 0 <= i < |header| ==>
              header[i] == '-' || 'a' <= header[i] <= 'z' || 'A' <= header[i] <= 'Z'
  {
    hide SameLetter;
    forall i | 0 <= i < |header| ensures header[i] == '-' || 'a' <= header[i] <= 'z' || 'A' <= header[i] <= 'Z' {
      LowerIsLetter(header[i], "Content-Disposition"[i]);
    }
  }

  /** A part with a Content-Disposition in any case, whose pieces are written in any of the ways, is filed under the
      name its pieces set, with the file name they set and its body; without a name it is not filed. */
  lemma {:induction false} HandWrittenPart(
      boundary: string, header: string, blanks: string, ps: seq<Piece>, body: string, tail: string)
    requires var b := "--" + boundary; Restartable(b) && EndsWithFirst(Delimiter(b), body + Delimiter(b))
    requires Recased(header, "Content-Disposition") && forall i :: 0 <= i < |blanks| ==> blanks[i] == ' '
    requires ps != [] && AllFormed(ps)
    requires var v := JoinedBy(AllSpelled(ps), ';'); CR !in v && v != "" && v[0] != ' '
    ensures var b, v, d := "--" + boundary, JoinedBy(AllSpelled(ps), ';'), AllSet(NOTHING, ps);
            FormCollected(AllHandled(NOTHING,
                Chunk(b, INITIAL, PartByHand(b, header, blanks, v, body, tail)).m.heard))
            == if d.aborted then None else if d.name == "" then Some(map[])
               else Some(map[d.name := (d.filename, body)])
  {
    hide *;
    var b, v := "--" + boundary, JoinedBy(AllSpelled(ps), ';');
    assert |b| > 0;
    RecasedName(header);
    HandIsRead(b, header, blanks, v, body, tail);
    ParserReads(b, PartByHand(b, header, blanks, v, body, tail));
    HandIsHandled(header, ps, body);
  }

  lemma {:induction false} HandIsHandled(header: string, ps: seq<Piece>, body: string)
    requires Recased(header, "Content-Disposition")
    requires ps != [] && AllFormed(ps) && JoinedBy(AllSpelled(ps), ';') != ""
    ensures var d := AllSet(NOTHING, ps);
            FormCollected(AllHandled(NOTHING,
                [OnPartDataBegin, OnHeaderField(header), OnHeaderValue(JoinedBy(AllSpelled(ps), ';')),
                 OnHeadersComplete, OnPartData(body), OnPartDataEnd, OnBodyEnd]))
            == if d.aborted then None else if d.name == "" then Some(map[])
               else Some(map[d.name := (d.filename, body)])
  {
    hide *;
    var v := JoinedBy(AllSpelled(ps), ';');
    var t := [OnHeadersComplete] + ([OnPartData(body)] + ([OnPartDataEnd] + ([OnBodyEnd] + [])));
    assert [OnPartDataBegin, OnHeaderField(header), OnHeaderValue(v), OnHeadersComplete, OnPartData(body),
            OnPartDataEnd, OnBodyEnd] == [OnPartDataBegin, OnHeaderField(header), OnHeaderValue(v)] + t;
    var c := NOTHING.(headerField := header, headerValue := v);
    HandledAppend(NOTHING, [OnPartDataBegin, OnHeaderField(header), OnHeaderValue(v)], t);
    HandledThree(NOTHING, OnPartDataBegin, OnHeaderField(header), OnHeaderValue(v));
    LineHandled(header, v);
    var d := AllSet(NOTHING, ps);
    HandDisposed(header, ps);
    var c1 := HeaderHandled(c);
    CompleteIs(header, v);
    HandledFirst(c, OnHeadersComplete, [OnPartData(body)] + ([OnPartDataEnd] + ([OnBodyEnd] + [])));
    HandledFirst(c1, OnPartData(body), [OnPartDataEnd] + ([OnBodyEnd] + []));
    HandledFirst(Handled(c1, OnPartData(body)), OnPartDataEnd, [OnBodyEnd] + []);
    HandledFirst(Handled(Handled(c1, OnPartData(body)), OnPartDataEnd), OnBodyEnd, []);
    HandledAll(Handled(Handled(Handled(c1, OnPartData(body)), OnPartDataEnd), OnBodyEnd));
    PartFiled(c1, d, header, v, body);
  }

  lemma {:induction false} HandledAll(c: Collected)
    ensures AllHandled(c, []) == c
  {
  }

  lemma {:induction false} CompleteIs(header: string, v: string)
    ensures var c := NOTHING.(headerField := header, headerValue := v);
            Handled(c, OnHeadersComplete) == HeaderHandled(c)
  {
    hide HeaderHandled;
  }

  lemma {:induction false} LineHandled(header: string, v: string)
    ensures Handled(Handled(Handled(NOTHING, OnPartDataBegin), OnHeaderField(header)), OnHeaderValue(v))
            == NOTHING.(headerField := header, headerValue := v)
  {
    assert "" + header == header && "" + v == v;
  }

  lemma {:induction false} HeaderIsNotSet(c: Collected, f: string, v: string, ps: seq<Piece>)
    ensures AllSet(c.(headerField := f, headerValue := v), ps) == AllSet(c, ps).(headerField := f, headerValue := v)
    ensures AllSet(c, ps).partData == c.partData && AllSet(c, ps).form == c.form
    ensures AllSet(c, ps).headerField == c.headerField && AllSet(c, ps).headerValue == c.headerValue
    decreases |ps|
  {
    if ps != [] {
      HeaderIsNotSet(Set(c, ps[0]), f, v, ps[1..]);
    }
  }

  lemma {:induction false} HandDisposed(header: string, ps: seq<Piece>)
    requires Recased(header, "Content-Disposition")
    requires ps != [] && AllFormed(ps) && JoinedBy(AllSpelled(ps), ';') != ""
    ensures var d, v := AllSet(NOTHING, ps), JoinedBy(AllSpelled(ps), ';');
            && d.partData == "" && d.form == map[] && d.headerField == "" && d.headerValue == ""
            && HeaderHandled(NOTHING.(headerField := header, headerValue := v))
               == if d.aborted then d.(headerField := header, headerValue := v) else d
  {
    hide AllSet;
    hide JoinedBy;
    hide HeaderHandled;
    hide SameLetter;
    hide AllFormed;
    hide AllSpelled;
    var v := JoinedBy(AllSpelled(ps), ';');
    HeaderIsNotSet(NOTHING, header, v, ps);
    HeaderByHand(NOTHING.(headerField := header, headerValue := v), ps);
  }

  lemma {:induction false} PartFiled(c: Collected, d: Collected, header: string, v: string, body: string)
    requires d.partData == "" && d.form == map[]
             && c == if d.aborted then d.(headerField := header, headerValue := v) else d
    ensures FormCollected(Handled(Handled(Handled(c, OnPartData(body)), OnPartDataEnd), OnBodyEnd))
            == if d.aborted then None else if d.name == "" then Some(map[])
               else Some(map[d.name := (d.filename, body)])
  {
    assert "" + body == body;
    assert map[][d.name := (d.filename, body)] == map[d.name := (d.filename, body)];
  }
}
