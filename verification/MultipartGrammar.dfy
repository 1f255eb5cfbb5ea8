/** Which texts the parser takes, and what it reports of them, read off a grammar of the whole text.

    The grammar knows no states: it looks for the boundary, the ends of lines and the first delimiter in
    what is left of the text. For every restartable boundary the parser does exactly what it says. */
module MultipartGrammar {
  import opened MultipartMachine
  import opened MultipartDelimiter

  /** How many bytes are taken of a text, whether the next one is rejected, and the merged reports. */
  datatype Reading = Reading(taken: nat, rejected: bool, heard: seq<Event>)

  /** After `n` bytes with these reports. */
  function Then(n: nat, heard: seq<Event>, r: Reading): Reading { Reading(n + r.taken, r.rejected, heard + r.heard) }

  // ---- the grammar

  /** How far two texts are the same. */
  function Common(a: string, b: string): (n: nat)
    ensures n <= |a| && n <= |b| && a[..n] == b[..n] && (n < |a| && n < |b| ==> a[n] != b[n])
  {
    if a == "" || b == "" || a[0] != b[0] then 0 else 1 + Common(a[1..], b[1..])
  }

  lemma {:induction false} CommonIsAll(a: string, s: string)
    ensures a <= s <==> Common(a, s) == |a|
  {
    hide Common;
    var n := Common(a, s);
    if n == |a| { assert a[..n] == a; }
  }

  /** How many bytes in front are letters or hyphens. */
  function NameLength(s: string): (n: nat)
    ensures n <= |s| && (forall i :: 0 <= i < n ==> s[i] == '-' || 'a' <= s[i] <= 'z' || 'A' <= s[i] <= 'Z')
    ensures n < |s| ==> !(s[n] == '-' || 'a' <= s[n] <= 'z' || 'A' <= s[n] <= 'Z')
  {
    if s != "" && (s[0] == '-' || 'a' <= s[0] <= 'z' || 'A' <= s[0] <= 'Z') then 1 + NameLength(s[1..]) else 0
  }

  function Blanks(s: string): (n: nat)
    ensures n <= |s| && (forall i :: 0 <= i < n ==> s[i] == ' ') && (n < |s| ==> s[n] != ' ')
  {
    if s != "" && s[0] == ' ' then 1 + Blanks(s[1..]) else 0
  }

  /** How far it is to the first CR, or to the end. */
  function ToCr(s: string): (n: nat)
    ensures n <= |s| && CR !in s[..n] && (n < |s| ==> s[n] == CR)
  {
    if s == "" || s[0] == CR then 0 else 1 + ToCr(s[1..])
  }

  /** The first place where the delimiter occurs, or the end. */
  function FirstDelimiter(d: string, s: string, k: nat): (j: nat)
    requires k <= |s|
    ensures k <= j <= |s| && (j < |s| ==> OccursAt(d, s, j)) && forall i :: k <= i < j ==> !OccursAt(d, s, i)
    decreases |s| - k
  {
    if k == |s| || OccursAt(d, s, k) then k else FirstDelimiter(d, s, k + 1)
  }

  /** The first place from where the text goes on as the delimiter does, as far as it goes on. */
  function FirstStart(d: string, s: string, k: nat): (e: nat)
    requires k <= |s|
    ensures k <= e <= |s| && CompatibleAt(d, s, e) && forall i :: k <= i < e ==> !CompatibleAt(d, s, i)
    decreases |s| - k
  {
    if k == |s| || CompatibleAt(d, s, k) then k else FirstStart(d, s, k + 1)
  }

  /** The boundary and CRLF come first. */
  function Opening(b: string, s: string): Reading {
    if b + CRLF <= s then Then(|b| + 2, [OnPartDataBegin], HeaderLines(b, s[|b| + 2..]))
    else Reading(Common(b + CRLF, s), Common(b + CRLF, s) < |s|, [])
  }

  /** Header lines, and then a body. A line is a name and a colon and a value; one with no colon ends them, and
      its name is reported only if the text ends inside it. */
  function HeaderLines(b: string, s: string): Reading
    decreases |s|, 1
  {
    var n := NameLength(s);
    if n == |s| then Reading(n, false, if s == "" then [] else [OnHeaderField(s)])
    else if s[n] == ':' then Then(n + 1, [OnHeaderField(s[..n])], Value(b, s[n + 1..]))
    else if s[n] != CR then Reading(n, true, [])
    else AfterNames(b, s, n)
  }

  /** The line has ended without a colon. */
  function AfterNames(b: string, s: string, n: nat): Reading
    requires n < |s|
    decreases |s|, 0
  {
    if n + 1 == |s| then Reading(n + 1, false, [])
    else if s[n + 1] != LF then Reading(n + 1, true, [])
    else Then(n + 2, [], BodyText(b, s[n + 2..]))
  }

  /** Spaces, and then a value up to the end of the line. */
  function Value(b: string, s: string): Reading
    decreases |s|
  {
    var k := Blanks(s);
    var n := k + ToCr(s[k..]);
    if k == |s| then Reading(k, false, [])
    else if n == |s| then Reading(n, false, [OnHeaderValue(s[k..])])
    else if n + 1 == |s| then Reading(n + 1, false, [OnHeaderValue(s[k..n])])
    else if s[n + 1] != LF then Reading(n + 1, true, [OnHeaderValue(s[k..n])])
    else Then(n + 2, [OnHeaderValue(s[k..n])], HeaderLines(b, s[n + 2..]))
  }

  /** A body up to the first delimiter. Without one, all but what may be its beginning has been reported. */
  function BodyText(b: string, s: string): Reading
    decreases |s|
  {
    var d := Delimiter(b);
    var j := FirstDelimiter(d, s, 0);
    if s == "" then Reading(0, false, [])
    else if j == |s| then Reading(|s|, false, [OnHeadersComplete, OnPartData(s[..FirstStart(d, s, 0)])])
    else Then(j + |d|, [OnHeadersComplete, OnPartData(s[..j]), OnPartDataEnd], AfterDelimiter(b, s[j + |d|..]))
  }

  /** Two hyphens end the form, and anything may follow; CRLF begins the next part. */
  function AfterDelimiter(b: string, s: string): Reading
    decreases |s|
  {
    if s == "" then Reading(0, false, [])
    else if s[0] !in "-\r" then Reading(0, true, [])
    else if |s| == 1 then Reading(1, false, [])
    else if s[0] == '-' then if s[1] == '-' then Reading(|s|, false, [OnBodyEnd]) else Reading(1, true, [])
    else if s[1] == '\n' then Then(2, [OnPartDataBegin], HeaderLines(b, s[2..]))
    else Reading(1, true, [])
  }

  // ---- the machine, piece by piece

  lemma {:induction false} TakesName(b: string, m: Machine, name: string)
    requires Consistent(b, m) && m.state == HeaderFieldStart
    requires name != "" && forall i :: 0 <= i < |name| ==> IsNameByte(name[i])
    ensures Takes(b, m, name, m.(state := HeaderField, pending := name))
    decreases |name|
  {
    hide Feed;
    hide Hear;
    var init, c := name[..|name| - 1], name[|name| - 1];
    assert name == init + [c];
    if init == "" {
      assert name == [c];
      TakesByte(b, m, c);
    } else {
      TakesName(b, m, init);
      var n := m.(state := HeaderField, pending := init);
      TakesByte(b, n, c);
      TakesAppend(b, m, init, n, [c], n.(pending := name));
    }
  }

  lemma {:induction false} ValueStep(b: string, m: Machine, c: char)
    requires Consistent(b, m) && c != CR && (m.state == HeaderValue || (m.state == HeaderValueStart && c != ' '))
    ensures Step(b, m, c) == Accept(m.(state := HeaderValue, heard := Hear(m.heard, OnHeaderValue([c]))))
  {
    hide Hear;
  }

  lemma {:induction false} TakesValue(b: string, m: Machine, v: string)
    requires Consistent(b, m) && m.state == HeaderValueStart
    requires CR !in v && v != "" && v[0] != ' '
    ensures Takes(b, m, v, m.(state := HeaderValue, heard := Hear(m.heard, OnHeaderValue(v))))
    decreases |v|
  {
    hide Hear;
    hide Step;
    hide Feed;
    hide Takes;
    var init, c := v[..|v| - 1], v[|v| - 1];
    assert v == init + [c] && c in v;
    if init == "" {
      assert v == [c];
      ValueStep(b, m, c);
      TakesByte(b, m, c);
    } else {
      assert forall x :: x in init ==> x in v;
      TakesValue(b, m, init);
      var n := m.(state := HeaderValue, heard := Hear(m.heard, OnHeaderValue(init)));
      ValueStep(b, n, c);
      TakesByte(b, n, c);
      HearTwice(m.heard, init, [c]);
      TakesAppend(b, m, init, n, [c], n.(heard := Hear(m.heard, OnHeaderValue(v))));
    }
  }

  lemma {:induction false} TakesTwo(b: string, m: Machine, c: char, d: char)
    requires Consistent(b, m)
    requires Step(b, m, c).Accept?
    requires Consistent(b, Step(b, m, c).m)
    requires Step(b, Step(b, m, c).m, d).Accept?
    ensures Takes(b, m, [c, d], Step(b, Step(b, m, c).m, d).m)
  {
    hide Step;
    TakesByte(b, m, c);
    TakesByte(b, Step(b, m, c).m, d);
    TakesAppend(b, m, [c], Step(b, m, c).m, [d], Step(b, Step(b, m, c).m, d).m);
    assert [c] + [d] == [c, d];
  }

  lemma {:induction false} TakesBoundary(b: string, k: nat)
    requires 0 < k <= |b|
    ensures Takes(b, INITIAL, b[..k], Machine(StartBoundary, k, "", []))
  {
    var c := b[k - 1];
    assert b[..k] == b[..k - 1] + [c];
    if k == 1 {
      TakesByte(b, INITIAL, c);
      assert b[..1] == [c];
    } else {
      TakesBoundary(b, k - 1);
      TakesByte(b, Machine(StartBoundary, k - 1, "", []), c);
      TakesAppend(b, INITIAL, b[..k - 1], Machine(StartBoundary, k - 1, "", []), [c],
          Machine(StartBoundary, k, "", []));
    }
  }

  // ---- the parser reads by the grammar

  /** What one call does with the text is what the reading says. */
  ghost predicate Reads(b: string, m: Machine, s: string, r: Reading) {
    Consistent(b, m) &&
    var f := Chunk(b, m, s);
    f.taken == r.taken && f.rejected == r.rejected && f.m.heard == m.heard + r.heard
  }

  /** A text that is taken, and what is read after it. */
  lemma {:induction false} ReadsAfter(b: string, m: Machine, a: string, m': Machine, heard: seq<Event>, s: string,
                                      r: Reading)
    requires Takes(b, m, a, m') && m'.heard == m.heard + heard && Reads(b, m', s, r)
    ensures Reads(b, m, a + s, Then(|a|, heard, r))
  {
    hide Feed;
    hide Flush;
    FeedAppend(b, m, a, s);
    assert m.heard + (heard + r.heard) == (m.heard + heard) + r.heard;
  }

  /** A text that is taken, and a byte that is not. */
  lemma {:induction false} ReadsReject(b: string, m: Machine, a: string, m': Machine, heard: seq<Event>, s: string)
    requires Takes(b, m, a, m') && m'.heard == m.heard + heard && s != ""
    requires var o := Step(b, m', s[0]); o.Reject? && o.m.heard == m'.heard
    ensures Reads(b, m, a + s, Reading(|a|, true, heard))
  {
    hide Feed;
    hide Step;
    var all := a + s;
    assert all[..|a|] == a && all[|a|] == s[0];
    FeedNext(b, m, all, |a|, m');
  }

  /** A text that is taken to its end. */
  lemma {:induction false} ReadsAll(b: string, m: Machine, s: string, m': Machine, heard: seq<Event>)
    requires Takes(b, m, s, m') && Flush(m').heard == m.heard + heard
    ensures Reads(b, m, s, Reading(|s|, false, heard))
  {
    hide Feed;
    hide Hear;
  }

  lemma {:induction false} TakesNone(b: string, m: Machine)
    requires Consistent(b, m)
    ensures Takes(b, m, "", m)
  {
  }

  /** Header lines are read after a beginning of a part or another header line. */
  predicate AtLine(b: string, m: Machine) {
    && Consistent(b, m) && m.state == HeaderFieldStart && m.heard != []
    && !m.heard[|m.heard| - 1].OnHeaderField?
  }

  predicate AtValue(b: string, m: Machine) {
    && Consistent(b, m) && m.state == HeaderValueStart && m.heard != []
    && !m.heard[|m.heard| - 1].OnHeaderValue?
  }

  lemma {:induction false} TakesBlanks(b: string, m: Machine, s: string)
    requires Consistent(b, m) && m.state == HeaderValueStart && forall i :: 0 <= i < |s| ==> s[i] == ' '
    ensures Takes(b, m, s, m)
    decreases |s|
  {
    if s == "" {
      TakesNone(b, m);
    } else {
      var init := s[..|s| - 1];
      TakesBlanks(b, m, init);
      TakesByte(b, m, ' ');
      assert s == init + [' '];
      hide *;
      TakesAppend(b, m, init, m, [' '], m);
    }
  }

  /** A name, as far as it goes. */
  lemma {:induction false} TakesNameBytes(b: string, m: Machine, s: string, n: nat) returns (m': Machine)
    requires AtLine(b, m) && n == NameLength(s)
    ensures Takes(b, m, s[..n], m') && m'.heard == m.heard && m'.state in {HeaderFieldStart, HeaderField}
    ensures m'.pending == s[..n] && m'.index == m.index && Consistent(b, m')
  {
    hide Feed;
    if n == 0 {
      TakesNone(b, m);
      m' := m;
    } else {
      TakesName(b, m, s[..n]);
      m' := m.(state := HeaderField, pending := s[..n]);
    }
  }

  lemma {:induction false} HeaderLinesIs(b: string, s: string)
    ensures var n := NameLength(s);
            && n <= |s|
            && (n < |s| ==> !(s[n] == '-' || 'a' <= s[n] <= 'z' || 'A' <= s[n] <= 'Z'))
            && HeaderLines(b, s)
               == (if n == |s| then Reading(n, false, if s == "" then [] else [OnHeaderField(s)])
                   else if s[n] == ':' then Then(n + 1, [OnHeaderField(s[..n])], Value(b, s[n + 1..]))
                   else if s[n] != CR then Reading(n, true, [])
                   else AfterNames(b, s, n))
  {
    hide Value;
    hide BodyText;
    hide Then;
  }

  lemma {:induction false} HeaderLinesRead(b: string, m: Machine, s: string)
    requires Restartable(b) && AtLine(b, m)
    ensures Reads(b, m, s, HeaderLines(b, s))
    decreases |s|, 1
  {
    hide *;
    var n := NameLength(s);
    HeaderLinesIs(b, s);
    LineConsistent(b, m);
    var m' := TakesNameBytes(b, m, s, n);
    assert s[..n] + s[n..] == s;
    if n == |s| {
      assert s[..n] == s;
      NameEnds(b, m, s, m');
    } else if s[n] == ':' {
      NameColon(b, m, s[..n], m');
      var m2 := m.(state := HeaderValueStart, heard := m.heard + [OnHeaderField(s[..n])]);
      ValueRead(b, m2, s[n + 1..]);
      assert s[..n] + [':'] + s[n + 1..] == s;
      ReadsAfter(b, m, s[..n] + [':'], m2, [OnHeaderField(s[..n])], s[n + 1..], Value(b, s[n + 1..]));
    } else if s[n] != CR {
      NameStops(b, m', s[n]);
      assert m.heard + [] == m.heard;
      ReadsReject(b, m, s[..n], m', [], s[n..]);
    } else {
      NameLineEnds(b, m, s, n, m');
    }
  }

  lemma {:induction false} LineConsistent(b: string, m: Machine)
    requires AtLine(b, m)
    ensures Consistent(b, m)
  {
  }

  lemma {:induction false} NameEnds(b: string, m: Machine, s: string, m': Machine)
    requires AtLine(b, m) && Takes(b, m, s, m') && m'.heard == m.heard && m'.pending == s
    ensures Reads(b, m, s, Reading(|s|, false, if s == "" then [] else [OnHeaderField(s)]))
  {
    hide Feed;
    ReadsAll(b, m, s, m', if s == "" then [] else [OnHeaderField(s)]);
  }

  lemma {:induction false} NameColon(b: string, m: Machine, name: string, m': Machine)
    requires AtLine(b, m) && Takes(b, m, name, m') && Consistent(b, m')
    requires m'.heard == m.heard && m'.pending == name && m'.index == m.index
             && m'.state in {HeaderFieldStart, HeaderField}
    ensures var m2 := m.(state := HeaderValueStart, heard := m.heard + [OnHeaderField(name)]);
            Takes(b, m, name + [':'], m2) && AtValue(b, m2)
  {
    hide Feed;
    TakesByte(b, m', ':');
    TakesAppend(b, m, name, m', [':'], m.(state := HeaderValueStart, heard := m.heard + [OnHeaderField(name)]));
  }

  lemma {:induction false} NameStops(b: string, m: Machine, c: char)
    requires Consistent(b, m) && m.state in {HeaderFieldStart, HeaderField}
    requires c != CR && c != ':' && !(c == '-' || 'a' <= c <= 'z' || 'A' <= c <= 'Z')
    ensures var o := Step(b, m, c); o.Reject? && o.m.heard == m.heard
  {
  }

  lemma {:induction false} NameCr(b: string, m: Machine, s: string, n: nat, m': Machine)
    requires n < |s| && s[n] == CR && Takes(b, m, s[..n], m') && Consistent(b, m')
    requires m'.state in {HeaderFieldStart, HeaderField}
    ensures var m2 := m'.(state := HeadersAlmostDone, pending := ""); Takes(b, m, s[..n + 1], m2) && Consistent(b, m2)
  {
    hide Feed;
    TakesByte(b, m', CR);
    TakesAppend(b, m, s[..n], m', [CR], m'.(state := HeadersAlmostDone, pending := ""));
    assert s[..n] + [CR] == s[..n + 1];
  }

  /** The line ends with no colon: the headers end. */
  lemma {:induction false} NameLineEnds(b: string, m: Machine, s: string, n: nat, m': Machine)
    requires Restartable(b) && n < |s| && s[n] == CR && Takes(b, m, s[..n], m') && Consistent(b, m')
    requires m'.heard == m.heard && m'.state in {HeaderFieldStart, HeaderField}
    ensures Reads(b, m, s, AfterNames(b, s, n))
    decreases |s|, 0
  {
    hide Reads;
    hide Restartable;
    hide Then;
    hide BodyText;
    hide Feed;
    var m2 := m'.(state := HeadersAlmostDone, pending := "");
    NameCr(b, m, s, n, m');
    if n + 1 == |s| {
      assert s[..n + 1] == s;
      ReadsAll(b, m, s, m2, []);
    } else if s[n + 1] != LF {
      assert s[..n + 1] + s[n + 1..] == s;
      ReadsReject(b, m, s[..n + 1], m2, [], s[n + 1..]);
    } else {
      var m3 := m2.(state := PartDataStart);
      TakesByte(b, m2, LF);
      TakesAppend(b, m, s[..n + 1], m2, [LF], m3);
      assert s[..n + 1] + [LF] == s[..n + 2] && s[..n + 2] + s[n + 2..] == s;
      BodyRead(b, m3, s[n + 2..]);
      ReadsAfter(b, m, s[..n + 2], m3, [], s[n + 2..], BodyText(b, s[n + 2..]));
    }
  }

  lemma {:induction false} ValueIs(b: string, s: string)
    ensures var k := Blanks(s);
            var n := k + ToCr(s[k..]);
            && k <= n <= |s| && CR !in s[k..n] && (k < n ==> s[k] != ' ') && (n < |s| ==> s[n] == CR)
            && (forall i :: 0 <= i < |s[..k]| ==> s[..k][i] == ' ') && (k == |s| ==> n == |s|)
            && Value(b, s)
               == (if k == |s| then Reading(k, false, [])
                   else if n == |s| then Reading(n, false, [OnHeaderValue(s[k..])])
                   else if n + 1 == |s| then Reading(n + 1, false, [OnHeaderValue(s[k..n])])
                   else if s[n + 1] != LF then Reading(n + 1, true, [OnHeaderValue(s[k..n])])
                   else Then(n + 2, [OnHeaderValue(s[k..n])], HeaderLines(b, s[n + 2..])))
  {
    hide HeaderLines;
    hide Then;
    var k := Blanks(s);
    assert s[k..][..ToCr(s[k..])] == s[k..k + ToCr(s[k..])];
  }

  lemma {:induction false} ValueRead(b: string, m: Machine, s: string)
    requires Restartable(b) && AtValue(b, m)
    ensures Reads(b, m, s, Value(b, s))
    decreases |s|, 1
  {
    hide *;
    var k := Blanks(s);
    var n := k + ToCr(s[k..]);
    ValueIs(b, s);
    TakesLead(b, m, s[..k]);
    if k == |s| {
      assert s[..k] == s;
      assert m.heard + [] == m.heard;
      ReadsAll(b, m, s, m, []);
    } else if n == |s| {
      ValueToEnd(b, m, s, k);
    } else {
      var heard := [OnHeaderValue(s[k..n])];
      var m2 := m.(state := HeaderValueAlmostDone, heard := m.heard + heard);
      ValueEnds(b, m, s, k, n);
      AfterValue(b, m, s, n, m2, heard);
    }
  }

  lemma {:induction false} TakesLead(b: string, m: Machine, lead: string)
    requires AtValue(b, m) && forall i :: 0 <= i < |lead| ==> lead[i] == ' '
    ensures Takes(b, m, lead, m) && Flush(m) == m
  {
    hide Takes;
    TakesBlanks(b, m, lead);
  }

  lemma {:induction false} ValueToEnd(b: string, m: Machine, s: string, k: nat)
    requires AtValue(b, m) && k < |s| && s[k] != ' ' && CR !in s[k..] && Takes(b, m, s[..k], m)
    ensures Reads(b, m, s, Reading(|s|, false, [OnHeaderValue(s[k..])]))
  {
    hide Feed;
    hide Reads;
    var v := s[k..];
    var m1 := m.(state := HeaderValue, heard := m.heard + [OnHeaderValue(v)]);
    TakesValue(b, m, v);
    TakesAppend(b, m, s[..k], m, v, m1);
    assert s[..k] + v == s;
    ReadsAll(b, m, s, m1, [OnHeaderValue(v)]);
  }

  /** What follows the CR after a value. */
  lemma {:induction false} AfterValue(b: string, m: Machine, s: string, n: nat, m2: Machine, heard: seq<Event>)
    requires Restartable(b) && n < |s| && Takes(b, m, s[..n + 1], m2)
    requires m2.state == HeaderValueAlmostDone && m2.heard == m.heard + heard
    requires heard != [] && heard[|heard| - 1].OnHeaderValue?
    ensures Reads(b, m, s, if n + 1 == |s| then Reading(n + 1, false, heard)
                           else if s[n + 1] != LF then Reading(n + 1, true, heard)
                           else Then(n + 2, heard, HeaderLines(b, s[n + 2..])))
    decreases |s|, 0, 1
  {
    hide Reads;
    hide Restartable;
    hide HeaderLines;
    hide Feed;
    hide Then;
    if n + 1 == |s| {
      assert s[..n + 1] == s;
      ReadsAll(b, m, s, m2, heard);
    } else if s[n + 1] != LF {
      assert s[..n + 1] + s[n + 1..] == s;
      ReadsReject(b, m, s[..n + 1], m2, heard, s[n + 1..]);
    } else {
      NextLine(b, m, s, n, m2, heard);
    }
  }

  lemma {:induction false} ValueEnds(b: string, m: Machine, s: string, k: nat, n: nat)
    requires AtValue(b, m) && k <= n < |s| && s[n] == CR && CR !in s[k..n] && Takes(b, m, s[..k], m)
    requires k < n ==> s[k] != ' '
    ensures Takes(b, m, s[..n + 1], m.(state := HeaderValueAlmostDone, heard := m.heard + [OnHeaderValue(s[k..n])]))
  {
    hide Feed;
    var v := s[k..n];
    var m2 := m.(state := HeaderValueAlmostDone, heard := m.heard + [OnHeaderValue(v)]);
    assert s[..n] + [CR] == s[..n + 1] && s[..k] + v == s[..n];
    if v == "" {
      TakesByte(b, m, CR);
      TakesAppend(b, m, s[..k], m, [CR], m2);
    } else {
      TakesValue(b, m, v);
      var m1 := m.(state := HeaderValue, heard := m.heard + [OnHeaderValue(v)]);
      TakesAppend(b, m, s[..k], m, v, m1);
      TakesByte(b, m1, CR);
      assert v + "" == v;
      TakesAppend(b, m, s[..n], m1, [CR], m2);
    }
  }

  lemma {:induction false} NextLine(b: string, m: Machine, s: string, n: nat, m2: Machine, heard: seq<Event>)
    requires Restartable(b) && n + 1 < |s| && s[n + 1] == LF && Takes(b, m, s[..n + 1], m2) && Consistent(b, m2)
    requires m2.state == HeaderValueAlmostDone && m2.heard == m.heard + heard
    requires heard != [] && heard[|heard| - 1].OnHeaderValue?
    ensures Reads(b, m, s, Then(n + 2, heard, HeaderLines(b, s[n + 2..])))
    decreases |s|, 0, 0
  {
    hide Reads;
    hide Restartable;
    hide HeaderLines;
    hide Feed;
    hide Then;
    var m3 := m2.(state := HeaderFieldStart);
    TakesByte(b, m2, LF);
    TakesAppend(b, m, s[..n + 1], m2, [LF], m3);
    assert s[..n + 1] + [LF] == s[..n + 2] && s[..n + 2] + s[n + 2..] == s;
    HeaderLinesRead(b, m3, s[n + 2..]);
    ReadsAfter(b, m, s[..n + 2], m3, heard, s[n + 2..], HeaderLines(b, s[n + 2..]));
  }

  /** Without a delimiter, the parser is still scanning. */
  lemma {:induction false} ScanOpen(b: string, h: seq<Event>, index: nat, s: string)
    requires |b| > 0 && Restartable(b) && s != "" && forall k :: 0 <= k < |s| ==> !OccursAt(Delimiter(b), s, k)
    ensures var f := Feed(b, Body(h, index), s); !f.rejected && f.taken == |s| && Scanning(b, h, s, f.m)
  {
    hide Restartable;
    hide Feed;
    hide Scanning;
    hide CompatibleAt;
    var d := Delimiter(b);
    var t := s + d;
    DelimiterAtEnd(d, s);
    var j := FirstDelimiter(d, t, 0);
    var u := t[..j + |d|];
    CutAtFirst(d, t, j);
    if j + |d| <= |s| {
      OccursInShorter(d, t, s, j);
      assert false;
    }
    assert u[..|s|] == s;
    ScanPrefix(b, h, index, u, |s|);
  }

  lemma {:induction false} DelimiterAtEnd(d: string, s: string)
    requires d != ""
    ensures OccursAt(d, s + d, |s|) && FirstDelimiter(d, s + d, 0) <= |s|
  {
    assert OccursAt(d, s + d, |s|);
  }

  lemma {:induction false} OccursInShorter(d: string, t: string, s: string, j: nat)
    requires |s| <= |t| && s == t[..|s|] && OccursAt(d, t, j) && j + |d| <= |s|
    ensures OccursAt(d, s, j)
  {
    assert forall i :: 0 <= i < |s| ==> s[i] == t[i];
  }

  /** Up to its first delimiter, a text ends with it. */
  lemma {:induction false} CutAtFirst(d: string, t: string, j: nat)
    requires d != "" && OccursAt(d, t, j) && forall i :: 0 <= i < j ==> !OccursAt(d, t, i)
    ensures j + |d| <= |t| && EndsWithFirst(d, t[..j + |d|])
  {
    var u := t[..j + |d|];
    OccursInShorter(d, t, u, j);
    forall k | 0 <= k < |u| - |d| ensures !OccursAt(d, u, k) {
      if OccursAt(d, u, k) { OccursInLonger(d, u, t, k); }
    }
  }

  lemma {:induction false} BodyRead(b: string, m: Machine, s: string)
    requires Restartable(b) && Consistent(b, m) && m.state == PartDataStart
    ensures Reads(b, m, s, BodyText(b, s))
    decreases |s|, 1
  {
    hide Reads;
    hide Restartable;
    hide Feed;
    hide Then;
    hide OccursAt;
    hide CompatibleAt;
    hide AfterDelimiter;
    var d := Delimiter(b);
    var j := FirstDelimiter(d, s, 0);
    assert m == Body(m.heard, m.index);
    if s == "" {
      TakesNone(b, m);
      ReadsAll(b, m, s, m, []);
    } else if j == |s| {
      OpenBodyRead(b, m, s);
    } else {
      CutAtFirst(d, s, j);
      var u := s[..j + |d|];
      RestartableExtracts(b, m.heard, m.index, u);
      assert u[..|u| - |d|] == s[..j] && u + s[j + |d|..] == s;
      var m1 := AfterPart(b, m.heard, s[..j]);
      AfterRead(b, m1, s[j + |d|..]);
      ReadsAfter(b, m, u, m1, [OnHeadersComplete, OnPartData(s[..j]), OnPartDataEnd], s[j + |d|..],
                 AfterDelimiter(b, s[j + |d|..]));
    }
  }

  lemma {:induction false} OpenBodyRead(b: string, m: Machine, s: string)
    requires Restartable(b) && Consistent(b, m) && m.state == PartDataStart
    requires s != "" && FirstDelimiter(Delimiter(b), s, 0) == |s|
    ensures Reads(b, m, s, BodyText(b, s))
  {
    hide Reads;
    hide Restartable;
    hide Feed;
    hide OccursAt;
    hide CompatibleAt;
    var d := Delimiter(b);
    assert m == Body(m.heard, m.index);
    ScanOpen(b, m.heard, m.index, s);
    var m' := Feed(b, m, s).m;
    ScanStart(b, m.heard, s, m');
    ReadsAll(b, m, s, m', [OnHeadersComplete, OnPartData(s[..FirstStart(d, s, 0)])]);
  }

  /** What has been reported while scanning is all before the first start of a delimiter. */
  lemma {:induction false} ScanStart(b: string, h: seq<Event>, s: string, m: Machine)
    requires Scanning(b, h, s, m) && s != ""
    ensures m.pending == "" && m.heard == h + [OnHeadersComplete, OnPartData(s[..FirstStart(Delimiter(b), s, 0)])]
  {
    hide CompatibleAt;
    var d, e := Delimiter(b), |s| - |Held(b, m)|;
    var k := FirstStart(d, s, 0);
    assert k == e;
  }

  lemma {:induction false} AfterRead(b: string, m: Machine, s: string)
    requires Restartable(b) && Consistent(b, m) && m.state == PartDataAlmostEnd
    requires m.heard != [] && m.heard[|m.heard| - 1] == OnPartDataEnd
    ensures Reads(b, m, s, AfterDelimiter(b, s))
    decreases |s|, 1
  {
    hide Reads;
    hide Restartable;
    hide Feed;
    hide Then;
    hide HeaderLines;
    TakesNone(b, m);
    if s == "" {
      ReadsAll(b, m, s, m, []);
    } else if s[0] !in "-\r" {
      assert "" + s == s;
      ReadsReject(b, m, "", m, [], s);
    } else {
      var m1 := Step(b, m, s[0]).m;
      TakesByte(b, m, s[0]);
      if |s| == 1 {
        assert s == [s[0]];
        ReadsAll(b, m, s, m1, []);
      } else {
        assert [s[0]] + s[1..] == s;
        AfterTwo(b, m, s, m1);
      }
    }
  }

  lemma {:induction false} AfterTwo(b: string, m: Machine, s: string, m1: Machine)
    requires Restartable(b) && Consistent(b, m) && m.state == PartDataAlmostEnd
    requires m.heard != [] && m.heard[|m.heard| - 1] == OnPartDataEnd
    requires |s| > 1 && s[0] in "-\r" && [s[0]] + s[1..] == s && m1 == Step(b, m, s[0]).m && Takes(b, m, [s[0]], m1)
    ensures Reads(b, m, s, AfterDelimiter(b, s))
    decreases |s|, 0
  {
    hide Reads;
    hide Restartable;
    hide Feed;
    hide Then;
    hide HeaderLines;
    assert s[1..][0] == s[1];
    if s[1] != (if s[0] == '-' then '-' else LF) {
      ReadsReject(b, m, [s[0]], m1, [], s[1..]);
    } else {
      var m2 := Step(b, m1, s[1]).m;
      TakesByte(b, m1, s[1]);
      TakesAppend(b, m, [s[0]], m1, [s[1]], m2);
      assert [s[0]] + [s[1]] == s[..2] && s[..2] + s[2..] == s;
      if s[0] == '-' {
        TakesRest(b, m2, s[2..]);
        TakesAppend(b, m, s[..2], m2, s[2..], m2);
        ReadsAll(b, m, s, m2, [OnBodyEnd]);
      } else {
        HeaderLinesRead(b, m2, s[2..]);
        ReadsAfter(b, m, s[..2], m2, [OnPartDataBegin], s[2..], HeaderLines(b, s[2..]));
      }
    }
  }

  /** After the end, anything is taken and nothing is reported. */
  lemma {:induction false} TakesRest(b: string, m: Machine, s: string)
    requires Consistent(b, m) && m.state == End
    ensures Takes(b, m, s, m)
    decreases |s|
  {
    if s != "" {
      TakesRest(b, m, s[..|s| - 1]);
      assert Step(b, m, s[|s| - 1]) == Accept(m);
    }
  }

  /** The boundary and the line end after it. */
  lemma {:induction false} TakesOpening(b: string)
    requires |b| > 0
    ensures Takes(b, INITIAL, b + [CR], Machine(StartBoundary, |b| + 1, "", []))
    ensures Takes(b, INITIAL, b + CRLF, Machine(HeaderFieldStart, 0, "", [OnPartDataBegin]))
  {
    hide Feed;
    var m, m1 := Machine(StartBoundary, |b|, "", []), Machine(StartBoundary, |b| + 1, "", []);
    TakesBoundary(b, |b|);
    assert b[..|b|] == b;
    TakesByte(b, m, CR);
    TakesAppend(b, INITIAL, b, m, [CR], m1);
    TakesByte(b, m1, LF);
    TakesAppend(b, INITIAL, b + [CR], m1, [LF], Machine(HeaderFieldStart, 0, "", [OnPartDataBegin]));
    assert b + [CR] + [LF] == b + CRLF;
  }

  /** As far as the text begins as it should. */
  lemma {:induction false} TakesCommon(b: string, n: nat) returns (m: Machine)
    requires |b| > 0 && n < |b| + 2
    ensures Takes(b, INITIAL, (b + CRLF)[..n], m) && m.state in {Start, StartBoundary} && m.heard == []
            && m.pending == ""
    ensures Consistent(b, m) && (m.state == Start ==> n == 0) && (m.state == StartBoundary ==> m.index == n)
  {
    hide Feed;
    if n == 0 {
      TakesNone(b, INITIAL);
      m := INITIAL;
    } else if n <= |b| {
      TakesBoundary(b, n);
      assert (b + CRLF)[..n] == b[..n];
      m := Machine(StartBoundary, n, "", []);
    } else {
      TakesOpening(b);
      assert (b + CRLF)[..n] == b + [CR];
      m := Machine(StartBoundary, |b| + 1, "", []);
    }
  }

  lemma {:induction false} WrongByte(b: string, m: Machine, n: nat, c: char)
    requires |b| > 0 && n < |b| + 2 && c != (b + CRLF)[n] && m.state in {Start, StartBoundary} && Consistent(b, m)
    requires (m.state == Start ==> n == 0) && (m.state == StartBoundary ==> m.index == n)
    ensures var o := Step(b, m, c); o.Reject? && o.m.heard == m.heard
  {
  }

  lemma {:induction false} NotOpened(b: string, s: string)
    requires |b| > 0 && !(b + CRLF <= s)
    ensures Reads(b, INITIAL, s, Opening(b, s))
  {
    hide Reads;
    hide Feed;
    hide Step;
    var n := Common(b + CRLF, s);
    CommonIsAll(b + CRLF, s);
    var m := TakesCommon(b, n);
    if n == |s| {
      assert s[..n] == s;
      ReadsAll(b, INITIAL, s, m, []);
    } else {
      WrongByte(b, m, n, s[n]);
      assert s[..n] + s[n..] == s;
      ReadsReject(b, INITIAL, s[..n], m, [], s[n..]);
    }
  }

  /** For every boundary: a text that does not begin with it and CRLF is taken as far as it does, and nothing of it
      is reported; any other is taken at least so far. */
  lemma {:induction false} OpeningIsExact(b: string, s: string)
    requires |b| > 0
    ensures var f, n := Chunk(b, INITIAL, s), Common(b + CRLF, s);
            && (b + CRLF <= s <==> f.taken >= |b| + 2) && (b + CRLF <= s <==> n == |b| + 2)
            && (n < |b| + 2 ==> f.taken == n && (f.rejected <==> n < |s|) && f.m.heard == [])
  {
    hide Feed;
    hide Step;
    CommonIsAll(b + CRLF, s);
    if b + CRLF <= s {
      TakesOpening(b);
      assert (b + CRLF) + s[|b| + 2..] == s;
      FeedAppend(b, INITIAL, b + CRLF, s[|b| + 2..]);
    } else {
      NotOpened(b, s);
    }
  }

  /** For every restartable boundary and every text: the parser takes as many bytes, and reports what, the grammar
      says. */
  lemma {:induction false} ParserReads(b: string, s: string)
    requires |b| > 0 && Restartable(b)
    ensures var f, r := Chunk(b, INITIAL, s), Opening(b, s);
            f.taken == r.taken && f.rejected == r.rejected && f.m.heard == r.heard
  {
    hide Feed;
    hide Step;
    hide Restartable;
    hide HeaderLines;
    if b + CRLF <= s {
      var m, rest := Machine(HeaderFieldStart, 0, "", [OnPartDataBegin]), s[|b| + 2..];
      TakesOpening(b);
      HeaderLinesRead(b, m, rest);
      ReadsAfter(b, INITIAL, b + CRLF, m, [OnPartDataBegin], rest, HeaderLines(b, rest));
      assert (b + CRLF) + rest == s;
    } else {
      NotOpened(b, s);
    }
  }
}
