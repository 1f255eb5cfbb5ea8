/** What a form can hold, whatever body it is parsed from. */
module FormContents {
  import opened Bytes
  import opened HeaderText
  import opened MultipartMachine
  import opened MultipartDelimiter
  import opened FormData
  import opened MultipartForm

  predicate Plain(s: string) { CR !in s && ';' !in s && '=' !in s }

  /** No delimiter occurs in it. */
  predicate Free(d: string, s: string) { forall k :: 0 <= k < |s| ==> !OccursAt(d, s, k) }

  // ---- what the parser reports

  predicate EndsInData(h: seq<Event>) { h != [] && h[|h| - 1].OnPartData? }

  /** Values have no CR; the data of a part, once it is complete, is followed by the part's end and has no
      delimiter in it. */
  predicate WellHeard(d: string, h: seq<Event>) {
    && (forall i :: 0 <= i < |h| && h[i].OnHeaderValue? ==> CR !in h[i].value)
    && (forall i :: 0 <= i < |h| - 1 && h[i].OnPartData? ==> h[i + 1] == OnPartDataEnd && Free(d, h[i].data))
  }

  lemma {:induction false} HearWell(d: string, h: seq<Event>, e: Event)
    requires WellHeard(d, h) && !EndsInData(h) && !e.OnPartData? && (e.OnHeaderValue? ==> CR !in e.value)
    ensures WellHeard(d, Hear(h, e)) && !EndsInData(Hear(h, e))
  {
    hide Free;
  }

  ghost predicate InPart(boundary: string, m: Machine) {
    exists h, s :: Scanning(boundary, h, s, m) && WellHeard(Delimiter(boundary), h) && !EndsInData(h)
  }

  ghost predicate Reports(boundary: string, m: Machine) {
    && Consistent(boundary, m)
    && if InBody(m) then InPart(boundary, m) else WellHeard(Delimiter(boundary), m.heard) && !EndsInData(m.heard)
  }

  /** In a body, a byte goes on with the scan or ends the part. */
  lemma {:induction false} ScanReports(boundary: string, h: seq<Event>, s: string, m: Machine, c: char)
    requires CR !in boundary && Scanning(boundary, h, s, m) && WellHeard(Delimiter(boundary), h) && !EndsInData(h)
    ensures Step(boundary, m, c).Accept? && Reports(boundary, Step(boundary, m, c).m)
  {
    hide Step;
    hide Scanning;
    hide WellHeard;
    hide Restartable;
    NoCrIsRestartable(boundary);
    ScanConsistent(boundary, h, s, m, c);
    var d, held, m' := Delimiter(boundary), |Held(boundary, m)|, Step(boundary, m, c).m;
    HeldIsPrefix(boundary, m);
    if c != d[held] {
      ScanBreaks(boundary, h, s, m, c);
      ScanningIsInPart(boundary, h, s + [c], m');
    } else if held + 1 < |d| {
      ScanHolds(boundary, h, s, m, c);
      ScanningIsInPart(boundary, h, s + [c], m');
    } else {
      ScanEnds(boundary, h, s, m, c);
      var s' := s + [c];
      var body := s'[..|s'| - |d|];
      BodyIsFree(boundary, h, s, m, body);
      AfterPartWell(boundary, h, body);
    }
  }

  lemma {:induction false} ScanConsistent(boundary: string, h: seq<Event>, s: string, m: Machine, c: char)
    requires Scanning(boundary, h, s, m)
    ensures Consistent(boundary, m) && InBody(m) && Consistent(boundary, Step(boundary, m, c).m)
    ensures |Held(boundary, m)| <= |s|
  {
    hide Step;
    StepConsistent(boundary, m, c);
  }

  lemma {:induction false} ScanningIsInPart(boundary: string, h: seq<Event>, s: string, m: Machine)
    requires Scanning(boundary, h, s, m) && WellHeard(Delimiter(boundary), h) && !EndsInData(h)
    ensures Reports(boundary, m)
  {
    hide WellHeard;
    hide BodySoFar;
    hide CompatibleAt;
  }

  /** The bytes before the first delimiter have none. */
  lemma {:induction false} BodyIsFree(boundary: string, h: seq<Event>, s: string, m: Machine, body: string)
    requires Scanning(boundary, h, s, m) && |body| == |s| - |Held(boundary, m)| && body == s[..|body|]
    ensures Free(Delimiter(boundary), body)
  {
    var d := Delimiter(boundary);
    forall k | 0 <= k < |body| ensures !OccursAt(d, body, k) {
      assert !CompatibleAt(d, s, k);
      if k + |d| <= |body| {
        var j :| 0 <= j < |d| && k + j < |s| && s[k + j] != d[j];
        assert body[k + j] == s[k + j];
      }
    }
  }

  lemma {:induction false} AfterPartWell(boundary: string, h: seq<Event>, body: string)
    requires |boundary| > 0 && WellHeard(Delimiter(boundary), h) && !EndsInData(h) && Free(Delimiter(boundary), body)
    ensures Reports(boundary, AfterPart(boundary, h, body))
  {
    hide Free;
  }

  /** Outside a body, what is reported is no data. */
  lemma {:induction false} OutsideReports(boundary: string, m: Machine, c: char)
    requires Reports(boundary, m) && !InBody(m) && m.state != PartDataStart
    ensures Reports(boundary, Step(boundary, m, c).m)
  {
    hide Hear;
    hide WellHeard;
    hide EndsInData;
    var d, h := Delimiter(boundary), m.heard;
    StepConsistent(boundary, m, c);
    HearWell(d, h, OnPartDataBegin);
    HearWell(d, h, OnHeaderField(m.pending));
    HearWell(d, h, OnHeaderValue(""));
    if c != CR { HearWell(d, h, OnHeaderValue([c])); }
    HearWell(d, h, OnBodyEnd);
  }

  lemma {:induction false} StepReports(boundary: string, m: Machine, c: char)
    requires CR !in boundary && Reports(boundary, m)
    ensures Reports(boundary, Step(boundary, m, c).m)
  {
    hide Step;
    hide WellHeard;
    hide Scanning;
    hide EndsInData;
    if InBody(m) {
      var h, s :| Scanning(boundary, h, s, m) && WellHeard(Delimiter(boundary), h) && !EndsInData(h);
      ScanReports(boundary, h, s, m, c);
    } else if m.state == PartDataStart {
      assert m == Body(m.heard, m.index);
      FirstScanned(boundary, m.heard, m.index, c);
      ScanReports(boundary, m.heard, "", m.(state := PartData, heard := BodySoFar(m.heard, "", 0)), c);
    } else {
      OutsideReports(boundary, m, c);
    }
  }

  lemma {:induction false} FeedReports(boundary: string, m: Machine, s: string)
    requires CR !in boundary && Consistent(boundary, m) && Reports(boundary, m)
    ensures Reports(boundary, Feed(boundary, m, s).m)
    decreases |s|
  {
    hide Step;
    hide Reports;
    if s != "" {
      FeedReports(boundary, m, s[..|s| - 1]);
      var f := Feed(boundary, m, s[..|s| - 1]);
      if !f.rejected { StepReports(boundary, f.m, s[|s| - 1]); }
    }
  }

  /** All that one call on any text reports. */
  lemma {:induction false} ChunkReports(boundary: string, s: string)
    requires |boundary| > 0 && CR !in boundary
    ensures WellHeard(Delimiter(boundary), Chunk(boundary, INITIAL, s).m.heard)
  {
    hide Feed;
    hide WellHeard;
    hide Scanning;
    hide Hear;
    NoneHeard(Delimiter(boundary));
    FeedReports(boundary, INITIAL, s);
    var m := Feed(boundary, INITIAL, s).m;
    if InBody(m) {
      var h, t :| Scanning(boundary, h, t, m) && WellHeard(Delimiter(boundary), h) && !EndsInData(h);
      ScanHeard(boundary, h, t, m);
    } else {
      HearWell(Delimiter(boundary), m.heard, OnHeaderField(m.pending));
    }
  }

  lemma {:induction false} NoneHeard(d: string)
    ensures WellHeard(d, []) && !EndsInData([])
  {
  }

  lemma {:induction false} ScanHeard(boundary: string, h: seq<Event>, s: string, m: Machine)
    requires Scanning(boundary, h, s, m) && WellHeard(Delimiter(boundary), h) && !EndsInData(h)
    ensures WellHeard(Delimiter(boundary), m.heard) && m.pending == ""
  {
    hide Free;
    hide CompatibleAt;
  }

  // ---- what the callbacks make of it

  lemma {:induction false} UnhearWell(d: string, h: seq<Event>, e: Event)
    requires WellHeard(d, Hear(h, e))
    ensures WellHeard(d, h)
    ensures e.OnHeaderValue? ==> CR !in e.value
    ensures EndsInData(h) && !e.OnPartData? ==> e == OnPartDataEnd && Free(d, h[|h| - 1].data)
  {
    hide Free;
    var r := Hear(h, e);
    forall i | 0 <= i < |h| && h[i].OnHeaderValue? ensures CR !in h[i].value {
      assert r[i].OnHeaderValue? && forall c :: c in h[i].value ==> c in r[i].value;
    }
    forall i | 0 <= i < |h| - 1 && h[i].OnPartData? ensures h[i + 1] == OnPartDataEnd && Free(d, h[i].data) {
      assert r[i] == h[i] && r[i + 1] == OnPartDataEnd;
    }
    if EndsInData(h) && !e.OnPartData? {
      assert r[|h| - 1] == h[|h| - 1] && r[|h|] == e;
    }
    if e.OnHeaderValue? {
      assert forall c :: c in e.value ==> c in r[|r| - 1].value;
    }
  }

  predicate GoodEntry(d: string, name: string, entry: (string, string)) {
    name != "" && Plain(name) && Plain(entry.0) && Free(d, entry.1)
  }

  predicate GoodForm(d: string, form: Form) { forall name :: name in form ==> GoodEntry(d, name, form[name]) }

  predicate Collects(d: string, c: Collected) {
    CR !in c.headerValue && Plain(c.name) && Plain(c.filename) && GoodForm(d, c.form)
  }

  predicate Within(a: string, b: string) { forall c :: c in a ==> c in b }

  lemma {:induction false} PiecesAreWithin(s: string, sep: char)
    ensures forall i :: 0 <= i < |Pieces(s, sep)| ==> sep !in Pieces(s, sep)[i] && Within(Pieces(s, sep)[i], s)
  {
    if s != "" { PiecesAreWithin(s[1..], sep); }
  }

  lemma {:induction false} TrimIsWithin(s: string)
    ensures Within(Trim(s), s)
  {
    RTrimIsWithin(s);
    LTrimIsWithin(RTrim(s));
  }

  lemma {:induction false} LTrimIsWithin(s: string)
    ensures Within(LTrim(s), s)
  {
    if s != "" && IsSpace(s[0]) { LTrimIsWithin(s[1..]); }
  }

  lemma {:induction false} RTrimIsWithin(s: string)
    ensures Within(RTrim(s), s)
  {
    if s != "" && IsSpace(s[|s| - 1]) { RTrimIsWithin(s[..|s| - 1]); }
  }

  /** A name or file name comes from between semicolons, and from after an equals sign. */
  lemma {:induction false} DisposedCollects(d: string, c: Collected, piece: string)
    requires Collects(d, c) && CR !in piece && ';' !in piece
    ensures Collects(d, Disposed(c, piece))
  {
    hide GoodForm;
    hide Trim;
    var t := Trim(piece);
    TrimIsWithin(piece);
    PiecesAreWithin(t, '=');
    var kv := Split(t, '=');
    if |kv| == 2 {
      assert kv == Pieces(t, '=');
      var v := TrimPairs(kv[1]);
      if v.Some? { assert Within(v.value, kv[1]) && Plain(v.value); }
    }
  }

  lemma {:induction false} AllDisposedCollects(d: string, c: Collected, pieces: seq<string>)
    requires Collects(d, c) && forall i :: 0 <= i < |pieces| ==> CR !in pieces[i] && ';' !in pieces[i]
    ensures Collects(d, AllDisposed(c, pieces))
  {
    hide Collects;
    hide Disposed;
    if pieces != [] {
      AllDisposedCollects(d, c, pieces[..|pieces| - 1]);
      DisposedCollects(d, AllDisposed(c, pieces[..|pieces| - 1]), pieces[|pieces| - 1]);
    }
  }

  lemma {:induction false} HeaderCollects(d: string, c: Collected)
    requires Collects(d, c)
    ensures Collects(d, HeaderHandled(c)) && HeaderHandled(c).partData == c.partData
  {
    hide AllDisposed;
    hide GoodForm;
    var pieces := Split(c.headerValue, ';');
    PiecesAreWithin(c.headerValue, ';');
    AllDisposedCollects(d, c, pieces);
    DisposedKeepsHeader(c, pieces);
  }

  lemma {:induction false} DataCollects(d: string, c: Collected)
    requires Collects(d, c) && Free(d, c.partData)
    ensures Collects(d, DataHandled(c)) && DataHandled(c).partData == ""
  {
    hide Free;
  }

  /** The data of the part that is being read: none, or the last that was heard. */
  function DataSoFar(h: seq<Event>): string { if EndsInData(h) then h[|h| - 1].data else "" }

  lemma {:induction false} EventCollects(d: string, c: Collected, h: seq<Event>, e: Event)
    requires WellHeard(d, Hear(h, e)) && Collects(d, c) && (c.aborted || c.partData == DataSoFar(h)) && d != ""
    ensures var z := Handled(c, e); Collects(d, z) && (z.aborted || z.partData == DataSoFar(Hear(h, e)))
  {
    hide HeaderHandled;
    hide DataHandled;
    hide GoodForm;
    hide Free;
    hide WellHeard;
    hide Plain;
    UnhearWell(d, h, e);
    HeaderCollects(d, c);
    EmptyIsFree(d);
    if e == OnPartDataEnd && !c.aborted { DataCollects(d, c); }
  }

  lemma {:induction false} EmptyIsFree(d: string)
    ensures Free(d, "")
  {
  }

  /** However the reports are sliced, what is collected from them is good. */
  lemma {:induction false} TraceCollects(d: string, trace: seq<Event>)
    requires WellHeard(d, Merged(trace)) && d != ""
    ensures var c := AllHandled(NOTHING, trace); Collects(d, c) && (c.aborted || c.partData == DataSoFar(Merged(trace)))
  {
    hide Handled;
    hide Hear;
    hide WellHeard;
    if trace != [] {
      var init, e := trace[..|trace| - 1], trace[|trace| - 1];
      UnhearWell(d, Merged(init), e);
      hide Collects;
      hide DataSoFar;
      TraceCollects(d, init);
      EventCollects(d, AllHandled(NOTHING, init), Merged(init), e);
    }
  }

  /** Whatever body a form is parsed from, with a boundary free of CR: no name in it is empty, no name or file
      name has a CR, a semicolon or an equals sign, and no content has the delimiter in it. */
  lemma {:induction false} FormIsGood(boundary: string, body: string, trace: seq<Event>)
    requires CR !in boundary && Merged(trace) == Chunk("--" + BeforeNul(boundary), INITIAL, body).m.heard
    ensures GoodForm(Delimiter("--" + BeforeNul(boundary)), AllHandled(NOTHING, trace).form)
  {
    hide Chunk;
    hide AllHandled;
    hide GoodForm;
    hide WellHeard;
    var b := "--" + BeforeNul(boundary);
    assert forall c :: c in BeforeNul(boundary) ==> c in boundary;
    ChunkReports(b, body);
    TraceCollects(Delimiter(b), trace);
  }
}
