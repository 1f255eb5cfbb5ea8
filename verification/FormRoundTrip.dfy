/** What the encoder writes, the parser reads back. */
module FormRoundTrip {
  import opened Bytes
  import opened HeaderText
  import opened MultipartMachine
  import opened MultipartDelimiter
  import opened MultipartGrammar
  import opened FormData
  import opened MultipartForm
  import opened FormContents

  const CONTENT_TYPE := "Content-Type"

  /** The content types of the source's table are such. */
  predicate Typed(p: Part) { p.File? ==> CR !in p.mime && (p.mime == "" || p.mime[0] != ' ') }

  /** The names can be read back from a header, and the body ends where the next delimiter begins. */
  predicate Readable(boundary: string, p: Part) {
    && p.name != "" && Plain(p.name) && (p.File? ==> Plain(p.base))
    && Free(Delimiter("--" + boundary), p.body)
  }

  predicate Encodable(boundary: string, p: Part) { Typed(p) && Readable(boundary, p) }

  /** A file whose suffix has no known content type. */
  predicate Untyped(p: Part) { p.File? && p.mime == "" }

  function Entry(p: Part): (string, string) { (if p.File? then p.base else "", p.body) }

  function FormOf(parts: seq<Part>): Form {
    if parts == [] then map[]
    else
      var p := parts[|parts| - 1];
      FormOf(parts[..|parts| - 1])[p.name := Entry(p)]
  }

  // ---- what the parser reports

  function HeaderEvents(p: Part): seq<Event> {
    [OnHeaderField(DISPOSITION), OnHeaderValue(DispositionOf(p))] +
    if p.File? then [OnHeaderField(CONTENT_TYPE), OnHeaderValue(p.mime)] else []
  }

  function PartEvents(p: Part): seq<Event> {
    [OnPartDataBegin] + HeaderEvents(p) + [OnHeadersComplete, OnPartData(p.body), OnPartDataEnd]
  }

  function Events(parts: seq<Part>): seq<Event> {
    if parts == [] then [] else Events(parts[..|parts| - 1]) + PartEvents(parts[|parts| - 1])
  }

  /** A colon and a space after a name, and the end of a line after a value. */
  lemma {:induction false} TakesColon(b: string, m: Machine)
    requires Consistent(b, m) && m.state == HeaderField
    ensures Takes(b, m, ": ", m.(state := HeaderValueStart, pending := "",
            heard := Hear(m.heard, OnHeaderField(m.pending))))
  {
    hide Hear;
    TakesTwo(b, m, ':', ' ');
  }

  lemma {:induction false} TakesValueLine(b: string, m: Machine, v: string)
    requires Consistent(b, m) && m.state == HeaderValueStart
    requires CR !in v && (v == "" || v[0] != ' ')
    ensures Takes(b, m, v + CRLF, m.(state := HeaderFieldStart, heard := Hear(m.heard, OnHeaderValue(v))))
  {
    hide Hear;
    if v == "" {
      TakesTwo(b, m, CR, LF);
      assert v + CRLF == CRLF;
    } else {
      TakesValue(b, m, v);
      var n := m.(state := HeaderValue, heard := Hear(m.heard, OnHeaderValue(v)));
      TakesTwo(b, n, CR, LF);
      HearTwice(m.heard, v, "");
      assert v + "" == v;
      TakesAppend(b, m, v, n, CRLF, n.(state := HeaderFieldStart));
    }
  }

  lemma {:induction false} TakesHeaderLine(b: string, m: Machine, name: string, v: string)
    requires Consistent(b, m) && m.state == HeaderFieldStart
    requires name != "" && forall i :: 0 <= i < |name| ==> IsNameByte(name[i])
    requires CR !in v && (v == "" || v[0] != ' ')
    requires m.heard != [] && !m.heard[|m.heard| - 1].OnHeaderField?
    ensures Takes(b, m, HeaderLine(name, v), m.(heard := m.heard + [OnHeaderField(name), OnHeaderValue(v)]))
  {
    hide Step;
    hide Feed;
    TakesName(b, m, name);
    var m1 := m.(state := HeaderField, pending := name);
    TakesColon(b, m1);
    var m2 := m.(state := HeaderValueStart, heard := m.heard + [OnHeaderField(name)]);
    assert m1.(state := HeaderValueStart, pending := "", heard := Hear(m1.heard, OnHeaderField(name))) == m2;
    TakesValueLine(b, m2, v);
    var m3 := m.(heard := m.heard + [OnHeaderField(name), OnHeaderValue(v)]);
    assert Hear(m2.heard, OnHeaderValue(v)) == m3.heard;
    TakesAppend(b, m1, ": ", m2, v + CRLF, m3);
    TakesAppend(b, m, name, m1, ": " + (v + CRLF), m3);
  }

  lemma {:induction false} NamesAreNames()
    ensures forall i :: 0 <= i < |DISPOSITION| ==> IsNameByte(DISPOSITION[i])
    ensures forall i :: 0 <= i < |CONTENT_TYPE| ==> IsNameByte(CONTENT_TYPE[i])
  {
  }

  lemma {:induction false} DispositionIsAValue(boundary: string, p: Part)
    requires Encodable(boundary, p)
    ensures DispositionOf(p) != "" && DispositionOf(p)[0] != ' ' && CR !in DispositionOf(p)
  {
  }

  lemma {:induction false} TakesHeaders(boundary: string, m: Machine, p: Part)
    requires var b := "--" + boundary; Consistent(b, m) && m.state == HeaderFieldStart && Encodable(boundary, p)
    requires m.heard != [] && !m.heard[|m.heard| - 1].OnHeaderField?
    ensures Takes("--" + boundary, m, Headers(p) + CRLF, m.(state := PartDataStart, heard := m.heard + HeaderEvents(p)))
  {
    hide Feed;
    hide Hear;
    hide DispositionOf;
    var b := "--" + boundary;
    NamesAreNames();
    DispositionIsAValue(boundary, p);
    var m1 := m.(heard := m.heard + [OnHeaderField(DISPOSITION), OnHeaderValue(DispositionOf(p))]);
    TakesHeaderLine(b, m, DISPOSITION, DispositionOf(p));
    var m2 := m.(heard := m.heard + HeaderEvents(p));
    var line := HeaderLine(DISPOSITION, DispositionOf(p));
    if p.File? {
      TakesHeaderLine(b, m1, CONTENT_TYPE, p.mime);
      assert m1.heard + [OnHeaderField(CONTENT_TYPE), OnHeaderValue(p.mime)] == m2.heard;
      TakesAppend(b, m, line, m1, HeaderLine(CONTENT_TYPE, p.mime), m2);
    } else {
      assert m1 == m2;
      assert Headers(p) == line;
    }
    TakesTwo(b, m2, CR, LF);
    TakesAppend(b, m, Headers(p), m2, CRLF, m2.(state := PartDataStart));
  }

  /** Where the parser stands after a delimiter, having read `parts` before it. */
  function AtDelimiter(boundary: string, parts: seq<Part>): Machine {
    if parts == [] then Machine(StartBoundary, |boundary| + 2, "", [])
    else Machine(PartDataAlmostEnd, |boundary| + 2, "", Events(parts))
  }

  lemma {:induction false} Regroup(n: string, h: string, body: string, d: string)
    ensures (n + (h + (n + body))) + d == n + ((h + n) + (body + d))
  {
  }

  /** The line end after a delimiter opens a part. */
  lemma {:induction false} PartOpens(boundary: string, m: Machine) returns (m1: Machine)
    requires m == Machine(StartBoundary, |boundary| + 2, "", []) ||
             (m.state == PartDataAlmostEnd && m.pending == "" && m.heard != [])
    ensures Takes("--" + boundary, m, CRLF, m1)
    ensures m1.state == HeaderFieldStart && m1.pending == "" && m1.heard == m.heard + [OnPartDataBegin]
  {
    hide Feed;
    var b := "--" + boundary;
    TakesTwo(b, m, CR, LF);
    m1 := Step(b, Step(b, m, CR).m, LF).m;
  }

  lemma {:induction false} TakesPart(boundary: string, m: Machine, p: Part)
    requires CR !in boundary && Encodable(boundary, p)
    requires m == Machine(StartBoundary, |boundary| + 2, "", []) ||
             (m.state == PartDataAlmostEnd && m.pending == "" && m.heard != [])
    ensures Takes("--" + boundary, m, PartText(p) + Delimiter("--" + boundary),
                  Machine(PartDataAlmostEnd, |boundary| + 2, "", m.heard + PartEvents(p)))
  {
    hide Feed;
    hide Step;
    hide Headers;
    hide HeaderEvents;
    var b := "--" + boundary;
    var m1 := PartOpens(boundary, m);
    TakesHeaders(boundary, m1, p);
    var m2 := m1.(state := PartDataStart, heard := m1.heard + HeaderEvents(p));
    PartExtracted(b, m2.heard, m2.index, p.body);
    var m3 := AfterPart(b, m2.heard, p.body);
    assert m3.heard == m.heard + PartEvents(p);
    ghost var headers, tail := Headers(p) + CRLF, p.body + Delimiter(b);
    assert PartText(p) + Delimiter(b) == CRLF + (headers + tail) by { Regroup(CRLF, Headers(p), p.body, Delimiter(b)); }
    hide *;
    TakesAppend(b, m1, Headers(p) + CRLF, m2, p.body + Delimiter(b), m3);
    TakesAppend(b, m, CRLF, m1, Headers(p) + CRLF + (p.body + Delimiter(b)), m3);
  }

  lemma {:induction false} TakesParts(boundary: string, parts: seq<Part>)
    requires CR !in boundary && forall i :: 0 <= i < |parts| ==> Encodable(boundary, parts[i])
    ensures Takes("--" + boundary, INITIAL, (PartsText(boundary, parts) + Delimiter("--" + boundary))[2..],
                  AtDelimiter(boundary, parts))
  {
    var b := "--" + boundary;
    if parts == [] {
      TakesBoundary(b, |b|);
      hide Feed;
      assert b[..|b|] == b;
      assert ("" + Delimiter(b))[2..] == b;
    } else {
      hide Feed;
      hide PartText;
      var init, p := parts[..|parts| - 1], parts[|parts| - 1];
      TakesParts(boundary, init);
      TakesPart(boundary, AtDelimiter(boundary, init), p);
      var done, more := PartsText(boundary, init) + Delimiter(b), PartText(p) + Delimiter(b);
      assert AtDelimiter(boundary, parts)
             == Machine(PartDataAlmostEnd, |b|, "", AtDelimiter(boundary, init).heard + PartEvents(p));
      NextText(PartsText(boundary, init), Delimiter(b), PartText(p));
      hide *;
      TakesAppend(b, INITIAL, done[2..], AtDelimiter(boundary, init), more, AtDelimiter(boundary, parts));
    }
  }

  lemma {:induction false} NextText(t: string, d: string, p: string)
    requires |d| >= 2
    ensures ((t + (d + p)) + d)[2..] == (t + d)[2..] + (p + d)
  {
    assert (t + (d + p)) + d == (t + d) + (p + d);
  }

  /** The parser accepts the encoder's text and reports every part of it in order. */
  lemma {:induction false} EncodedTextIsHeard(boundary: string, parts: seq<Part>)
    requires CR !in boundary && parts != [] && forall i :: 0 <= i < |parts| ==> Encodable(boundary, parts[i])
    ensures var f := Chunk("--" + boundary, INITIAL, EncodedText(boundary, parts)[2..]);
            !f.rejected && f.m == Machine(End, |boundary| + 2, "", Events(parts) + [OnBodyEnd])
  {
    hide Feed;
    hide Step;
    hide PartsText;
    hide Events;
    hide Delimiter;
    hide Encodable;
    EncodedParts(boundary, parts);
    var b := "--" + boundary;
    var text := PartsText(boundary, parts) + Delimiter(b);
    TakesParts(boundary, parts);
    var m := AtDelimiter(boundary, parts);
    var m1 := Machine(End, |boundary| + 2, "", Events(parts) + [OnBodyEnd]);
    TakesEnd(boundary, parts);
    TakesAppend(b, m, "--", m1, CRLF, m1);
    TakesAppend(b, INITIAL, text[2..], m, "--" + CRLF, m1);
  }

  /** What closes the text. */
  lemma {:induction false} TakesEnd(boundary: string, parts: seq<Part>)
    requires parts != []
    ensures var b, m1 := "--" + boundary, Machine(End, |boundary| + 2, "", Events(parts) + [OnBodyEnd]);
            Takes(b, AtDelimiter(boundary, parts), "--", m1) && Takes(b, m1, CRLF, m1)
  {
    hide Feed;
    var b, m := "--" + boundary, AtDelimiter(boundary, parts);
    var m1 := Machine(End, |boundary| + 2, "", Events(parts) + [OnBodyEnd]);
    assert Events(parts)[|Events(parts)| - 1] == OnPartDataEnd;
    TakesTwo(b, m, '-', '-');
    TakesTwo(b, m1, CR, LF);
  }

  lemma {:induction false} EncodedParts(boundary: string, parts: seq<Part>)
    requires parts != []
    ensures |PartsText(boundary, parts) + Delimiter("--" + boundary)| >= 2
    ensures EncodedText(boundary, parts)[2..]
            == (PartsText(boundary, parts) + Delimiter("--" + boundary))[2..] + ("--" + CRLF)
  {
    hide PartsText;
  }

  // ---- what the callbacks make of it

  lemma {:induction false} HandledAppend(c: Collected, a: seq<Event>, b: seq<Event>)
    ensures AllHandled(c, a + b) == AllHandled(AllHandled(c, a), b)
  {
    hide Handled;
    if b == [] {
      assert a + b == a;
    } else {
      assert (a + b)[..|a + b| - 1] == a + b[..|b| - 1];
      HandledAppend(c, a, b[..|b| - 1]);
    }
  }

  lemma {:induction false} HandledFirst(c: Collected, e: Event, rest: seq<Event>)
    ensures AllHandled(c, [e] + rest) == AllHandled(Handled(c, e), rest)
  {
    hide Handled;
    assert [e][..0] == [];
    HandledAppend(c, [e], rest);
  }

  function Quoted(v: string): string { ['"'] + v + ['"'] }

  lemma {:induction false} KeyAndValue(key: string, v: string)
    requires key != "" && !IsSpace(key[0]) && '=' !in key && '=' !in v
    ensures Split(Trim([' '] + (key + (['='] + Quoted(v)))), '=') == [key] + [Quoted(v)]
    ensures TrimPairs(Quoted(v)) == Some(v)
  {
    var t := key + (['='] + Quoted(v));
    assert t[|t| - 1] == '"';
    TrimOneSpace(t);
    FirstPiece(key, '=', Quoted(v));
    OnePiece(Quoted(v), '=');
    assert Quoted(v)[1..|v| + 1] == v;
  }

  /** A name or file name between quotes is found again by splitting and trimming. */
  lemma {:induction false} PieceDisposed(c: Collected, v: string)
    requires !c.aborted && Plain(v)
    ensures Disposed(c, [' '] + ("name" + (['='] + Quoted(v)))) == c.(name := v)
    ensures Disposed(c, [' '] + ("filename" + (['='] + Quoted(v)))) == c.(filename := v)
  {
    hide Trim;
    hide Split;
    hide TrimPairs;
    KeyAndValue("name", v);
    KeyAndValue("filename", v);
    assert "filename"[0] != "name"[0];
  }

  lemma {:induction false} FormDataIgnored(c: Collected)
    ensures Disposed(c, "form-data") == c
  {
    TrimOneSpace("form-data");
    OnePiece("form-data", '=');
  }

  lemma {:induction false} DispositionDisposed(c: Collected, p: Part)
    requires !c.aborted && Plain(p.name) && (p.File? ==> Plain(p.base))
    ensures AllDisposed(c, Split(DispositionOf(p), ';')) ==
              c.(name := p.name, filename := if p.File? then p.base else c.filename)
  {
    hide AllDisposed;
    hide Disposed;
    hide Split;
    hide Pieces;
    hide DispositionOf;
    hide Quoted;
    var a := "form-data";
    var n := [' '] + ("name" + (['='] + Quoted(p.name)));
    PieceDisposed(c, p.name);
    FormDataIgnored(c);
    NoSemicolon("name", p.name);
    if p.File? {
      var f := [' '] + ("filename" + (['='] + Quoted(p.base)));
      PieceDisposed(c.(name := p.name), p.base);
      NoSemicolon("filename", p.base);
      FileDisposition(p);
      SplitIs(DispositionOf(p), ';');
      FirstPiece(a, ';', n + ([';'] + f));
      FirstPiece(n, ';', f);
      OnePiece(f, ';');
      ThreeDisposed(c, a, n, f);
    } else {
      ParamDisposition(p);
      SplitIs(DispositionOf(p), ';');
      FirstPiece(a, ';', n);
      OnePiece(n, ';');
      TwoDisposed(c, a, n);
    }
  }

  lemma {:induction false} SplitIs(s: string, sep: char)
    requires s != ""
    ensures Split(s, sep) == Pieces(s, sep)
  {
    hide Pieces;
  }

  lemma {:induction false} NoSemicolon(key: string, v: string)
    requires ';' !in key && ';' !in v
    ensures ';' !in [' '] + (key + (['='] + Quoted(v))) && [' '] + (key + (['='] + Quoted(v))) != ""
  {
  }

  lemma {:induction false} ParamDisposition(p: Part)
    requires p.Param?
    ensures DispositionOf(p) == "form-data" + ([';'] + ([' '] + ("name" + (['='] + Quoted(p.name)))))
  {
    assert "form-data; name=\"" == "form-data" + ([';'] + ([' '] + ("name" + (['='] + ['"']))));
    Regroup7("form-data", [';'], [' '], "name", ['='], ['"'], p.name);
  }

  lemma {:induction false} Regroup7(a: string, b: string, c: string, d: string, e: string, f: string, v: string)
    ensures (a + (b + (c + (d + (e + f))))) + v + f == a + (b + (c + (d + (e + (f + v + f)))))
  {
  }

  lemma {:induction false} FileDisposition(p: Part)
    requires p.File?
    ensures DispositionOf(p) == "form-data" + ([';'] + (([' '] + ("name" + (['='] + Quoted(p.name)))) +
              ([';'] + ([' '] + ("filename" + (['='] + Quoted(p.base)))))))
  {
    ParamDisposition(Param(p.name, ""));
    assert "\"; filename=\"" == ['"'] + ([';'] + ([' '] + ("filename" + (['='] + ['"']))));
    var x := "form-data; name=\"" + p.name;
    Regroup7(['"'], [';'], [' '], "filename", ['='], ['"'], p.base);
    Regroup3(x, "\"; filename=\"", p.base, ['"']);
    Regroup4(x + ['"'], "form-data", [';'], [' '] + ("name" + (['='] + Quoted(p.name))),
        [';'] + ([' '] + ("filename" + (['='] + Quoted(p.base)))));
    Regroup2(x, ['"'], [';'] + ([' '] + ("filename" + (['='] + Quoted(p.base)))));
  }

  lemma {:induction false} Regroup2(a: string, b: string, c: string)
    ensures a + (b + c) == (a + b) + c
  {
  }

  lemma {:induction false} Regroup3(a: string, b: string, c: string, d: string)
    ensures a + b + c + d == a + (b + c + d)
  {
  }

  lemma {:induction false} Regroup4(x: string, a: string, b: string, c: string, d: string)
    requires x == a + (b + c)
    ensures x + d == a + (b + (c + d))
  {
  }

  lemma {:induction false} TwoDisposed(c: Collected, a: string, b: string)
    ensures AllDisposed(c, [a] + [b]) == Disposed(Disposed(c, a), b)
  {
    hide Disposed;
    assert ([a] + [b])[..1] == [a] && [a][..0] == [];
    assert AllDisposed(c, []) == c;
    assert AllDisposed(c, [a]) == Disposed(c, a);
  }

  lemma {:induction false} ThreeDisposed(c: Collected, a: string, b: string, d: string)
    ensures AllDisposed(c, [a] + ([b] + [d])) == Disposed(Disposed(Disposed(c, a), b), d)
  {
    hide Disposed;
    assert ([a] + ([b] + [d]))[..2] == [a] + [b];
    TwoDisposed(c, a, b);
  }

  /** Between two parts only the form is left, and the header name of a part without a content
      type: it is the next part's header name that it spoils. */
  function Between(spoiled: bool, form: Form): Collected {
    Collected(if spoiled then CONTENT_TYPE else "", "", "", "", "", form, false)
  }

  lemma {:induction false} TypesDiffer()
    ensures EqualIgnoringCase(DISPOSITION, DISPOSITION)
    ensures !EqualIgnoringCase(CONTENT_TYPE, DISPOSITION)
    ensures !EqualIgnoringCase(CONTENT_TYPE + DISPOSITION, DISPOSITION)
  {
  }

  /** The first header of a part, just read, after a part that may have spoiled its name. */
  function FirstHeader(spoiled: bool, form: Form, p: Part): Collected {
    Between(spoiled, form).(headerField := (if spoiled then CONTENT_TYPE else "") + DISPOSITION,
        headerValue := DispositionOf(p))
  }

  function NameFound(spoiled: bool, form: Form, p: Part): Collected {
    Between(false, form).(name := if spoiled then "" else p.name,
                          filename := if spoiled || p.Param? then "" else p.base)
  }

  lemma {:induction false} FirstHeaderRead(spoiled: bool, form: Form, p: Part)
    ensures AllHandled(Between(spoiled, form),
            [OnPartDataBegin, OnHeaderField(DISPOSITION), OnHeaderValue(DispositionOf(p))])
              == FirstHeader(spoiled, form, p)
  {
    hide DispositionOf;
    hide AllHandled;
    HandledThree(Between(spoiled, form), OnPartDataBegin, OnHeaderField(DISPOSITION), OnHeaderValue(DispositionOf(p)));
    assert "" + DispositionOf(p) == DispositionOf(p);
  }

  lemma {:induction false} FirstHeaderHandled(spoiled: bool, form: Form, p: Part)
    requires p.name != "" && Plain(p.name) && (p.File? ==> Plain(p.base))
    ensures HeaderHandled(FirstHeader(spoiled, form, p)) == NameFound(spoiled, form, p)
  {
    var c := FirstHeader(spoiled, form, p);
    assert DispositionOf(p) != "";
    TypesDiffer();
    DispositionDisposed(c, p);
    hide AllDisposed;
    hide Plain;
    hide DispositionOf;
    hide EqualIgnoringCase;
    assert "" + DISPOSITION == DISPOSITION;
  }

  /** The second header of a file, and the end of its headers. */
  lemma {:induction false} TypeHeaderRead(c: Collected, mime: string)
    requires !c.aborted && HeaderHandled(c).headerField == "" == HeaderHandled(c).headerValue
    requires !HeaderHandled(c).aborted
    ensures AllHandled(c, [OnHeaderField(CONTENT_TYPE), OnHeaderValue(mime), OnHeadersComplete]) ==
              HeaderHandled(c).(headerField := if mime == "" then CONTENT_TYPE else "")
  {
    hide AllHandled;
    hide EqualIgnoringCase;
    HandledThree(c, OnHeaderField(CONTENT_TYPE), OnHeaderValue(mime), OnHeadersComplete);
    var d := HeaderHandled(c);
    assert "" + CONTENT_TYPE == CONTENT_TYPE && "" + mime == mime;
    assert Handled(Handled(c, OnHeaderField(CONTENT_TYPE)), OnHeaderValue(mime)) ==
             d.(headerField := CONTENT_TYPE, headerValue := mime);
    TypesDiffer();
  }

  /** The name of a part is found when its headers are done, unless the part before spoiled it. */
  lemma {:induction false} HeadersCollected(spoiled: bool, form: Form, p: Part)
    requires p.name != "" && Plain(p.name) && (p.File? ==> Plain(p.base))
    ensures AllHandled(Between(spoiled, form), [OnPartDataBegin] + HeaderEvents(p) + [OnHeadersComplete]) ==
              NameFound(spoiled, form, p).(headerField := if Untyped(p) then CONTENT_TYPE else "")
  {
    hide Plain;
    hide DispositionOf;
    hide FirstHeader;
    hide HeaderHandled;
    var c, c1 := Between(spoiled, form), FirstHeader(spoiled, form, p);
    FirstHeaderRead(spoiled, form, p);
    FirstHeaderHandled(spoiled, form, p);
    var head := [OnPartDataBegin, OnHeaderField(DISPOSITION), OnHeaderValue(DispositionOf(p))];
    assert !c1.aborted by { FirstHeaderNotAborted(spoiled, form, p); }
    if p.File? {
      var tail := [OnHeaderField(CONTENT_TYPE), OnHeaderValue(p.mime), OnHeadersComplete];
      TypeHeaderRead(c1, p.mime);
      hide AllHandled;
      HandledAppend(c, head, tail);
      assert [OnPartDataBegin] + HeaderEvents(p) + [OnHeadersComplete] == head + tail;
    } else {
      assert AllHandled(c1, [OnHeadersComplete]) == Handled(c1, OnHeadersComplete) by {
        HandledFirst(c1, OnHeadersComplete, []);
        assert [OnHeadersComplete] + [] == [OnHeadersComplete];
      }
      hide AllHandled;
      HandledAppend(c, head, [OnHeadersComplete]);
      assert [OnPartDataBegin] + HeaderEvents(p) + [OnHeadersComplete] == head + [OnHeadersComplete];
    }
  }

  lemma {:induction false} FirstHeaderNotAborted(spoiled: bool, form: Form, p: Part)
    ensures !FirstHeader(spoiled, form, p).aborted
  {
  }

  lemma {:induction false} HandledThree(c: Collected, d: Event, e: Event, f: Event)
    ensures AllHandled(c, [d, e, f]) == Handled(Handled(Handled(c, d), e), f)
  {
    hide Handled;
    assert [d, e, f][..2] == [d, e] && [d, e][..1] == [d] && [d][..0] == [];
    assert AllHandled(c, [d, e]) == Handled(AllHandled(c, [d]), e);
    assert AllHandled(c, []) == c;
  }

  lemma {:induction false} PartCollected(spoiled: bool, form: Form, p: Part)
    requires p.name != "" && Plain(p.name) && (p.File? ==> Plain(p.base))
    ensures AllHandled(Between(spoiled, form), PartEvents(p)) ==
              Between(Untyped(p), if spoiled then form else form[p.name := Entry(p)])
  {
    var c := AllHandled(Between(spoiled, form), [OnPartDataBegin] + HeaderEvents(p) + [OnHeadersComplete]);
    HeadersCollected(spoiled, form, p);
    assert "" + p.body == p.body;
    assert AllHandled(c, [OnPartData(p.body), OnPartDataEnd]) ==
             Between(Untyped(p), if spoiled then form else form[p.name := Entry(p)]) by {
      assert [OnPartData(p.body), OnPartDataEnd][..1] == [OnPartData(p.body)] && [OnPartData(p.body)][..0] == [];
      assert AllHandled(c, []) == c;
      assert AllHandled(c, [OnPartData(p.body)]) == Handled(c, OnPartData(p.body));
    }
    hide Handled;
    HandledAppend(Between(spoiled, form), [OnPartDataBegin] + HeaderEvents(p) + [OnHeadersComplete],
        [OnPartData(p.body), OnPartDataEnd]);
    assert PartEvents(p) == [OnPartDataBegin] + HeaderEvents(p) + [OnHeadersComplete]
           + [OnPartData(p.body), OnPartDataEnd];
  }

  predicate SpoilsNext(parts: seq<Part>) { parts != [] && Untyped(parts[|parts| - 1]) }

  /** The parts that are not preceded by a file without a content type. */
  function Survivors(parts: seq<Part>): Form {
    if parts == [] then map[]
    else
      var init, p := parts[..|parts| - 1], parts[|parts| - 1];
      if SpoilsNext(init) then Survivors(init) else Survivors(init)[p.name := Entry(p)]
  }

  lemma {:induction false} PartsCollected(parts: seq<Part>)
    requires forall i :: 0 <= i < |parts| ==>
             parts[i].name != "" && Plain(parts[i].name) && (parts[i].File? ==> Plain(parts[i].base))
    ensures AllHandled(NOTHING, Events(parts)) == Between(SpoilsNext(parts), Survivors(parts))
  {
    hide AllHandled;
    hide PartEvents;
    hide Plain;
    if parts == [] {
      assert AllHandled(NOTHING, []) == NOTHING by { HandledNone(); }
    } else {
      var init, p := parts[..|parts| - 1], parts[|parts| - 1];
      PartsCollected(init);
      PartCollected(SpoilsNext(init), Survivors(init), p);
      HandledAppend(NOTHING, Events(init), PartEvents(p));
    }
  }

  lemma {:induction false} HandledNone()
    ensures AllHandled(NOTHING, []) == NOTHING
  {
  }

  predicate DistinctNames(parts: seq<Part>) {
    forall i, j :: 0 <= i < j < |parts| ==> parts[i].name != parts[j].name
  }

  lemma {:induction false} SurvivorNames(parts: seq<Part>, name: string)
    requires name in Survivors(parts)
    ensures exists j :: 0 <= j < |parts| && parts[j].name == name && (j == 0 || !Untyped(parts[j - 1]))
  {
    var init, p := parts[..|parts| - 1], parts[|parts| - 1];
    if !SpoilsNext(init) && name == p.name {
      assert parts[|parts| - 1].name == name;
    } else {
      SurvivorNames(init, name);
      var j :| 0 <= j < |init| && init[j].name == name && (j == 0 || !Untyped(init[j - 1]));
      assert parts[j].name == name;
    }
  }

  lemma {:induction false} FormNames(parts: seq<Part>, j: nat)
    requires j < |parts|
    ensures parts[j].name in FormOf(parts)
  {
    if j < |parts| - 1 {
      FormNames(parts[..|parts| - 1], j);
    }
  }

  lemma {:induction false} AllSurvive(parts: seq<Part>)
    requires forall i :: 0 <= i < |parts| - 1 ==> !Untyped(parts[i])
    ensures Survivors(parts) == FormOf(parts)
  {
    if parts != [] {
      AllSurvive(parts[..|parts| - 1]);
    }
  }

  /** Nothing is lost exactly when only the last part may lack a content type. */
  lemma {:induction false} SurvivorsAreAll(parts: seq<Part>)
    requires DistinctNames(parts)
    ensures Survivors(parts) == FormOf(parts) <==> forall i :: 0 <= i < |parts| - 1 ==> !Untyped(parts[i])
  {
    if forall i :: 0 <= i < |parts| - 1 ==> !Untyped(parts[i]) {
      AllSurvive(parts);
    } else {
      var i :| 0 <= i < |parts| - 1 && Untyped(parts[i]);
      FormNames(parts, i + 1);
      if parts[i + 1].name in Survivors(parts) {
        SurvivorNames(parts, parts[i + 1].name);
      }
    }
  }

  lemma {:induction false} EventsAreNamed(parts: seq<Part>)
    ensures ValuesAreNamed(Events(parts))
  {
    if parts != [] {
      var init, p := parts[..|parts| - 1], parts[|parts| - 1];
      EventsAreNamed(init);
      var a, b := Events(init), PartEvents(p);
      assert ValuesAreNamed(b);
      forall i | 0 <= i < |a + b| && (a + b)[i].OnHeaderValue? && (a + b)[i].value != ""
        ensures i > 0 && (a + b)[i - 1].OnHeaderField? && (a + b)[i - 1].name != ""
      {
        if i >= |a| { assert b[i - |a|].OnHeaderValue?; }
      }
    }
  }

  /** A trace, sliced in whatever way, of parsing the encoder's text less its leading CRLF. */
  ghost predicate Reparsing(boundary: string, parts: seq<Part>, trace: seq<Event>) {
    Merged(trace) == Chunk("--" + BeforeNul(boundary), INITIAL, EncodedText(boundary, parts)[2..]).m.heard
  }

  /** Nothing that the encoder or the parser's callbacks cannot carry. */
  predicate Carried(boundary: string, parts: seq<Part>) {
    && '\0' !in boundary
    && (forall i :: 0 <= i < |parts| ==> Readable(boundary, parts[i]))
    && forall i :: 0 <= i < |parts| - 1 ==> !Untyped(parts[i])
  }

  /** The round trip loses nothing, however the parser slices its reports, if and only if there is no NUL in the
      boundary, no name is empty, no name or file name has a CR, a semicolon or an equals sign, no body has the
      delimiter in it, and no file but the last lacks a content type. */
  lemma {:induction false} RoundTrip(boundary: string, parts: seq<Part>)
    requires CR !in boundary && parts != [] && DistinctNames(parts)
    requires forall i :: 0 <= i < |parts| ==> Typed(parts[i])
    ensures forall trace :: Reparsing(boundary, parts, trace) ==>
              (FormCollected(AllHandled(NOTHING, trace)) == Some(FormOf(parts)) <==> Carried(boundary, parts))
  {
    hide *;
    forall trace | Reparsing(boundary, parts, trace)
      ensures FormCollected(AllHandled(NOTHING, trace)) == Some(FormOf(parts)) <==> Carried(boundary, parts)
    {
      TraceRoundTrip(boundary, parts, trace);
    }
  }

  lemma {:induction false} TraceRoundTrip(boundary: string, parts: seq<Part>, trace: seq<Event>)
    requires CR !in boundary && parts != [] && DistinctNames(parts)
    requires (forall i :: 0 <= i < |parts| ==> Typed(parts[i])) && Reparsing(boundary, parts, trace)
    ensures FormCollected(AllHandled(NOTHING, trace)) == Some(FormOf(parts)) <==> Carried(boundary, parts)
  {
    hide Chunk;
    hide EncodedText;
    hide AllHandled;
    hide Readable;
    if '\0' in boundary {
      CutBoundary(boundary, parts);
      assert trace == [] by { MergedNone(trace); }
      HandledNone();
      FormNames(parts, 0);
    } else {
      WithoutNul(boundary);
      if forall i :: 0 <= i < |parts| ==> Readable(boundary, parts[i]) {
        ReadableParts(boundary, parts, trace);
      } else {
        EncodedBegins(boundary, parts);
        FormIsGood(boundary, EncodedText(boundary, parts)[2..], trace);
        var i :| 0 <= i < |parts| && !Readable(boundary, parts[i]);
        BadEntry(boundary, parts, i);
      }
    }
  }

  lemma {:induction false} MergedNone(trace: seq<Event>)
    ensures Merged(trace) == [] ==> trace == []
  {
  }

  lemma {:induction false} ReadableParts(boundary: string, parts: seq<Part>, trace: seq<Event>)
    requires CR !in boundary && '\0' !in boundary && parts != [] && DistinctNames(parts)
             && Reparsing(boundary, parts, trace)
    requires forall i :: 0 <= i < |parts| ==> Encodable(boundary, parts[i])
    ensures FormCollected(AllHandled(NOTHING, trace)) == Some(FormOf(parts))
            <==> forall i :: 0 <= i < |parts| - 1 ==> !Untyped(parts[i])
  {
    hide Chunk;
    hide EncodedText;
    hide AllHandled;
    hide Encodable;
    WithoutNul(boundary);
    EncodedTextIsHeard(boundary, parts);
    EncodedPartsCollected(boundary, parts);
    SurvivorsAreAll(parts);
    SlicesAreInvisible(trace);
  }

  /** A form with such a part's entry is none that can be collected. */
  lemma {:induction false} BadEntry(boundary: string, parts: seq<Part>, i: nat)
    requires DistinctNames(parts) && i < |parts| && !Readable(boundary, parts[i])
    ensures !GoodForm(Delimiter("--" + boundary), FormOf(parts))
  {
    hide Free;
    hide Plain;
    FormEntry(parts, i);
  }

  lemma {:induction false} FormEntry(parts: seq<Part>, i: nat)
    requires DistinctNames(parts) && i < |parts|
    ensures parts[i].name in FormOf(parts) && FormOf(parts)[parts[i].name] == Entry(parts[i])
  {
    hide Entry;
    if i < |parts| - 1 { FormEntry(parts[..|parts| - 1], i); }
  }

  /** A file without a content type in front of another. */
  lemma {:induction false} UntypedFileSpoils()
    ensures var parts := [File("a", "x", "", ""), File("b", "y", "text/plain", "")];
            forall trace :: Reparsing("B", parts, trace) ==>
              FormCollected(AllHandled(NOTHING, trace)) != Some(FormOf(parts))
  {
    hide Reparsing;
    hide FormOf;
    hide Free;
    hide FormCollected;
    hide AllHandled;
    var parts := [File("a", "x", "", ""), File("b", "y", "text/plain", "")];
    assert Untyped(parts[0]);
    RoundTrip("B", parts);
  }

  /** A parameter with an equals sign in its name. */
  lemma {:induction false} EqualsInNameSpoils()
    ensures var parts := [Param("a=b", "")];
            forall trace :: Reparsing("B", parts, trace) ==>
              FormCollected(AllHandled(NOTHING, trace)) != Some(FormOf(parts))
  {
    hide Reparsing;
    hide FormOf;
    hide Free;
    hide FormCollected;
    hide AllHandled;
    var parts := [Param("a=b", "")];
    assert "a=b"[1] == '=';
    assert !Readable("B", parts[0]);
    RoundTrip("B", parts);
  }

  /** A boundary cut at its NUL: the encoder's text is rejected there, and nothing has been heard. */
  lemma {:induction false} CutBoundary(boundary: string, parts: seq<Part>)
    requires '\0' in boundary && parts != []
    ensures Chunk("--" + BeforeNul(boundary), INITIAL, EncodedText(boundary, parts)[2..]).m.heard == []
  {
    hide Feed;
    hide Step;
    hide BeforeNul;
    hide EncodedText;
    hide Hear;
    EncodedBegins(boundary, parts);
    var cut, text := BeforeNul(boundary), EncodedText(boundary, parts)[2..];
    var b := "--" + cut;
    CutText(boundary, cut, text);
    TakesBoundary(b, |b|);
    CutRejects(b, Machine(StartBoundary, |b|, "", []));
    FeedNext(b, INITIAL, text, |b|, Machine(StartBoundary, |b|, "", []));
  }

  lemma {:induction false} CutText(boundary: string, cut: string, text: string)
    requires cut < boundary && boundary[|cut|] == '\0' && |text| >= |boundary| + 2
             && text[..|boundary| + 2] == "--" + boundary
    ensures var b := "--" + cut; |b| < |text| && b[..|b|] == b == text[..|b|] && text[|b|] == '\0'
  {
    assert text[..|boundary| + 2][|cut| + 2] == boundary[|cut|];
    assert text[..|cut| + 2] == text[..|boundary| + 2][..|cut| + 2];
  }

  lemma {:induction false} CutRejects(b: string, m: Machine)
    requires |b| > 0 && m == Machine(StartBoundary, |b|, "", [])
    ensures Step(b, m, '\0').Reject? && Step(b, m, '\0').m.heard == []
  {
  }

  lemma {:induction false} EncodedBegins(boundary: string, parts: seq<Part>)
    ensures var t := EncodedText(boundary, parts); |t| >= |boundary| + 4 && t[2..][..|boundary| + 2] == "--" + boundary
  {
    PartsBegin(boundary, parts);
    var t, d := EncodedText(boundary, parts), Delimiter("--" + boundary);
    assert d <= t by {
      if parts == [] { assert t == d + "--" + CRLF; }
    }
    assert t[2..][..|boundary| + 2] == t[..|d|][2..];
  }

  lemma {:induction false} PartsBegin(boundary: string, parts: seq<Part>)
    ensures parts != [] ==> Delimiter("--" + boundary) <= PartsText(boundary, parts)
  {
    if |parts| > 1 {
      PartsBegin(boundary, parts[..|parts| - 1]);
    } else if |parts| == 1 {
      assert parts[..0] == [];
    }
  }

  lemma {:induction false} EncodedPartsCollected(boundary: string, parts: seq<Part>)
    requires forall i :: 0 <= i < |parts| ==> Encodable(boundary, parts[i])
    ensures FormCollected(AllHandled(NOTHING, Events(parts) + [OnBodyEnd])) == Some(Survivors(parts))
    ensures ValuesAreNamed(Events(parts) + [OnBodyEnd])
  {
    hide *;
    PlainParts(boundary, parts);
    PartsCollected(parts);
    EventsAreNamed(parts);
    var c := Between(SpoilsNext(parts), Survivors(parts));
    BodyEndHandled(Events(parts), c);
    BetweenForm(SpoilsNext(parts), Survivors(parts));
    BodyEndNamed(Events(parts));
  }

  lemma {:induction false} PlainParts(boundary: string, parts: seq<Part>)
    requires forall i :: 0 <= i < |parts| ==> Encodable(boundary, parts[i])
    ensures forall i :: 0 <= i < |parts| ==>
              parts[i].name != "" && Plain(parts[i].name) && (parts[i].File? ==> Plain(parts[i].base))
  {
    hide Free;
    hide Plain;
  }

  lemma {:induction false} BodyEndHandled(trace: seq<Event>, c: Collected)
    requires AllHandled(NOTHING, trace) == c
    ensures AllHandled(NOTHING, trace + [OnBodyEnd]) == c
  {
    assert (trace + [OnBodyEnd])[..|trace|] == trace;
    assert Handled(c, OnBodyEnd) == c;
  }

  lemma {:induction false} BetweenForm(spoiled: bool, form: Form)
    ensures FormCollected(Between(spoiled, form)) == Some(form)
  {
  }

  lemma {:induction false} BodyEndNamed(trace: seq<Event>)
    requires ValuesAreNamed(trace)
    ensures ValuesAreNamed(trace + [OnBodyEnd])
  {
    var all := trace + [OnBodyEnd];
    forall i | 0 <= i < |all| && all[i].OnHeaderValue? && all[i].value != ""
      ensures i > 0 && all[i - 1].OnHeaderField? && all[i - 1].name != ""
    {
      assert all[i] == trace[i];
    }
  }

  /** The encoder and the parser, run one after the other. */
  method EncodeThenParse(boundary: string, params: seq<Part>, files: seq<Part>) returns (form: Option<Form>)
    requires CR !in boundary && files != []
    requires forall i :: 0 <= i < |params| ==> params[i].Param?
    requires forall i :: 0 <= i < |files| ==> files[i].File? && Typed(files[i])
    requires DistinctNames(params + files)
    ensures form == Some(FormOf(params + files)) <==> Carried(boundary, params + files)
  {
    hide Chunk;
    var content, sent := Encode(boundary, params, files);
    ghost var trace;
    form, trace := ParseMultipart(boundary, content[2..]);
    RoundTrip(boundary, params + files);
  }
}
