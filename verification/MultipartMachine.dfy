/** The byte-driven multipart machine, as a function of one byte.

    A `Machine` is the parser's state together with what its callbacks have heard.  Callbacks
    are handed slices of the input, and where a slice is cut depends on where the input was cut,
    so what was heard is kept in merged form: two adjacent slices of the same kind are one.
    Empty slices are kept, because a callback can tell an empty header name from none. */
module MultipartMachine {

  const CR: char := '\r'
  const LF: char := '\n'
  const CRLF: string := [CR, LF]

  datatype State =
    | Start
    | StartBoundary
    | HeaderFieldStart
    | HeaderField
    | HeadersAlmostDone
    | HeaderValueStart
    | HeaderValue
    | HeaderValueAlmostDone
    | PartDataStart
    | PartData
    | PartDataAlmostBoundary
    | PartDataBoundary
    | PartDataAlmostEnd
    | PartDataEnd
    | PartDataFinalHyphen
    | End

  /** The seven callbacks of the parser, with the bytes they are handed. */
  datatype Event =
    | OnHeaderField(name: string)
    | OnHeaderValue(value: string)
    | OnPartData(data: string)
    | OnPartDataBegin
    | OnHeadersComplete
    | OnPartDataEnd
    | OnBodyEnd

  /** Add one callback to what was heard, merging a slice with a slice of the same kind. */
  function Hear(heard: seq<Event>, e: Event): seq<Event> {
    if heard == [] then [e]
    else
      var init, last := heard[..|heard| - 1], heard[|heard| - 1];
      match (last, e)
      case (OnHeaderField(a), OnHeaderField(b)) => init + [OnHeaderField(a + b)]
      case (OnHeaderValue(a), OnHeaderValue(b)) => init + [OnHeaderValue(a + b)]
      case (OnPartData(a), OnPartData(b)) => init + [OnPartData(a + b)]
      case _ => heard + [e]
  }

  /** The merged form of a whole trace of callbacks. */
  function Merged(trace: seq<Event>): seq<Event> {
    if trace == [] then [] else Hear(Merged(trace[..|trace| - 1]), trace[|trace| - 1])
  }

  /** `pending` holds the bytes of a header name read in the current chunk and not reported yet:
      unlike values and bodies, names are reported only at their colon or at the chunk's end. */
  datatype Machine = Machine(state: State, index: nat, pending: string, heard: seq<Event>)

  const INITIAL := Machine(Start, 0, "", [])

  datatype Outcome = Reject(m: Machine) | Accept(m: Machine)

  predicate IsNameByte(c: char) {
    c == '-' || 'a' <= c <= 'z' || 'A' <= c <= 'Z'
  }

  /** The delimiter that ends a part. */
  function Delimiter(boundary: string): string { CRLF + boundary }

  /** The bytes of a delimiter matched so far: what the lookbehind buffer holds. */
  function Held(boundary: string, m: Machine): string
    requires m.state == PartDataBoundary ==> m.index <= |boundary|
  {
    match m.state
    case PartDataAlmostBoundary => [CR]
    case PartDataBoundary => CRLF + boundary[..m.index]
    case _ => []
  }

  predicate Consistent(boundary: string, m: Machine) {
    && |boundary| > 0
    && (m.state == StartBoundary ==> m.index <= |boundary| + 1)
    && (m.state == PartDataBoundary ==> m.index < |boundary|)
    && (m.state != HeaderField ==> m.pending == "")
  }

  /** A byte read as part data. */
  function BodyByte(m: Machine, c: char): Machine {
    if c == CR then m.(state := PartDataAlmostBoundary, heard := Hear(m.heard, OnPartData("")))
    else m.(state := PartData, heard := Hear(m.heard, OnPartData([c])))
  }

  function NameByte(m: Machine, c: char): Outcome {
    if c == CR then Accept(m.(state := HeadersAlmostDone, pending := ""))
    else if c == ':' then
      Accept(m.(state := HeaderValueStart, pending := "", heard := Hear(m.heard, OnHeaderField(m.pending))))
    else if !IsNameByte(c) then Reject(m.(state := HeaderField, pending := ""))
    else Accept(m.(state := HeaderField, pending := m.pending + [c]))
  }

  function ValueByte(m: Machine, c: char): Machine {
    if c == CR then m.(state := HeaderValueAlmostDone, heard := Hear(m.heard, OnHeaderValue("")))
    else m.(state := HeaderValue, heard := Hear(m.heard, OnHeaderValue([c])))
  }

  function StartByte(boundary: string, m: Machine, c: char): Outcome
    requires m.index <= |boundary| + 1
  {
    var m := m.(state := StartBoundary);
    if m.index == |boundary| then
      if c != CR then Reject(m) else Accept(m.(index := m.index + 1))
    else if m.index == |boundary| + 1 then
      if c != LF then Reject(m)
      else Accept(m.(index := 0, state := HeaderFieldStart, heard := Hear(m.heard, OnPartDataBegin)))
    else if c != boundary[m.index] then Reject(m)
    else Accept(m.(index := m.index + 1))
  }

  function BoundaryByte(boundary: string, m: Machine, c: char): Machine
    requires m.index < |boundary|
  {
    if boundary[m.index] != c then
      BodyByte(m.(heard := Hear(m.heard, OnPartData(CRLF + boundary[..m.index]))), c)
    else if m.index + 1 == |boundary| then
      m.(index := m.index + 1, state := PartDataAlmostEnd, heard := Hear(m.heard, OnPartDataEnd))
    else m.(index := m.index + 1)
  }

  function Step(boundary: string, m: Machine, c: char): Outcome
    requires Consistent(boundary, m)
  {
    match m.state
    case Start => StartByte(boundary, m.(index := 0), c)
    case StartBoundary => StartByte(boundary, m, c)
    case HeaderFieldStart => NameByte(m, c)
    case HeaderField => NameByte(m, c)
    case HeadersAlmostDone => if c != LF then Reject(m) else Accept(m.(state := PartDataStart))
    case HeaderValueStart => Accept(if c == ' ' then m else ValueByte(m, c))
    case HeaderValue => Accept(ValueByte(m, c))
    case HeaderValueAlmostDone => if c != LF then Reject(m) else Accept(m.(state := HeaderFieldStart))
    case PartDataStart => Accept(BodyByte(m.(heard := Hear(m.heard, OnHeadersComplete)), c))
    case PartData => Accept(BodyByte(m, c))
    case PartDataAlmostBoundary =>
      if c == LF then Accept(m.(state := PartDataBoundary, index := 0))
      else Accept(BodyByte(m.(heard := Hear(m.heard, OnPartData([CR]))), c))
    case PartDataBoundary => Accept(BoundaryByte(boundary, m, c))
    case PartDataAlmostEnd =>
      if c == '-' then Accept(m.(state := PartDataFinalHyphen))
      else if c == CR then Accept(m.(state := PartDataEnd))
      else Reject(m)
    case PartDataFinalHyphen =>
      if c == '-' then Accept(m.(state := End, heard := Hear(m.heard, OnBodyEnd))) else Reject(m)
    case PartDataEnd =>
      if c == LF then Accept(m.(state := HeaderFieldStart, heard := Hear(m.heard, OnPartDataBegin)))
      else Reject(m)
    case End => Accept(m)
  }

  /** `m` with its partial delimiter reported as part data. */
  function Replayed(boundary: string, m: Machine): Machine
    requires m.state == PartDataBoundary ==> m.index <= |boundary|
  {
    m.(state := PartData, heard := Hear(m.heard, OnPartData(Held(boundary, m))))
  }

  /** A byte that breaks a partial delimiter is read as the first data byte after it. */
  lemma {:induction false} BrokenDelimiter(boundary: string, m: Machine, c: char)
    requires Consistent(boundary, m)
    requires m.state in {PartDataAlmostBoundary, PartDataBoundary}
    requires if m.state == PartDataBoundary then c != boundary[m.index] else c != LF
    ensures Step(boundary, m, c) == Step(boundary, Replayed(boundary, m), c)
  {
    hide Hear;
  }

  lemma {:induction false} StepConsistent(boundary: string, m: Machine, c: char)
    requires Consistent(boundary, m)
    ensures Consistent(boundary, Step(boundary, m, c).m)
  {
    hide Hear;
  }

  /** The machine after the bytes of `s`, and how many of them it took before rejecting one. */
  datatype Fed = Fed(m: Machine, taken: nat, rejected: bool)

  function Feed(boundary: string, m: Machine, s: string): (f: Fed)
    requires Consistent(boundary, m)
    ensures Consistent(boundary, f.m)
    ensures f.taken <= |s| && (f.rejected <==> f.taken < |s|)
    decreases |s|
  {
    if s == "" then Fed(m, 0, false)
    else
      var f := Feed(boundary, m, s[..|s| - 1]);
      if f.rejected then f
      else
        var c := s[|s| - 1];
        StepConsistent(boundary, f.m, c);
        var o := Step(boundary, f.m, c);
        if o.Reject? then Fed(o.m, f.taken, true) else Fed(o.m, f.taken + 1, false)
  }

  /** The end of a chunk reports the part of a header name that the chunk ends with. */
  function Flush(m: Machine): Machine {
    if m.pending == "" then m else m.(pending := "", heard := Hear(m.heard, OnHeaderField(m.pending)))
  }

  /** One call of the parser on the chunk `s`. */
  function Chunk(boundary: string, m: Machine, s: string): (f: Fed)
    requires Consistent(boundary, m)
    ensures Consistent(boundary, f.m)
  {
    var f := Feed(boundary, m, s);
    if f.rejected then f else f.(m := Flush(f.m))
  }

  // ---- feeding in pieces

  lemma {:induction false} FeedAppend(boundary: string, m: Machine, a: string, b: string)
    requires Consistent(boundary, m)
    ensures var f := Feed(boundary, m, a);
            Feed(boundary, m, a + b) ==
            if f.rejected then f
            else var g := Feed(boundary, f.m, b); g.(taken := f.taken + g.taken)
    decreases |b|
  {
    if b == "" {
      assert a + b == a;
    } else {
      var b' := b[..|b| - 1];
      assert (a + b)[..|a + b| - 1] == a + b';
      FeedAppend(boundary, m, a, b');
    }
  }

  lemma {:induction false} RejectedStays(boundary: string, m: Machine, s: string, k: nat)
    requires Consistent(boundary, m) && k <= |s|
    requires Feed(boundary, m, s[..k]).rejected
    ensures Feed(boundary, m, s) == Feed(boundary, m, s[..k])
  {
    hide Step;
    if k == |s| {
      assert s[..k] == s;
    } else {
      var s' := s[..|s| - 1];
      assert s'[..k] == s[..k];
      RejectedStays(boundary, m, s', k);
    }
  }

  lemma {:induction false} FeedNext(boundary: string, m0: Machine, buf: string, i: nat, m: Machine)
    requires Consistent(boundary, m0) && i < |buf|
    requires Feed(boundary, m0, buf[..i]) == Fed(m, i, false)
    ensures Step(boundary, m, buf[i]).Accept? ==>
              Feed(boundary, m0, buf[..i + 1]) == Fed(Step(boundary, m, buf[i]).m, i + 1, false)
    ensures Step(boundary, m, buf[i]).Reject? ==>
              Feed(boundary, m0, buf) == Fed(Step(boundary, m, buf[i]).m, i, true)
  {
    hide Step;
    assert buf[..i + 1][..i] == buf[..i];
    if Step(boundary, m, buf[i]).Reject? {
      RejectedStays(boundary, m0, buf, i + 1);
    }
  }

  /** `m` accepts all of `s` and becomes `m'`. */
  predicate Takes(boundary: string, m: Machine, s: string, m': Machine) {
    && Consistent(boundary, m)
    && Feed(boundary, m, s) == Fed(m', |s|, false)
  }

  lemma {:induction false} TakesAppend(boundary: string, m: Machine, a: string, m': Machine, b: string, m'': Machine)
    requires Takes(boundary, m, a, m') && Takes(boundary, m', b, m'')
    ensures Takes(boundary, m, a + b, m'')
  {
    FeedAppend(boundary, m, a, b);
  }

  lemma {:induction false} TakesByte(boundary: string, m: Machine, c: char)
    requires Consistent(boundary, m)
    requires Step(boundary, m, c).Accept?
    ensures Takes(boundary, m, [c], Step(boundary, m, c).m)
  {
    assert [c][..0] == "";
    assert Feed(boundary, m, "") == Fed(m, 0, false);
  }

  // ---- merging

  lemma {:induction false} HearTwice(h: seq<Event>, a: string, b: string)
    ensures Hear(Hear(h, OnHeaderField(a)), OnHeaderField(b)) == Hear(h, OnHeaderField(a + b))
    ensures Hear(Hear(h, OnHeaderValue(a)), OnHeaderValue(b)) == Hear(h, OnHeaderValue(a + b))
    ensures Hear(Hear(h, OnPartData(a)), OnPartData(b)) == Hear(h, OnPartData(a + b))
  {
    if h != [] {
      var init, last := h[..|h| - 1], h[|h| - 1];
      match last
      case OnHeaderField(x) => assert (x + a) + b == x + (a + b);
      case OnHeaderValue(x) => assert (x + a) + b == x + (a + b);
      case OnPartData(x) => assert (x + a) + b == x + (a + b);
      case _ =>
    }
  }

  predicate EndsInField(trace: seq<Event>) { trace != [] && trace[|trace| - 1].OnHeaderField? }

  /** No two reports of names stand side by side. */
  predicate Apart(trace: seq<Event>) {
    forall i :: 0 <= i < |trace| - 1 ==> !(trace[i].OnHeaderField? && trace[i + 1].OnHeaderField?)
  }

  lemma {:induction false} MergedLast(trace: seq<Event>)
    ensures trace == [] <==> Merged(trace) == []
    ensures EndsInField(trace) <==> EndsInField(Merged(trace))
  {
  }
}
