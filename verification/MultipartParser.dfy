/** The streaming multipart parser: a loop that moves `i` and `mark` over a chunk, updates `state`
    and `index`, and keeps the bytes of a delimiter it may have to replay in `lookbehind`.
    The body of the loop is `ReadByte`; its branches on the state are grouped in three methods. */
module MultipartParser {
  import opened MultipartMachine

  /** What the loop does after looking at a byte: reject it, look at it again, or go on. */
  datatype Verdict = Stop | Again | Next

  class Parser {
    const boundary: string
    const lookbehind: array<char>
    var index: nat
    var state: State
    var trace: seq<Event>  // the callbacks made so far, slice by slice

    ghost predicate LookbehindHolds()
      reads this, lookbehind
    {
      && lookbehind.Length == |boundary| + 9
      && (state == PartDataAlmostBoundary ==> lookbehind[0] == CR)
      && (state == PartDataBoundary ==>
            index < |boundary| && lookbehind[..2 + index] == CRLF + boundary[..index])
    }

    ghost predicate Valid()
      reads this, lookbehind
    {
      LookbehindHolds() && Consistent(boundary, Abstract())
    }

    /** Between calls nothing is pending: the parser is its state and the merged trace. */
    ghost function Abstract(): Machine
      reads this
    {
      Machine(state, index, "", Merged(trace))
    }

    constructor (boundary: string)
      requires |boundary| > 0
      ensures Valid() && fresh(lookbehind)
      ensures this.boundary == boundary && Abstract() == INITIAL
    {
      this.boundary := boundary;
      lookbehind := new char[|boundary| + 9];
      index := 0;
      state := Start;
      trace := [];
    }

    method Notify(e: Event)
      modifies this`trace
      ensures trace == old(trace) + [e]
      ensures Merged(trace) == Hear(old(Merged(trace)), e)
    {
      trace := trace + [e];
      assert trace[..|trace| - 1] == old(trace);
    }

    /** The merged trace, with the slice from `mark` on that the next callback will be handed. */
    ghost predicate Heard(heard: seq<Event>, pending: string, slice: string)
      reads this
    {
      match state
      case HeaderField => slice == pending && Merged(trace) == heard
      case HeaderValue => (if slice == "" then Merged(trace) else Hear(Merged(trace), OnHeaderValue(slice))) == heard
      case PartData => (if slice == "" then Merged(trace) else Hear(Merged(trace), OnPartData(slice))) == heard
      case _ => Merged(trace) == heard
    }

    /** The parser in the middle of a chunk agrees with machine `m`. */
    ghost predicate InStep(m: Machine, slice: string)
      reads this, lookbehind
    {
      && LookbehindHolds()
      && Consistent(boundary, m)
      && index == m.index && state == m.state
      && Heard(m.heard, m.pending, slice)
    }

    /** A partial delimiter broke at byte `c`: it was reported as data, and `c` is still to be read. */
    ghost predicate Replaying(m: Machine, c: char)
      reads this, lookbehind
    {
      && Consistent(boundary, m)
      && m.state in {PartDataAlmostBoundary, PartDataBoundary}
      && (if m.state == PartDataBoundary then c != boundary[m.index] else c != LF)
      && InStep(Replayed(boundary, m), "")
    }

    /** What one look at byte `c` achieves, from machine `m`. */
    ghost predicate Looked(m: Machine, c: char, isLast: bool, slice: string, v: Verdict)
      requires Consistent(boundary, m)
      reads this, lookbehind
    {
      var o := Step(boundary, m, c);
      match v
      case Stop => o.Reject? && LookbehindHolds() && Abstract() == o.m
      case Again => Replaying(m, c)
      case Next => o.Accept? && LookbehindHolds() && if isLast then Abstract() == Flush(o.m) else InStep(o.m, slice)
    }

    method ReadStart(c: char, isLast: bool, ghost slice: string, ghost m: Machine) returns (v: Verdict)
      requires InStep(m, slice) && m.state in {Start, StartBoundary}
      modifies this
      ensures v != Again && Looked(m, c, isLast, slice + [c], v)
      ensures Grows(old(trace), trace, false)
    {
      hide Hear;
      if state == Start {
        index := 0;
        state := StartBoundary;
      }
      if index == |boundary| {
        if c != CR { return Stop; }
        index := index + 1;
      } else if index == |boundary| + 1 {
        if c != LF { return Stop; }
        index := 0;
        Notify(OnPartDataBegin);
        state := HeaderFieldStart;
      } else {
        if c != boundary[index] { return Stop; }
        index := index + 1;
      }
      v := Next;
    }

    method ReadName(c: char, isLast: bool, slice: string, ghost m: Machine) returns (v: Verdict)
      requires m.state in {HeaderFieldStart, HeaderField}
      requires if m.state == HeaderFieldStart then slice == "" && InStep(m, slice) else InStep(m, slice)
      modifies this
      ensures v != Again && Looked(m, c, isLast, slice + [c], v)
      ensures Grows(old(trace), trace, true)
    {
      hide Hear;
      hide Merged;
      hide BodyByte;
      hide ValueByte;
      hide StartByte;
      hide BoundaryByte;
      state := HeaderField;
      v := Next;
      if c == CR {
        state := HeadersAlmostDone;
      } else if c == ':' {
        Notify(OnHeaderField(slice));
        state := HeaderValueStart;
      } else if !IsNameByte(c) {
        v := Stop;
      } else if isLast {
        Notify(OnHeaderField(slice + [c]));
      }
    }

    method ReadValue(c: char, isLast: bool, slice: string, ghost m: Machine) returns (v: Verdict)
      requires m.state in {HeaderValueStart, HeaderValue} && InStep(m, slice)
      requires m.state == HeaderValueStart ==> slice == ""
      modifies this
      ensures v == Next && Looked(m, c, isLast, slice + [c], v)
      ensures Grows(old(trace), trace, false)
    {
      hide Hear;
      hide Merged;
      hide NameByte;
      hide BodyByte;
      hide StartByte;
      v := Next;
      if state == HeaderValueStart && c == ' ' { return; }
      state := HeaderValue;
      HearTwice(Merged(trace), slice, [c]);
      HearTwice(Merged(trace), slice, "");
      assert slice + "" == slice && "" + [c] == [c];
      if c == CR {
        Notify(OnHeaderValue(slice));
        state := HeaderValueAlmostDone;
      } else if isLast {
        Notify(OnHeaderValue(slice + [c]));
      }
    }

    method ReadBody(c: char, isLast: bool, slice: string, ghost m: Machine) returns (v: Verdict)
      requires m.state == PartData && InStep(m, slice)
      modifies this, lookbehind
      ensures v == Next && Looked(m, c, isLast, slice + [c], v)
      ensures Grows(old(trace), trace, false)
    {
      hide Hear;
      v := Next;
      HearTwice(Merged(trace), slice, [c]);
      HearTwice(Merged(trace), slice, "");
      assert slice + "" == slice && "" + [c] == [c];
      if c == CR {
        Notify(OnPartData(slice));
        state := PartDataAlmostBoundary;
        lookbehind[0] := CR;
      } else if isLast {
        Notify(OnPartData(slice + [c]));
      }
    }

    method ReadDelimiter(c: char, isLast: bool, ghost slice: string, ghost m: Machine) returns (v: Verdict)
      requires m.state in {PartDataAlmostBoundary, PartDataBoundary} && InStep(m, slice)
      modifies this, lookbehind
      ensures v != Stop && Looked(m, c, isLast, slice + [c], v)
      ensures Grows(old(trace), trace, false)
    {
      hide Hear;
      hide Merged;
      hide NameByte;
      hide ValueByte;
      hide StartByte;
      v := Next;
      if state == PartDataAlmostBoundary {
        if c == LF {
          state := PartDataBoundary;
          lookbehind[1] := LF;
          index := 0;
          assert lookbehind[..2] == CRLF + boundary[..0];
        } else {
          assert lookbehind[..1] == [CR];
          Notify(OnPartData(lookbehind[..1]));
          state := PartData;
          v := Again;
        }
      } else if boundary[index] != c {
        Notify(OnPartData(lookbehind[..2 + index]));
        state := PartData;
        v := Again;
      } else {
        lookbehind[2 + index] := c;
        assert lookbehind[..2 + index] == CRLF + boundary[..index];
        assert lookbehind[..3 + index] == lookbehind[..2 + index] + [c];
        assert lookbehind[..3 + index] == CRLF + boundary[..index + 1];
        index := index + 1;
        if index == |boundary| {
          Notify(OnPartDataEnd);
          state := PartDataAlmostEnd;
        }
      }
    }

    method ReadLineEnd(c: char, isLast: bool, ghost slice: string, ghost m: Machine) returns (v: Verdict)
      requires m.state in {HeadersAlmostDone, HeaderValueAlmostDone, PartDataAlmostEnd, PartDataFinalHyphen,
               PartDataEnd, End}
      requires InStep(m, slice)
      modifies this
      ensures v != Again && Looked(m, c, isLast, slice + [c], v)
      ensures Grows(old(trace), trace, false)
    {
      hide Hear;
      v := Next;
      match state
      case HeadersAlmostDone =>
        if c != LF { return Stop; }
        state := PartDataStart;
      case HeaderValueAlmostDone =>
        if c != LF { return Stop; }
        state := HeaderFieldStart;
      case PartDataAlmostEnd =>
        if c == '-' {
          state := PartDataFinalHyphen;
        } else if c == CR {
          state := PartDataEnd;
        } else {
          return Stop;
        }
      case PartDataFinalHyphen =>
        if c != '-' { return Stop; }
        Notify(OnBodyEnd);
        state := End;
      case PartDataEnd =>
        if c != LF { return Stop; }
        state := HeaderFieldStart;
        Notify(OnPartDataBegin);
      case End =>
    }

    /** One round of the loop: `slice` is the chunk from `mark` to the byte `c`. */
    method ReadByte(c: char, isLast: bool, slice: string, ghost m: Machine, ghost replaying: bool)
      returns (v: Verdict, remark: bool)
      requires if replaying then slice == "" && Replaying(m, c) else InStep(m, slice)
      modifies this, lookbehind
      ensures v == Again ==> remark && !replaying
      ensures Looked(m, c, isLast, if remark then [c] else slice + [c], v)
      ensures Grows(old(trace), trace, m.state in {HeaderFieldStart, HeaderField})
    {
      hide Hear;
      hide Step;
      assert "" + [c] == [c];
      remark := false;
      match state
      case Start => v := ReadStart(c, isLast, slice, m);
      case StartBoundary => v := ReadStart(c, isLast, slice, m);
      case HeaderFieldStart =>
        remark := true;
        v := ReadName(c, isLast, "", m);
      case HeaderField => v := ReadName(c, isLast, slice, m);
      case HeaderValueStart =>
        remark := true;
        v := ReadValue(c, isLast, "", m);
      case HeaderValue => v := ReadValue(c, isLast, slice, m);
      case PartDataStart =>
        Notify(OnHeadersComplete);
        state := PartData;
        remark := true;
        ghost var m' := m.(state := PartData, heard := Merged(trace));
        assert Step(boundary, m, c) == Step(boundary, m', c) by { HeadersDone(m, m', c); }
        v := ReadBody(c, isLast, "", m');
      case PartData =>
        ghost var m' := m;
        if replaying {
          m' := Replayed(boundary, m);
          BrokenDelimiter(boundary, m, c);
        }
        v := ReadBody(c, isLast, slice, m');
      case PartDataAlmostBoundary =>
        v := ReadDelimiter(c, isLast, slice, m);
        remark := v == Again;
      case PartDataBoundary =>
        v := ReadDelimiter(c, isLast, slice, m);
        remark := v == Again;
      case _ => v := ReadLineEnd(c, isLast, slice, m);
    }

    lemma {:induction false} HeadersDone(m: Machine, m': Machine, c: char)
      requires Consistent(boundary, m) && m.state == PartDataStart
      requires m' == m.(state := PartData, heard := Hear(m.heard, OnHeadersComplete))
      ensures Step(boundary, m, c) == Step(boundary, m', c)
    {
    }

    lemma {:induction false} AtStart(buf: string, m: Machine)
      requires Valid() && m == Abstract()
      ensures Consistent(boundary, m) && LookbehindHolds() && InStep(m, buf[0..0]) && Flush(m) == m
      ensures Feed(boundary, m, buf[..0]) == Fed(m, 0, false)
    {
      assert buf[0..0] == "" && buf[..0] == "";
      hide Hear;
    }

    lemma {:induction false} LookedMeans(m: Machine, c: char, isLast: bool, slice: string, v: Verdict)
      requires Consistent(boundary, m) && Looked(m, c, isLast, slice, v)
      ensures LookbehindHolds()
      ensures v == Stop ==> Step(boundary, m, c).Reject? && Abstract() == Step(boundary, m, c).m
      ensures v == Again ==> Replaying(m, c)
      ensures v == Next ==>
                var o := Step(boundary, m, c);
                o.Accept? && if isLast then Abstract() == Flush(o.m) else InStep(o.m, slice)
    {
      hide Hear;
      hide Step;
      hide Heard;
      hide Consistent;
    }

    lemma {:induction false} AtFirst()
      ensures Abstract() == INITIAL ==> Apart(trace) && LineReady(Abstract())
    {
      MergedLast(trace);
    }

    /** In a name, nothing but complete headers has been reported. */
    lemma {:induction false} NameReady(m: Machine, slice: string)
      requires LineReady(m) && InStep(m, slice)
      ensures m.state in {HeaderFieldStart, HeaderField} ==> !EndsInField(trace)
    {
      MergedLast(trace);
      hide Hear;
      hide Merged;
    }

    lemma {:induction false} NotInName(m: Machine, c: char)
      requires Replaying(m, c)
      ensures m.state !in {HeaderFieldStart, HeaderField}
    {
    }

    /** One call on the chunk `buf`: exactly what the machine does with it. */
    method Execute(buf: string) returns (n: nat)
      requires Valid()
      modifies this, lookbehind
      ensures Valid()
      ensures n == Chunk(boundary, old(Abstract()), buf).taken
      ensures Abstract() == Chunk(boundary, old(Abstract()), buf).m
      ensures old(Abstract()) == INITIAL ==> Apart(trace)
    {
      hide Hear;
      hide Step;
      hide Feed;
      hide Looked;
      hide InStep;
      hide Replaying;
      hide LookbehindHolds;
      hide Consistent;
      hide Flush;
      var i, mark := 0, 0;
      ghost var m0, m := Abstract(), Abstract();
      ghost var replaying := false;
      ghost var first := m0 == INITIAL;
      AtStart(buf, m0);
      AtFirst();
      ghost var f := Chunk(boundary, m0, buf);
      while i < |buf|
        invariant 0 <= mark <= i <= |buf|
        invariant LookbehindHolds() && Consistent(boundary, m0)
        invariant Feed(boundary, m0, buf[..i]) == Fed(m, i, false)
        invariant i < |buf| ==>
                    if replaying then mark == i && Replaying(m, buf[i]) else InStep(m, buf[mark..i])
        invariant i == |buf| ==> Abstract() == Flush(m)
        invariant first ==> Apart(trace) && LineReady(m)
        decreases |buf| - i, if replaying then 0 else 1
      {
        ghost var slice := buf[mark..i];
        ghost var was := trace;
        if first && !replaying { NameReady(m, slice); }
        if replaying { NotInName(m, buf[i]); }
        FeedNext(boundary, m0, buf, i, m);
        OneLonger(buf, mark, i);
        var v, remark := ReadByte(buf[i], i == |buf| - 1, buf[mark..i], m, replaying);
        LookedMeans(m, buf[i], i == |buf| - 1, if remark then [buf[i]] else slice + [buf[i]], v);
        if first {
          StillApart(was, trace, m.state in {HeaderFieldStart, HeaderField});
          StaysReady(boundary, m, buf[i]);
        }
        if v == Stop { return i; }
        if remark { mark := i; }
        replaying := v == Again;
        if v == Next {
          m := Step(boundary, m, buf[i]).m;
          i := i + 1;
        }
      }
      n := |buf|;
      assert buf[..i] == buf;
    }
  }

  lemma {:induction false} OneLonger(buf: string, mark: nat, i: nat)
    requires mark <= i < |buf|
    ensures buf[mark..i + 1] == buf[mark..i] + [buf[i]] && buf[i..i + 1] == [buf[i]] && buf[i..i] == ""
  {
  }

  // ---- in one call, a name is reported in one piece

  /** Reports have been added, and of names only where one is being read, and then but one. */
  ghost predicate Grows(was: seq<Event>, now: seq<Event>, named: bool) {
    && |was| <= |now| && now[..|was|] == was
    && forall i :: |was| <= i < |now| && now[i].OnHeaderField? ==> named && i == |was|
  }

  lemma {:induction false} StillApart(was: seq<Event>, now: seq<Event>, named: bool)
    requires Apart(was) && Grows(was, now, named) && (named ==> !EndsInField(was))
    ensures Apart(now)
  {
    forall i | 0 <= i < |now| - 1 ensures !(now[i].OnHeaderField? && now[i + 1].OnHeaderField?) {
      assert i < |was| ==> now[i] == was[i];
      assert i + 1 < |was| ==> now[i + 1] == was[i + 1];
    }
  }

  /** Where a name is or may come next, the last report is of none. */
  predicate LineReady(m: Machine) {
    m.state in {HeaderFieldStart, HeaderField, HeaderValueAlmostDone} ==> !EndsInField(m.heard)
  }

  lemma {:induction false} StaysReady(boundary: string, m: Machine, c: char)
    requires Consistent(boundary, m) && LineReady(m)
    ensures LineReady(Step(boundary, m, c).m)
  {
  }
}
