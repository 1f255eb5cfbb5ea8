/** Finding the end of a part.

    When a partial delimiter breaks, the parser replays it as data and restarts at the byte that
    broke it, without looking at the replayed bytes again.  That finds the first delimiter of every
    body exactly when the boundary is `Restartable`; a boundary without CR is. */
module MultipartDelimiter {
  import opened MultipartMachine

  /** The bytes of `s` from `k` on, as far as there are any, are those of `d`. */
  predicate CompatibleAt(d: string, s: string, k: nat) {
    forall j :: 0 <= j < |d| && k + j < |s| ==> s[k + j] == d[j]
  }

  predicate OccursAt(d: string, s: string, k: nat) {
    k + |d| <= |s| && CompatibleAt(d, s, k)
  }

  /** `s` is a part's body followed by the first delimiter in it. */
  predicate EndsWithFirst(d: string, s: string) {
    && |d| <= |s|
    && OccursAt(d, s, |s| - |d|)
    && forall k :: 0 <= k < |s| - |d| ==> !OccursAt(d, s, k)
  }

  /** Every CR inside the delimiter starts a copy of the delimiter that runs to its end. */
  predicate Restartable(boundary: string) {
    var d := Delimiter(boundary);
    forall k :: 1 <= k < |d| && d[k] == CR ==> CompatibleAt(d, d, k)
  }

  function Body(h: seq<Event>, index: nat): Machine { Machine(PartDataStart, index, "", h) }

  /** What a correct parser has become and reported when a part `body` and its delimiter are read. */
  function AfterPart(boundary: string, h: seq<Event>, body: string): Machine {
    Machine(PartDataAlmostEnd, |boundary|, "", h + [OnHeadersComplete, OnPartData(body), OnPartDataEnd])
  }

  ghost predicate ExtractsEveryPart(boundary: string)
    requires |boundary| > 0
  {
    var d := Delimiter(boundary);
    forall h: seq<Event>, index: nat, s: string | EndsWithFirst(d, s) ::
      Feed(boundary, Body(h, index), s) == Fed(AfterPart(boundary, h, s[..|s| - |d|]), |s|, false)
  }

  // ---- the scan

  predicate InBody(m: Machine) { m.state in {PartData, PartDataAlmostBoundary, PartDataBoundary} }

  function BodySoFar(h: seq<Event>, s: string, e: nat): seq<Event>
    requires e <= |s|
  {
    if s == "" then h + [OnHeadersComplete] else h + [OnHeadersComplete, OnPartData(s[..e])]
  }

  /** After the bytes `s` of a body: all but the held bytes were reported, the held bytes are the
      start of a delimiter, and no delimiter starts at a reported byte. */
  ghost predicate Scanning(boundary: string, h: seq<Event>, s: string, m: Machine) {
    && Consistent(boundary, m) && InBody(m) && m.pending == ""
    && var d, held := Delimiter(boundary), |Held(boundary, m)|;
       && held <= |s|
       && m.heard == BodySoFar(h, s, |s| - held)
       && CompatibleAt(d, s, |s| - held)
       && forall k :: 0 <= k < |s| - held ==> !CompatibleAt(d, s, k)
  }

  lemma {:induction false} RuledOutStays(d: string, s: string, c: char, k: nat)
    requires !CompatibleAt(d, s, k)
    ensures !CompatibleAt(d, s + [c], k)
  {
    var j :| 0 <= j < |d| && k + j < |s| && s[k + j] != d[j];
    assert (s + [c])[k + j] != d[j];
  }

  lemma {:induction false} DataHeard(h: seq<Event>, s: string, e: nat, more: string, s': string)
    requires e + |more| <= |s'| && s' != "" && e <= |s|
    requires s'[..e + |more|] == s[..e] + more
    ensures Hear(BodySoFar(h, s, e), OnPartData(more)) == BodySoFar(h, s', e + |more|)
  {
    if s == "" {
      assert s[..e] + more == more;
    }
  }

  /** Restarting loses no delimiter: none starts at the broken delimiter or inside it. */
  lemma {:induction false} NoneInBroken(boundary: string, s: string, e: nat, c: char, k: nat)
    requires Restartable(boundary)
    requires e <= k < |s| && |s| - e < |Delimiter(boundary)|
    requires CompatibleAt(Delimiter(boundary), s, e)
    requires c != Delimiter(boundary)[|s| - e]
    ensures !CompatibleAt(Delimiter(boundary), s + [c], k)
  {
    var d, s' := Delimiter(boundary), s + [c];
    if k == e {
      assert s'[k + (|s| - e)] != d[|s| - e];
    } else {
      assert s'[k + 0] == s[e + (k - e)] == d[k - e];
      if d[k - e] == CR {
        assert CompatibleAt(d, d, k - e);
        assert d[(k - e) + (|s| - k)] == d[|s| - k];
        assert s'[k + (|s| - k)] != d[|s| - k];
      } else {
        assert s'[k + 0] != d[0];
      }
    }
  }

  lemma {:induction false} HeldIsPrefix(boundary: string, m: Machine)
    requires Consistent(boundary, m) && InBody(m)
    ensures |Held(boundary, m)| < |Delimiter(boundary)|
    ensures Held(boundary, m) == Delimiter(boundary)[..|Held(boundary, m)|]
  {
  }

  /** A byte that continues the delimiter is held. */
  lemma {:induction false} StepHolds(boundary: string, m: Machine, c: char)
    requires Consistent(boundary, m) && InBody(m)
    requires var held := |Held(boundary, m)|; held + 1 < |Delimiter(boundary)| && c == Delimiter(boundary)[held]
    ensures var o := Step(boundary, m, c);
            && o.Accept? && InBody(o.m) && |Held(boundary, o.m)| == |Held(boundary, m)| + 1
            && o.m.pending == m.pending
            && o.m.heard == if m.state == PartData then Hear(m.heard, OnPartData("")) else m.heard
  {
    hide Hear;
  }

  /** A byte that breaks the delimiter has the held bytes reported, and is held itself if it is a CR. */
  lemma {:induction false} StepBreaks(boundary: string, m: Machine, c: char)
    requires Consistent(boundary, m) && InBody(m)
    requires c != Delimiter(boundary)[|Held(boundary, m)|]
    ensures var o, held := Step(boundary, m, c), Held(boundary, m);
            && o.Accept? && InBody(o.m) && o.m.pending == m.pending
            && |Held(boundary, o.m)| == (if c == CR then 1 else 0)
            && o.m.heard == Hear(m.heard, OnPartData(if c == CR then held else held + [c]))
  {
    hide Step;
    hide Hear;
    hide Held;
    hide BodyByte;
    var held := Held(boundary, m);
    HearTwice(m.heard, held, [c]);
    HearTwice(m.heard, held, "");
    assert held + "" == held && "" + [c] == [c];
    var n := if m.state == PartData then m else m.(heard := Hear(m.heard, OnPartData(held)));
    BreakIsData(boundary, m, c);
    ReadAsData(boundary, n, c);
    if m.state == PartData { NothingHeld(boundary, m); }
  }

  /** What breaks the delimiter is read as data after the held bytes. */
  lemma {:induction false} BreakIsData(boundary: string, m: Machine, c: char)
    requires Consistent(boundary, m) && InBody(m)
    requires c != Delimiter(boundary)[|Held(boundary, m)|]
    ensures var replayed := m.(heard := Hear(m.heard, OnPartData(Held(boundary, m))));
            Step(boundary, m, c) == Accept(BodyByte(if m.state == PartData then m else replayed, c))
  {
    hide Hear;
    hide BodyByte;
  }

  lemma {:induction false} ReadAsData(boundary: string, n: Machine, c: char)
    ensures var z := BodyByte(n, c);
            && InBody(z) && z.state != PartDataBoundary && z.pending == n.pending
            && |Held(boundary, z)| == (if c == CR then 1 else 0)
            && z.heard == Hear(n.heard, OnPartData(if c == CR then "" else [c]))
  {
    hide Hear;
  }

  lemma {:induction false} NothingHeld(boundary: string, m: Machine)
    requires Consistent(boundary, m) && m.state == PartData
    ensures Held(boundary, m) == ""
  {
  }

  /** What scanning means, piece by piece. */
  lemma {:induction false} ScanningHas(boundary: string, h: seq<Event>, s: string, m: Machine, e: int)
    requires Scanning(boundary, h, s, m) && e == |s| - |Held(boundary, m)|
    ensures Consistent(boundary, m) && InBody(m) && m.pending == ""
    ensures 0 <= e && m.heard == BodySoFar(h, s, e) && CompatibleAt(Delimiter(boundary), s, e)
    ensures forall k :: 0 <= k < e ==> !CompatibleAt(Delimiter(boundary), s, k)
  {
    hide CompatibleAt;
    hide Held;
  }

  lemma {:induction false} NowScanning(boundary: string, h: seq<Event>, s: string, m: Machine, e: nat)
    requires Consistent(boundary, m) && InBody(m) && m.pending == ""
    requires e == |s| - |Held(boundary, m)| && m.heard == BodySoFar(h, s, e) && CompatibleAt(Delimiter(boundary), s, e)
    requires forall k :: 0 <= k < e ==> !CompatibleAt(Delimiter(boundary), s, k)
    ensures Scanning(boundary, h, s, m)
  {
    hide CompatibleAt;
    hide Held;
  }

  lemma {:induction false} StillCompatible(d: string, s: string, e: nat, c: char)
    requires e <= |s| && |s| - e < |d| && CompatibleAt(d, s, e) && c == d[|s| - e]
    ensures CompatibleAt(d, s + [c], e)
  {
  }

  lemma {:induction false} ScanHolds(boundary: string, h: seq<Event>, s: string, m: Machine, c: char)
    requires Scanning(boundary, h, s, m)
    requires var held := |Held(boundary, m)|; held + 1 < |Delimiter(boundary)| && c == Delimiter(boundary)[held]
    ensures Step(boundary, m, c).Accept? && Scanning(boundary, h, s + [c], Step(boundary, m, c).m)
  {
    hide Step;
    hide Hear;
    hide CompatibleAt;
    hide BodySoFar;
    var d, s', held := Delimiter(boundary), s + [c], |Held(boundary, m)|;
    var e := |s| - held;
    ScanningHas(boundary, h, s, m, e);
    StepHolds(boundary, m, c);
    StepConsistent(boundary, m, c);
    forall k | 0 <= k < e ensures !CompatibleAt(d, s', k) { RuledOutStays(d, s, c, k); }
    StillCompatible(d, s, e, c);
    HeldHeard(boundary, h, s, m, e, c);
    NowScanning(boundary, h, s', Step(boundary, m, c).m, e);
  }

  /** Holding a byte reports nothing, but for the empty slice before a CR. */
  lemma {:induction false} HeldHeard(boundary: string, h: seq<Event>, s: string, m: Machine, e: nat, c: char)
    requires e <= |s| && m.heard == BodySoFar(h, s, e) && Consistent(boundary, m) && InBody(m)
             && e == |s| - |Held(boundary, m)|
    ensures (if m.state == PartData then Hear(m.heard, OnPartData("")) else m.heard) == BodySoFar(h, s + [c], e)
  {
    hide Hear;
    var s' := s + [c];
    assert s'[..e] == s[..e] + "" == s[..e];
    DataHeard(h, s, e, "", s');
  }

  lemma {:induction false} ScanBreaks(boundary: string, h: seq<Event>, s: string, m: Machine, c: char)
    requires Restartable(boundary)
    requires Scanning(boundary, h, s, m)
    requires c != Delimiter(boundary)[|Held(boundary, m)|]
    ensures Step(boundary, m, c).Accept? && Scanning(boundary, h, s + [c], Step(boundary, m, c).m)
  {
    hide Step;
    hide Hear;
    hide CompatibleAt;
    hide BodySoFar;
    hide Restartable;
    var d, s', held := Delimiter(boundary), s + [c], Held(boundary, m);
    var e := |s| - |held|;
    ScanningHas(boundary, h, s, m, e);
    StepBreaks(boundary, m, c);
    StepConsistent(boundary, m, c);
    HeldIsPrefix(boundary, m);
    forall k | 0 <= k < e ensures !CompatibleAt(d, s', k) { RuledOutStays(d, s, c, k); }
    forall k | e <= k < |s| ensures !CompatibleAt(d, s', k) { NoneInBroken(boundary, s, e, c, k); }
    FreshStart(boundary, s, c);
    HeldBytes(boundary, h, s, m);
    var more := if c == CR then held else held + [c];
    AllReported(s, e, c, held, more);
    DataHeard(h, s, e, more, s');
    NowScanning(boundary, h, s', Step(boundary, m, c).m, e + |more|);
  }

  /** After a break, a delimiter may start only at a CR just read. */
  lemma {:induction false} FreshStart(boundary: string, s: string, c: char)
    ensures c == CR <==> CompatibleAt(Delimiter(boundary), s + [c], |s|)
    ensures CompatibleAt(Delimiter(boundary), s + [c], |s| + 1)
  {
    var s', d := s + [c], Delimiter(boundary);
    assert s'[|s| + 0] == c && d[0] == CR;
  }

  lemma {:induction false} AllReported(s: string, e: nat, c: char, held: string, more: string)
    requires e <= |s| && s[e..] == held && (more == held || more == held + [c])
    ensures e + |more| <= |s + [c]| && (s + [c])[..e + |more|] == s[..e] + more
  {
    assert s[..e] + s[e..] == s;
  }

  lemma {:induction false} HeldBytes(boundary: string, h: seq<Event>, s: string, m: Machine)
    requires Scanning(boundary, h, s, m)
    ensures s[|s| - |Held(boundary, m)|..] == Held(boundary, m)
  {
    HeldIsPrefix(boundary, m);
    var e, d := |s| - |Held(boundary, m)|, Delimiter(boundary);
    forall j | 0 <= j < |s| - e ensures s[e..][j] == Held(boundary, m)[j] {
      assert s[e + j] == d[j];
    }
  }

  /** The last byte of a delimiter ends the part: all that was reported is the body before it. */
  lemma {:induction false} ScanEnds(boundary: string, h: seq<Event>, s: string, m: Machine, c: char)
    requires Scanning(boundary, h, s, m)
    requires var held := |Held(boundary, m)|; held + 1 == |Delimiter(boundary)| && c == Delimiter(boundary)[held]
    ensures var s', d := s + [c], Delimiter(boundary);
            && OccursAt(d, s', |s'| - |d|)
            && Step(boundary, m, c) == Accept(AfterPart(boundary, h, s'[..|s'| - |d|]))
  {
    var d, s' := Delimiter(boundary), s + [c];
    var e := |s'| - |d|;
    assert s != "";
    assert s'[..e] == s[..e];
    assert Hear(m.heard, OnPartDataEnd) == m.heard + [OnPartDataEnd];
    hide Hear;
  }

  // ---- sufficiency

  lemma {:induction false} OccursInLonger(d: string, t: string, s: string, k: nat)
    requires |t| <= |s| && t == s[..|t|] && OccursAt(d, t, k)
    ensures OccursAt(d, s, k)
  {
    forall j | 0 <= j < |d| && k + j < |s| ensures s[k + j] == d[j] {
      assert t[k + j] == d[j];
    }
  }

  /** Until the first delimiter is complete, the parser is scanning. */
  lemma {:induction false} ScanPrefix(boundary: string, h: seq<Event>, index: nat, s: string, i: nat)
    requires |boundary| > 0 && Restartable(boundary)
    requires EndsWithFirst(Delimiter(boundary), s) && 0 < i < |s|
    ensures !Feed(boundary, Body(h, index), s[..i]).rejected
    ensures Scanning(boundary, h, s[..i], Feed(boundary, Body(h, index), s[..i]).m)
    decreases i
  {
    hide Scanning;
    hide Step;
    hide Restartable;
    hide EndsWithFirst;
    hide Feed;
    var t, c := s[..i - 1], s[i - 1];
    var m0 := Body(h, index);
    FedOneMore(boundary, m0, s, i);
    if i == 1 {
      FirstScanned(boundary, h, index, c);
      Scanned(boundary, h, t, m0.(state := PartData, heard := BodySoFar(h, "", 0)), c, s);
    } else {
      ScanPrefix(boundary, h, index, s, i - 1);
      Scanned(boundary, h, t, Feed(boundary, m0, t).m, c, s);
    }
  }

  /** Feeding one byte more is one step more. */
  lemma {:induction false} FedOneMore(boundary: string, m0: Machine, s: string, i: nat)
    requires Consistent(boundary, m0) && 0 < i <= |s|
    ensures s[..i - 1] + [s[i - 1]] == s[..i] && (i == 1 ==> Feed(boundary, m0, s[..0]) == Fed(m0, 0, false))
    ensures var f := Feed(boundary, m0, s[..i - 1]);
            !f.rejected && Step(boundary, f.m, s[i - 1]).Accept? ==>
              Feed(boundary, m0, s[..i]) == Fed(Step(boundary, f.m, s[i - 1]).m, i, false)
  {
    hide Step;
    assert s[..i][..i - 1] == s[..i - 1];
  }

  /** The first byte of a body is read as one after no data. */
  lemma {:induction false} FirstScanned(boundary: string, h: seq<Event>, index: nat, c: char)
    requires |boundary| > 0
    ensures var m0 := Body(h, index);
            var m := m0.(state := PartData, heard := BodySoFar(h, "", 0));
            Consistent(boundary, m0) && Scanning(boundary, h, "", m) && Step(boundary, m0, c) == Step(boundary, m, c)
  {
  }

  lemma {:induction false} Scanned(boundary: string, h: seq<Event>, t: string, m: Machine, c: char, s: string)
    requires Restartable(boundary)
    requires Scanning(boundary, h, t, m)
    requires |t| + 1 < |s| && t + [c] == s[..|t| + 1] && EndsWithFirst(Delimiter(boundary), s)
    ensures Step(boundary, m, c).Accept? && Scanning(boundary, h, t + [c], Step(boundary, m, c).m)
  {
    var d, held := Delimiter(boundary), |Held(boundary, m)|;
    HeldIsPrefix(boundary, m);
    if c != d[held] {
      ScanBreaks(boundary, h, t, m, c);
    } else if held + 1 < |d| {
      ScanHolds(boundary, h, t, m, c);
    } else {
      ScanEnds(boundary, h, t, m, c);
      OccursInLonger(d, t + [c], s, |t| + 1 - |d|);
      assert false;
    }
  }

  lemma {:induction false} RestartableExtracts(boundary: string, h: seq<Event>, index: nat, s: string)
    requires |boundary| > 0 && Restartable(boundary)
    requires EndsWithFirst(Delimiter(boundary), s)
    ensures Feed(boundary, Body(h, index), s) ==
              Fed(AfterPart(boundary, h, s[..|s| - |Delimiter(boundary)|]), |s|, false)
  {
    hide Step;
    hide Scanning;
    hide CompatibleAt;
    hide OccursAt;
    hide Restartable;
    hide Feed;
    var d, t, c := Delimiter(boundary), s[..|s| - 1], s[|s| - 1];
    LongEnough(d, s);
    ScanPrefix(boundary, h, index, s, |s| - 1);
    FedOneMore(boundary, Body(h, index), s, |s|);
    var m := Feed(boundary, Body(h, index), t).m;
    assert s[..|s|] == s;
    AllButOneHeld(boundary, h, s, m);
    ScanEnds(boundary, h, t, m, c);
  }

  lemma {:induction false} LongEnough(d: string, s: string)
    requires |d| > 2 && EndsWithFirst(d, s)
    ensures |s| > 2
  {
  }

  /** Before its last byte, all of a first delimiter at the end is held. */
  lemma {:induction false} AllButOneHeld(boundary: string, h: seq<Event>, s: string, m: Machine)
    requires s != "" && EndsWithFirst(Delimiter(boundary), s) && Scanning(boundary, h, s[..|s| - 1], m)
    ensures |Held(boundary, m)| == |Delimiter(boundary)| - 1
            && s[|s| - 1] == Delimiter(boundary)[|Delimiter(boundary)| - 1]
  {
    hide BodySoFar;
    var d, t := Delimiter(boundary), s[..|s| - 1];
    var e := |s| - |d|;
    HeldIsPrefix(boundary, m);
    assert s[e + (|d| - 1)] == d[|d| - 1];
    forall j | 0 <= j < |d| && e + j < |t| ensures t[e + j] == d[j] {
      assert s[e + j] == d[j];
    }
    assert CompatibleAt(d, t, e);
  }

  lemma {:induction false} NoCrIsRestartable(boundary: string)
    requires CR !in boundary
    ensures Restartable(boundary)
  {
    var d := Delimiter(boundary);
    forall k | 1 <= k < |d| ensures d[k] != CR {
      if k >= 2 { assert d[k] == boundary[k - 2]; }
    }
  }

  // ---- necessity

  /** A CR inside the delimiter from which the delimiter does not run on to its end. */
  predicate Stray(d: string, k: nat) {
    1 <= k < |d| && d[k] == CR && !CompatibleAt(d, d, k)
  }

  lemma FirstStray(d: string, k0: nat) returns (k: nat)
    requires Stray(d, k0)
    ensures Stray(d, k) && forall i :: 0 <= i < k ==> !Stray(d, i)
  {
    k := 0;
    while !Stray(d, k)
      invariant k <= k0
      invariant forall i :: 0 <= i < k ==> !Stray(d, i)
      decreases k0 - k
    {
      k := k + 1;
    }
  }

  /** Where the run from a stray CR first parts from the delimiter. */
  lemma FirstParting(d: string, k: nat) returns (x: nat)
    requires Stray(d, k) && d[0] == CR
    ensures k < x < |d| && d[x] != d[x - k]
    ensures forall i :: k <= i < x ==> d[i] == d[i - k]
  {
    var j0 :| 0 <= j0 < |d| && k + j0 < |d| && d[k + j0] != d[j0];
    x := k;
    while d[x] == d[x - k]
      invariant k <= x <= k + j0
      invariant forall i :: k <= i < x ==> d[i] == d[i - k]
      decreases k + j0 - x
    {
      x := x + 1;
    }
    assert x != k;
  }

  lemma {:induction false} FeedDelimiterPrefix(boundary: string, m0: Machine, i: nat)
    requires Consistent(boundary, m0) && m0.state == PartDataStart
    requires 0 < i < |Delimiter(boundary)|
    ensures var f := Feed(boundary, m0, Delimiter(boundary)[..i]);
            !f.rejected && InBody(f.m) && |Held(boundary, f.m)| == i
  {
    hide Hear;
    hide Step;
    hide Feed;
    hide Held;
    var d := Delimiter(boundary);
    FedOneMore(boundary, m0, d, i);
    if i == 1 {
      FirstHeld(boundary, m0);
    } else {
      FeedDelimiterPrefix(boundary, m0, i - 1);
      StepHolds(boundary, Feed(boundary, m0, d[..i - 1]).m, d[i - 1]);
    }
  }

  lemma {:induction false} FirstHeld(boundary: string, m0: Machine)
    requires Consistent(boundary, m0) && m0.state == PartDataStart
    ensures var o := Step(boundary, m0, Delimiter(boundary)[0]); o.Accept? && InBody(o.m) && |Held(boundary, o.m)| == 1
  {
    hide Hear;
  }

  /** The held bytes grow by at most one a byte, so too few bytes cannot complete a delimiter. */
  lemma {:induction false} TooFewBytes(boundary: string, m: Machine, t: string)
    requires Consistent(boundary, m) && InBody(m)
    requires |Held(boundary, m)| + |t| < |Delimiter(boundary)|
    ensures var f := Feed(boundary, m, t);
            !f.rejected && InBody(f.m) && |Held(boundary, f.m)| <= |Held(boundary, m)| + |t|
    decreases |t|
  {
    hide Step;
    hide Hear;
    if t != "" {
      var t', c := t[..|t| - 1], t[|t| - 1];
      TooFewBytes(boundary, m, t');
      var m' := Feed(boundary, m, t').m;
      if c == Delimiter(boundary)[|Held(boundary, m')|] {
        StepHolds(boundary, m', c);
      } else {
        StepBreaks(boundary, m', c);
      }
    }
  }

  /** The text on which a boundary that is not restartable makes the parser miss a delimiter: it
      breaks the match that began at 0 where the one that began at the stray CR goes on. */
  lemma {:induction false} StrayText(d: string, k: nat, x: nat)
    requires Stray(d, k) && d[0] == CR && forall i :: 0 <= i < k ==> !Stray(d, i)
    requires k < x < |d| && d[x] != d[x - k] && forall i :: k <= i < x ==> d[i] == d[i - k]
    ensures EndsWithFirst(d, d[..x] + ([d[x - k]] + d[x - k + 1..]))
  {
    var s := d[..x] + ([d[x - k]] + d[x - k + 1..]);
    assert |s| - |d| == k;
    forall j | 0 <= j < |d| ensures s[k + j] == d[j] {
      if k + j < x { assert d[k + j] == d[j]; }
    }
    assert OccursAt(d, s, k);
    forall p | 0 <= p < k ensures !OccursAt(d, s, p) {
      assert s[x] == d[x - k] != d[x];
      if p == 0 {
        assert s[0 + x] != d[x];
      } else if d[p] == CR {
        assert !Stray(d, p);
        assert CompatibleAt(d, d, p);
        assert d[p + (x - p)] == d[x - p];
        assert s[p + (x - p)] != d[x - p];
      } else {
        assert s[p + 0] == d[p] != d[0];
      }
    }
  }

  lemma {:induction false} BreakThenTooFew(boundary: string, m0: Machine, x: nat, c: char, rest: string)
    requires Consistent(boundary, m0) && m0.state == PartDataStart
    requires 0 < x < |Delimiter(boundary)| && c != Delimiter(boundary)[x]
    requires 1 + |rest| < |Delimiter(boundary)|
    ensures InBody(Feed(boundary, m0, Delimiter(boundary)[..x] + ([c] + rest)).m)
  {
    hide Step;
    hide Hear;
    hide Feed;
    var d := Delimiter(boundary);
    FeedDelimiterPrefix(boundary, m0, x);
    var m1 := Feed(boundary, m0, d[..x]).m;
    StepBreaks(boundary, m1, c);
    TakesByte(boundary, m1, c);
    TooFewBytes(boundary, Step(boundary, m1, c).m, rest);
    FeedAppend(boundary, m1, [c], rest);
    FeedAppend(boundary, m0, d[..x], [c] + rest);
  }

  lemma {:induction false} NotRestartableMisses(boundary: string) returns (s: string)
    requires |boundary| > 0 && !Restartable(boundary)
    ensures EndsWithFirst(Delimiter(boundary), s)
    ensures InBody(Feed(boundary, Body([], 0), s).m)
  {
    hide Feed;
    var d := Delimiter(boundary);
    var k0: nat :| 1 <= k0 < |d| && d[k0] == CR && !CompatibleAt(d, d, k0);
    assert Stray(d, k0);
    var k := FirstStray(d, k0);
    var x := FirstParting(d, k);
    StrayText(d, k, x);
    BreakThenTooFew(boundary, Body([], 0), x, d[x - k], d[x - k + 1..]);
    s := d[..x] + ([d[x - k]] + d[x - k + 1..]);
  }

  /** The parser extracts every part exactly if and only if its boundary is restartable. */
  lemma {:induction false} ExtractionIsExact(boundary: string)
    requires |boundary| > 0
    ensures ExtractsEveryPart(boundary) <==> Restartable(boundary)
  {
    hide Feed;
    hide OccursAt;
    hide CompatibleAt;
    var d := Delimiter(boundary);
    if Restartable(boundary) {
      forall h: seq<Event>, index: nat, s: string | EndsWithFirst(d, s)
        ensures Feed(boundary, Body(h, index), s) == Fed(AfterPart(boundary, h, s[..|s| - |d|]), |s|, false)
      {
        RestartableExtracts(boundary, h, index, s);
      }
    } else {
      var s := NotRestartableMisses(boundary);
      assert Feed(boundary, Body([], 0), s).m != AfterPart(boundary, [], s[..|s| - |d|]);
    }
  }

  /** A CR inside the boundary, after which the delimiter does not begin again. */
  lemma {:induction false} CrInBoundaryMisses()
    ensures !ExtractsEveryPart("--\rX")
  {
    hide ExtractsEveryPart;
    var d := Delimiter("--\rX");
    assert d[4] == CR && d[4 + 1] != d[1];
    assert !CompatibleAt(d, d, 4);
    ExtractionIsExact("--\rX");
  }

  /** In particular, with a boundary free of CR, a body is reported byte for byte up to its delimiter. */
  lemma {:induction false} PartExtracted(boundary: string, h: seq<Event>, index: nat, body: string)
    requires |boundary| > 0 && CR !in boundary
    requires forall k :: 0 <= k < |body| ==> !OccursAt(Delimiter(boundary), body, k)
    ensures Takes(boundary, Body(h, index), body + Delimiter(boundary), AfterPart(boundary, h, body))
  {
    var d := Delimiter(boundary);
    var s := body + d;
    NoCrIsRestartable(boundary);
    assert OccursAt(d, s, |body|);
    forall k | 0 <= k < |body| ensures !OccursAt(d, s, k) {
      if k + |d| <= |body| {
        assert !OccursAt(d, body, k);
        assert !CompatibleAt(d, body, k);
        var j :| 0 <= j < |d| && k + j < |body| && body[k + j] != d[j];
        assert s[k + j] == body[k + j] != d[j];
      } else {
        assert s[k + (|body| - k)] == CR;
        assert d[|body| - k] != CR by {
          if |body| - k >= 2 { assert d[|body| - k] == boundary[|body| - k - 2]; }
        }
      }
    }
    RestartableExtracts(boundary, h, index, s);
    assert s[..|s| - |d|] == body;
  }
}
