/** Cutting the input into chunks.

    The parser may be handed its input in pieces.  How the pieces are cut never changes which bytes
    it accepts.  It does not change what the callbacks hear either, exactly when no header line has
    a name and no colon: such a name is heard only if a chunk happens to end inside it. */
module MultipartChunks {
  import opened MultipartMachine

  function Joined(chunks: seq<string>): string {
    if chunks == [] then "" else Joined(chunks[..|chunks| - 1]) + chunks[|chunks| - 1]
  }

  /** The parser called on one chunk after the other, until one of them is rejected. */
  function FeedChunks(boundary: string, m: Machine, chunks: seq<string>): (f: Fed)
    requires Consistent(boundary, m)
    ensures Consistent(boundary, f.m)
  {
    if chunks == [] then Fed(m, 0, false)
    else
      var f := FeedChunks(boundary, m, chunks[..|chunks| - 1]);
      if f.rejected then f
      else
        var g := Chunk(boundary, f.m, chunks[|chunks| - 1]);
        g.(taken := f.taken + g.taken)
  }

  /** Byte `c` ends a header line whose name has been read and whose colon has not. */
  predicate Drops(m: Machine, c: char) {
    m.state == HeaderField && c == CR && m.pending != ""
  }

  predicate EveryNameHasColon(boundary: string, m: Machine, s: string)
    requires Consistent(boundary, m)
    decreases |s|
  {
    s == "" ||
    var f := Feed(boundary, m, s[..|s| - 1]);
    && EveryNameHasColon(boundary, m, s[..|s| - 1])
    && !Drops(f.m, s[|s| - 1])
  }

  // ---- what cutting never changes

  predicate SameControl(m: Machine, n: Machine) { m.state == n.state && m.index == n.index }

  lemma {:induction false} ControlStep(boundary: string, m: Machine, n: Machine, c: char)
    requires Consistent(boundary, m) && Consistent(boundary, n) && SameControl(m, n)
    ensures Step(boundary, m, c).Accept? == Step(boundary, n, c).Accept?
    ensures SameControl(Step(boundary, m, c).m, Step(boundary, n, c).m)
  {
    hide Hear;
  }

  lemma {:induction false} ControlFeed(boundary: string, m: Machine, n: Machine, s: string)
    requires Consistent(boundary, m) && Consistent(boundary, n) && SameControl(m, n)
    ensures var f, g := Feed(boundary, m, s), Feed(boundary, n, s);
            f.taken == g.taken && f.rejected == g.rejected && SameControl(f.m, g.m)
    decreases |s|
  {
    hide Step;
    if s != "" {
      ControlFeed(boundary, m, n, s[..|s| - 1]);
      var f, g := Feed(boundary, m, s[..|s| - 1]), Feed(boundary, n, s[..|s| - 1]);
      ControlStep(boundary, f.m, g.m, s[|s| - 1]);
    }
  }

  /** Which bytes are accepted, and the state they lead to, do not depend on the chunks. */
  lemma {:induction false} AcceptanceIgnoresChunks(boundary: string, m: Machine, chunks: seq<string>)
    requires Consistent(boundary, m)
    ensures var f, g := Feed(boundary, m, Joined(chunks)), FeedChunks(boundary, m, chunks);
            f.taken == g.taken && f.rejected == g.rejected && SameControl(f.m, g.m)
  {
    hide Step;
    if chunks != [] {
      var init, last := chunks[..|chunks| - 1], chunks[|chunks| - 1];
      AcceptanceIgnoresChunks(boundary, m, init);
      FeedAppend(boundary, m, Joined(init), last);
      var f, g := Feed(boundary, m, Joined(init)), FeedChunks(boundary, m, init);
      if !f.rejected {
        ControlFeed(boundary, f.m, g.m, last);
      }
    }
  }

  // ---- sufficiency

  /** `n` heard what `m` did, or has it pending; it may have heard some of what `m` has pending. */
  predicate SameHeard(m: Machine, n: Machine) {
    Flush(m) == Flush(n) && (m.pending == "" ==> n.pending == "")
  }

  lemma {:induction false} HeardStep(boundary: string, m: Machine, n: Machine, c: char)
    requires Consistent(boundary, m) && Consistent(boundary, n) && SameHeard(m, n)
    requires Step(boundary, m, c).Accept? && !Drops(m, c)
    ensures Step(boundary, n, c).Accept? && SameHeard(Step(boundary, m, c).m, Step(boundary, n, c).m)
  {
    hide Hear;
    hide Step;
    if m.state == HeaderField {
      NameStep(boundary, m, c);
      NameStep(boundary, n, c);
      NameHeard(m, n, c);
    } else {
      assert m == n;
    }
  }

  lemma {:induction false} NameStep(boundary: string, m: Machine, c: char)
    requires Consistent(boundary, m) && m.state == HeaderField
    ensures Step(boundary, m, c) == NameByte(m, c)
  {
    hide NameByte;
  }

  lemma {:induction false} NameHeard(m: Machine, n: Machine, c: char)
    requires SameHeard(m, n) && m.state == n.state == HeaderField && NameByte(m, c).Accept? && !Drops(m, c)
    ensures NameByte(n, c).Accept? && SameHeard(NameByte(m, c).m, NameByte(n, c).m)
  {
    hide Hear;
    HearTwice(m.heard, m.pending, "");
    HearTwice(n.heard, n.pending, "");
    HearTwice(m.heard, m.pending, [c]);
    HearTwice(n.heard, n.pending, [c]);
    assert m.pending + "" == m.pending && n.pending + "" == n.pending;
    assert "" + [c] == [c];
  }

  lemma {:induction false} HeardFeed(boundary: string, m: Machine, n: Machine, s: string)
    requires Consistent(boundary, m) && Consistent(boundary, n) && SameHeard(m, n)
    requires !Feed(boundary, m, s).rejected && EveryNameHasColon(boundary, m, s)
    ensures !Feed(boundary, n, s).rejected
    ensures SameHeard(Feed(boundary, m, s).m, Feed(boundary, n, s).m)
    decreases |s|
  {
    hide Step;
    hide SameHeard;
    if s != "" {
      HeardFeed(boundary, m, n, s[..|s| - 1]);
      HeardStep(boundary, Feed(boundary, m, s[..|s| - 1]).m, Feed(boundary, n, s[..|s| - 1]).m, s[|s| - 1]);
    }
  }

  lemma {:induction false} ColonsSplit(boundary: string, m: Machine, a: string, b: string)
    requires Consistent(boundary, m)
    requires !Feed(boundary, m, a + b).rejected && EveryNameHasColon(boundary, m, a + b)
    ensures !Feed(boundary, m, a).rejected && EveryNameHasColon(boundary, m, a)
    ensures EveryNameHasColon(boundary, Feed(boundary, m, a).m, b)
    decreases |b|
  {
    hide Step;
    if b == "" {
      assert a + b == a;
    } else {
      var b' := b[..|b| - 1];
      assert (a + b)[..|a + b| - 1] == a + b';
      ColonsSplit(boundary, m, a, b');
      FeedAppend(boundary, m, a, b');
    }
  }

  lemma {:induction false} HeardChunks(boundary: string, m: Machine, chunks: seq<string>)
    requires Consistent(boundary, m) && m.pending == ""
    requires !Feed(boundary, m, Joined(chunks)).rejected
    requires EveryNameHasColon(boundary, m, Joined(chunks))
    ensures var f := FeedChunks(boundary, m, chunks);
            !f.rejected && f.m.pending == "" && SameHeard(Feed(boundary, m, Joined(chunks)).m, f.m)
  {
    hide Step;
    if chunks != [] {
      var init, last := chunks[..|chunks| - 1], chunks[|chunks| - 1];
      ColonsSplit(boundary, m, Joined(init), last);
      HeardChunks(boundary, m, init);
      FeedAppend(boundary, m, Joined(init), last);
      HeardFeed(boundary, Feed(boundary, m, Joined(init)).m, FeedChunks(boundary, m, init).m, last);
    }
  }

  // ---- necessity

  /** The bytes of header names that were heard. */
  function NameBytes(heard: seq<Event>): nat {
    if heard == [] then 0
    else NameBytes(heard[..|heard| - 1]) +
         match heard[|heard| - 1] { case OnHeaderField(name) => |name| case _ => 0 }
  }

  lemma {:induction false} HearAddsName(h: seq<Event>, e: Event)
    ensures NameBytes(Hear(h, e)) == NameBytes(h) + if e.OnHeaderField? then |e.name| else 0
  {
    var r := Hear(h, e);
    if h == [] {
      assert r[..0] == [];
    } else if |r| == |h| {
      assert r[..|r| - 1] == h[..|h| - 1];
    } else {
      assert r[..|r| - 1] == h;
    }
  }

  /** The names heard or pending grow by one byte when a name byte is read, and shrink when dropped. */
  lemma {:induction false} NamesAfterStep(boundary: string, m: Machine, c: char)
    requires Consistent(boundary, m) && Step(boundary, m, c).Accept?
    ensures var m' := Step(boundary, m, c).m;
            NameBytes(m'.heard) + |m'.pending| ==
            NameBytes(m.heard) + (if m.state in {HeaderFieldStart, HeaderField} && c == CR then 0 else |m.pending|)
                               + (if m.state in {HeaderFieldStart, HeaderField} && IsNameByte(c) then 1 else 0)
  {
    hide Hear;
    hide NameBytes;
    HearAddsName(m.heard, OnHeaderField(m.pending));
    HearAddsName(m.heard, OnHeaderValue(""));
    HearAddsName(m.heard, OnHeaderValue([c]));
    HearAddsName(m.heard, OnHeadersComplete);
    HearAddsName(m.heard, OnPartDataBegin);
    HearAddsName(m.heard, OnPartDataEnd);
    HearAddsName(m.heard, OnBodyEnd);
    forall h: seq<Event>, s: string ensures NameBytes(Hear(h, OnPartData(s))) == NameBytes(h) {
      HearAddsName(h, OnPartData(s));
    }
  }

  function Singles(s: string): (cs: seq<string>)
    ensures |cs| == |s|
  {
    if s == "" then [] else Singles(s[..|s| - 1]) + [[s[|s| - 1]]]
  }

  lemma {:induction false} SinglesJoin(s: string)
    ensures Joined(Singles(s)) == s
    decreases |s|
  {
    if s != "" {
      SinglesJoin(s[..|s| - 1]);
      assert Singles(s)[..|s| - 1] == Singles(s[..|s| - 1]);
    }
  }

  lemma {:induction false} SingleByte(boundary: string, n: Machine, c: char)
    requires Consistent(boundary, n) && n.pending == ""
    requires Step(boundary, n, c).Accept?
    ensures var g := Chunk(boundary, n, [c]);
            && g.taken == 1 && !g.rejected && g.m.pending == ""
            && NameBytes(g.m.heard) == NameBytes(n.heard) +
                 if n.state in {HeaderFieldStart, HeaderField} && IsNameByte(c) then 1 else 0
  {
    hide Step;
    hide Hear;
    hide NameBytes;
    TakesByte(boundary, n, c);
    NamesAfterStep(boundary, n, c);
    var m := Step(boundary, n, c).m;
    HearAddsName(m.heard, OnHeaderField(m.pending));
  }

  /** Fed byte by byte, the callbacks hear every name byte: the dropped ones too. */
  lemma {:induction false} SinglesHearMore(boundary: string, m: Machine, s: string)
    requires Consistent(boundary, m) && m.pending == "" && !Feed(boundary, m, s).rejected
    ensures var f, g := Feed(boundary, m, s), FeedChunks(boundary, m, Singles(s));
            && !g.rejected && SameControl(f.m, g.m) && g.m.pending == ""
            && NameBytes(f.m.heard) + |f.m.pending| <= NameBytes(g.m.heard)
            && (!EveryNameHasColon(boundary, m, s) ==> NameBytes(f.m.heard) + |f.m.pending| < NameBytes(g.m.heard))
    decreases |s|
  {
    hide Step;
    hide NameBytes;
    if s != "" {
      var s', c := s[..|s| - 1], s[|s| - 1];
      SinglesHearMore(boundary, m, s');
      assert Singles(s)[..|s| - 1] == Singles(s');
      var f, g := Feed(boundary, m, s'), FeedChunks(boundary, m, Singles(s'));
      ControlStep(boundary, f.m, g.m, c);
      NamesAfterStep(boundary, f.m, c);
      SingleByte(boundary, g.m, c);
      AcceptanceIgnoresChunks(boundary, m, Singles(s));
      SinglesJoin(s);
    }
  }

  /** No way of cutting an accepted input changes what is heard, if and only if every name has a colon. */
  lemma {:induction false} ChunksAreInvisible(boundary: string, m: Machine, s: string)
    requires Consistent(boundary, m) && m.pending == "" && !Feed(boundary, m, s).rejected
    ensures (forall chunks | Joined(chunks) == s :: FeedChunks(boundary, m, chunks) == Chunk(boundary, m, s))
            <==> EveryNameHasColon(boundary, m, s)
  {
    if EveryNameHasColon(boundary, m, s) {
      forall chunks | Joined(chunks) == s ensures FeedChunks(boundary, m, chunks) == Chunk(boundary, m, s) {
        HeardChunks(boundary, m, chunks);
        AcceptanceIgnoresChunks(boundary, m, chunks);
      }
    } else {
      SinglesJoin(s);
      SinglesHearMore(boundary, m, s);
      var f := Feed(boundary, m, s);
      HearAddsName(f.m.heard, OnHeaderField(f.m.pending));
      assert FeedChunks(boundary, m, Singles(s)) != Chunk(boundary, m, s);
    }
  }

  /** A header line "a" without a colon: cut after its name, the name is heard. */
  lemma {:induction false} NameWithoutColon()
    ensures var s := "b\r\na\r\n";
            && !Feed("b", INITIAL, s).rejected
            && exists chunks :: Joined(chunks) == s && FeedChunks("b", INITIAL, chunks) != Chunk("b", INITIAL, s)
  {
    hide Joined;
    hide FeedChunks;
    hide Chunk;
    var b, name, s := "b", "b\r\na", "b\r\na\r\n";
    var m := Machine(HeaderField, 0, "a", [OnPartDataBegin]);
    LineBegun();
    TakesByte(b, m, CR);
    TakesByte(b, Step(b, m, CR).m, LF);
    assert name + [CR] == s[..|s| - 1] && (name + [CR])[..4] == name;
    TakesAppend(b, INITIAL, name, m, [CR], Step(b, m, CR).m);
    TakesAppend(b, INITIAL, name + [CR], Step(b, m, CR).m, [LF], Step(b, Step(b, m, CR).m, LF).m);
    assert name + [CR] + [LF] == s;
    assert Drops(m, CR) && !EveryNameHasColon(b, INITIAL, name + [CR]);
    assert !EveryNameHasColon(b, INITIAL, s);
    ChunksAreInvisible(b, INITIAL, s);
  }

  lemma {:induction false} LineBegun()
    ensures Takes("b", INITIAL, "b\r\na", Machine(HeaderField, 0, "a", [OnPartDataBegin]))
  {
    hide Feed;
    var m1 := Machine(StartBoundary, 1, "", []);
    var m2 := Machine(StartBoundary, 2, "", []);
    var m3 := Machine(HeaderFieldStart, 0, "", [OnPartDataBegin]);
    assert Step("b", INITIAL, 'b').m == m1 && Step("b", m1, CR).m == m2 && Step("b", m2, LF).m == m3;
    assert Step("b", m3, 'a').m == Machine(HeaderField, 0, "a", [OnPartDataBegin]);
    TakesByte("b", INITIAL, 'b');
    TakesByte("b", m1, CR);
    TakesByte("b", m2, LF);
    TakesByte("b", m3, 'a');
    TakesAppend("b", INITIAL, ['b'], m1, [CR], m2);
    TakesAppend("b", INITIAL, ['b'] + [CR], m2, [LF], m3);
    TakesAppend("b", INITIAL, ['b'] + [CR] + [LF], m3, ['a'], Machine(HeaderField, 0, "a", [OnPartDataBegin]));
    assert ['b'] + [CR] + [LF] + ['a'] == "b\r\na";
  }
}
