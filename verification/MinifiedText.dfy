/** What minifying makes of a text, byte by byte, and what that is: the text is cut into pieces, of which strings and
    the bytes that are no blanks and no slashes are kept. */
module MinifiedText {
  import opened Bytes
  import opened JsonString

  const STAR: Byte := 42

  /** After a `//` comment: past its newline, or at the end of the text. */
  function LineEnd(c: Text, p: nat): (q: nat)
    requires Terminated(c) && p < |c|
    ensures p <= q < |c|
    decreases |c| - p
  {
    if c[p] == 0 then p else if c[p] == NEWLINE then p + 1 else LineEnd(c, p + 1)
  }

  function CommentEnd(c: Text, p: nat): (q: nat)
    requires Terminated(c) && p < |c|
    ensures p <= q < |c|
    decreases |c| - p
  {
    if c[p] == 0 then p else if c[p] == STAR && c[p + 1] == SLASH then p + 2 else CommentEnd(c, p + 1)
  }

  predicate IsBlank(b: Byte) { b in [32, 9, 13, 10] }

  /** What minifying makes of the text from `p` on. */
  function Minified(c: Text, p: nat): Text
    requires Terminated(c) && p < |c|
    decreases |c| - p
  {
    if c[p] == 0 then []
    else if IsBlank(c[p]) then Minified(c, p + 1)
    else if c[p] == SLASH then
      if c[p + 1] == SLASH then Minified(c, LineEnd(c, p + 2))
      else if c[p + 1] == STAR then Minified(c, CommentEnd(c, p + 2))
      else Minified(c, p + 1)
    else if c[p] == QUOTE then [QUOTE] + InString(c, p + 1)
    else [c[p]] + Minified(c, p + 1)
  }

  /** The same from inside a string: it is copied to its end. */
  function InString(c: Text, p: nat): Text
    requires Terminated(c) && p < |c|
    decreases |c| - p
  {
    if c[p] == 0 then []
    else if c[p] == QUOTE then [QUOTE] + Minified(c, p + 1)
    else if c[p] == BACKSLASH && c[p + 1] == QUOTE then [BACKSLASH, QUOTE] + InString(c, p + 2)
    else [c[p]] + InString(c, p + 1)
  }

  // ---- byte by byte

  lemma {:induction false} StringStep(c: Text, q: nat)
    requires Terminated(c) && q < |c| && c[q] != 0
    ensures q + 1 < |c| && (c[q] == BACKSLASH && c[q + 1] == QUOTE ==> q + 2 < |c|)
    ensures InString(c, q)
            == if c[q] == QUOTE then [QUOTE] + Minified(c, q + 1)
               else if c[q] == BACKSLASH && c[q + 1] == QUOTE then [BACKSLASH, QUOTE] + InString(c, q + 2)
               else [c[q]] + InString(c, q + 1)
  {
  }

  lemma {:induction false} StringOpens(c: Text, p: nat)
    requires Terminated(c) && p < |c| && c[p] == QUOTE
    ensures Minified(c, p) == [QUOTE] + InString(c, p + 1)
  {
  }

  lemma {:induction false} StringRunsOut(c: Text, q: nat)
    requires Terminated(c) && q < |c| && c[q] == 0
    ensures InString(c, q) == Minified(c, q) == []
  {
  }

  // ---- the pieces of a text

  /** A text is a sequence of these: a byte that is kept, a blank, a slash alone, a comment to the end of its line, a
      comment between its marks, a string; and at its end perhaps a comment or a string that is not closed. */
  datatype Piece =
    | Kept(b: Byte)
    | Blank(b: Byte)
    | Slash
    | Line(t: Text)
    | Block(t: Text)
    | Literal(t: Text)
    | OpenLine(t: Text)
    | OpenBlock(t: Text)
    | OpenLiteral(t: Text)

  function Spelled(p: Piece): (t: Text)
    ensures t != []
  {
    match p
    case Kept(b) => [b]
    case Blank(b) => [b]
    case Slash => [47]
    case Line(t) => [47, 47] + (t + [10])
    case Block(t) => [47, 42] + (t + [42, 47])
    case Literal(t) => [34] + (t + [34])
    case OpenLine(t) => [47, 47] + t
    case OpenBlock(t) => [47, 42] + t
    case OpenLiteral(t) => [34] + t
  }

  /** Strings stay as they are, and so do the bytes outside them that are no blanks and no slashes. */
  function KeptOf(p: Piece): Text {
    match p
    case Kept(b) => [b]
    case Literal(t) => [34] + (t + [34])
    case OpenLiteral(t) => [34] + t
    case _ => []
  }

  predicate NoEnd(t: Text) { forall i :: 0 <= i < |t| - 1 ==> !(t[i] == 42 && t[i + 1] == 47) }

  /** Inside a string a backslash in front of a quote takes it along, and no other quote is left. */
  predicate Inner(t: Text) {
    if t == [] then true
    else if |t| >= 2 && t[0] == 92 && t[1] == 34 then Inner(t[2..])
    else t[0] != 34 && Inner(t[1..])
  }

  predicate GoodPiece(p: Piece) {
    0 !in Spelled(p)
    && match p
       case Kept(b) => b !in [32, 9, 13, 10, 47, 34]
       case Blank(b) => b in [32, 9, 13, 10]
       case Slash => true
       case Line(t) => 10 !in t
       case Block(t) => NoEnd(t)
       case Literal(t) => Inner(t) && (t == [] || t[|t| - 1] != 92)
       case OpenLine(t) => 10 !in t
       case OpenBlock(t) => NoEnd(t)
       case OpenLiteral(t) => Inner(t)
  }

  predicate IsOpen(p: Piece) { p.OpenLine? || p.OpenBlock? || p.OpenLiteral? }

  function SpelledAll(ps: seq<Piece>): Text { if ps == [] then [] else Spelled(ps[0]) + SpelledAll(ps[1..]) }

  function KeptAll(ps: seq<Piece>): Text { if ps == [] then [] else KeptOf(ps[0]) + KeptAll(ps[1..]) }

  /** An open piece is the last. A slash alone is not followed by a slash or a star. */
  predicate GoodPieces(ps: seq<Piece>) {
    ps == []
    || (&& GoodPiece(ps[0]) && GoodPieces(ps[1..])
        && (IsOpen(ps[0]) ==> |ps| == 1)
        && (ps[0].Slash? && |ps| > 1 ==> Spelled(ps[1])[0] != 47 && Spelled(ps[1])[0] != 42))
  }

  /** Pieces that what follows them cannot change. */
  predicate Settled(ps: seq<Piece>) {
    GoodPieces(ps) && (ps != [] ==> !IsOpen(ps[|ps| - 1]) && !ps[|ps| - 1].Slash?)
  }

  lemma {:induction false} LineEndIs(t: Text, c: Text, p: nat)
    requires Terminated(c) && StandsAt(t + [10], c, p) && 10 !in t && 0 !in t && p + |t| + 1 < |c|
    ensures LineEnd(c, p) == p + |t| + 1
    decreases |t|
  {
    StandingByte(t + [10], c, p, 0);
    if t != [] {
      assert t[0] in t && forall x :: x in t[1..] ==> x in t;
      assert t + [10] == [t[0]] + (t[1..] + [10]);
      StandsSplit([t[0]], t[1..] + [10], c, p);
      LineEndIs(t[1..], c, p + 1);
    }
  }

  lemma {:induction false} LineRunsOut(t: Text, c: Text, p: nat)
    requires Terminated(c) && StandsAt(t, c, p) && 10 !in t && 0 !in t && p + |t| < |c| && c[p + |t|] == 0
    ensures LineEnd(c, p) == p + |t|
    decreases |t|
  {
    if t != [] {
      StandingByte(t, c, p, 0);
      assert t[0] in t && forall x :: x in t[1..] ==> x in t;
      assert t == [t[0]] + t[1..];
      StandsSplit([t[0]], t[1..], c, p);
      LineRunsOut(t[1..], c, p + 1);
    }
  }

  lemma {:induction false} NoEndLater(t: Text)
    requires t != [] && NoEnd(t)
    ensures NoEnd(t[1..]) && (|t| > 1 ==> !(t[0] == 42 && t[1] == 47))
  {
    assert forall i :: 0 <= i < |t| - 1 ==> t[1..][i] == t[i + 1];
  }

  lemma {:induction false} CommentEndIs(t: Text, c: Text, p: nat)
    requires Terminated(c) && StandsAt(t + [42, 47], c, p) && NoEnd(t) && 0 !in t && p + |t| + 2 < |c|
    ensures CommentEnd(c, p) == p + |t| + 2
    decreases |t|
  {
    var all := t + [42, 47];
    StandingByte(all, c, p, 0);
    StandingByte(all, c, p, 1);
    if t != [] {
      NoEndLater(t);
      assert t[0] in t && forall x :: x in t[1..] ==> x in t;
      assert all == [t[0]] + (t[1..] + [42, 47]);
      StandsSplit([t[0]], t[1..] + [42, 47], c, p);
      CommentEndIs(t[1..], c, p + 1);
    }
  }

  lemma {:induction false} CommentRunsOut(t: Text, c: Text, p: nat)
    requires Terminated(c) && StandsAt(t, c, p) && NoEnd(t) && 0 !in t && p + |t| < |c| && c[p + |t|] == 0
    ensures CommentEnd(c, p) == p + |t|
    decreases |t|
  {
    if t != [] {
      NoEndLater(t);
      StandingByte(t, c, p, 0);
      if |t| > 1 { StandingByte(t, c, p, 1); }
      assert t[0] in t && forall x :: x in t[1..] ==> x in t;
      assert t == [t[0]] + t[1..];
      StandsSplit([t[0]], t[1..], c, p);
      CommentRunsOut(t[1..], c, p + 1);
    }
  }

  /** The bytes of a string that are copied in one step. */
  lemma {:induction false} InnerFirst(t: Text) returns (k: nat)
    requires t != [] && Inner(t) && 0 !in t
    ensures 1 <= k <= 2 && k <= |t| && Inner(t[k..]) && 0 !in t[k..] && t[0] != 0 && t[0] != 34
    ensures if k == 2 then t[..2] == [92, 34]
            else t[..1] == [t[0]] && (t[0] == 92 && |t| >= 2 ==> t[1] != 34)
    ensures t[k..] != [] ==> t[k..][|t| - k - 1] == t[|t| - 1]
  {
    k := if |t| >= 2 && t[0] == 92 && t[1] == 34 then 2 else 1;
    assert t[0] in t && forall x :: x in t[k..] ==> x in t;
  }

  lemma {:induction false} InnerCopied(t: Text, c: Text, p: nat)
    requires Terminated(c) && StandsAt(t, c, p) && Inner(t) && 0 !in t && p + |t| < |c|
    requires t != [] && t[|t| - 1] == 92 ==> c[p + |t|] != 34
    ensures InString(c, p) == t + InString(c, p + |t|)
    decreases |t|
  {
    hide *;
    if t == [] {
      assert t + InString(c, p + |t|) == InString(c, p);
    } else {
      var k := InnerFirst(t);
      StandingByte(t, c, p, 0);
      if |t| > 1 { StandingByte(t, c, p, 1); }
      QuoteAndBackslash();
      StringStep(c, p);
      assert t == t[..k] + t[k..];
      StandsSplit(t[..k], t[k..], c, p);
      InnerCopied(t[k..], c, p + k);
      Regrouped(t[..k], t[k..], InString(c, p + |t|));
    }
  }

  lemma {:induction false} QuoteAndBackslash()
    ensures QUOTE == 34 && BACKSLASH == 92
  {
  }

  lemma {:induction false} LiteralMinified(t: Text, c: Text, p: nat)
    requires Terminated(c) && StandsAt([34] + (t + [34]), c, p) && Inner(t) && 0 !in t && p + |t| + 2 < |c|
    requires t != [] ==> t[|t| - 1] != 92
    ensures Minified(c, p) == ([34] + (t + [34])) + Minified(c, p + |t| + 2)
  {
    hide *;
    StandsSplit([34], t + [34], c, p);
    StandsSplit(t, [34], c, p + 1);
    StandingByte([34], c, p, 0);
    StandingByte([34], c, p + 1 + |t|, 0);
    QuoteAndBackslash();
    StringOpens(c, p);
    InnerCopied(t, c, p + 1);
    StringStep(c, p + 1 + |t|);
    QuotedThen([34], t, Minified(c, p + |t| + 2));
  }

  lemma {:induction false} QuotedThen(q: Text, t: Text, rest: Text)
    ensures (q + (t + q)) + rest == q + (t + (q + rest))
  {
  }

  lemma {:induction false} OpenLiteralMinified(t: Text, c: Text, p: nat)
    requires Terminated(c) && GoodPiece(OpenLiteral(t)) && StandsAt([34] + t, c, p)
    requires p + |t| + 1 < |c| && c[p + |t| + 1] == 0
    ensures Minified(c, p) == [34] + t
  {
    hide *;
    OpenIs(t);
    StandsSplit([34], t, c, p);
    StandingByte([34], c, p, 0);
    QuoteAndBackslash();
    StringOpens(c, p);
    StringRunsOut(c, p + |t| + 1);
    InnerCopied(t, c, p + 1);
    assert t + [] == t;
  }

  lemma {:induction false} OpenIs(t: Text)
    requires GoodPiece(OpenLiteral(t))
    ensures 0 !in t && Inner(t)
  {
    hide Inner;
    assert forall x :: x in t ==> x in [34] + t;
  }

  lemma {:induction false} CommentStep(c: Text, p: nat)
    requires Terminated(c) && p < |c| && c[p] == 47
    ensures p + 1 < |c| && (c[p + 1] != 0 ==> p + 2 < |c|)
    ensures c[p + 1] == 47 ==> Minified(c, p) == Minified(c, LineEnd(c, p + 2))
    ensures c[p + 1] == 42 ==> Minified(c, p) == Minified(c, CommentEnd(c, p + 2))
    ensures c[p + 1] != 47 && c[p + 1] != 42 ==> Minified(c, p) == Minified(c, p + 1)
  {
    hide LineEnd;
    hide CommentEnd;
  }

  lemma {:induction false} OpenLineIs(t: Text)
    requires GoodPiece(OpenLine(t))
    ensures 0 !in t && 10 !in t
  {
    assert forall x :: x in t ==> x in [47, 47] + t;
  }

  lemma {:induction false} OpenBlockIs(t: Text)
    requires GoodPiece(OpenBlock(t))
    ensures 0 !in t && NoEnd(t)
  {
    assert forall x :: x in t ==> x in [47, 42] + t;
  }

  lemma {:induction false} LineMinified(t: Text, c: Text, p: nat)
    requires Terminated(c) && GoodPiece(Line(t)) && StandsAt(Spelled(Line(t)), c, p) && p + |t| + 3 < |c|
    ensures Minified(c, p) == Minified(c, p + |t| + 3)
  {
    hide LineEnd;
    hide StandsAt;
    hide Minified;
    StandsSplit([47, 47], t + [10], c, p);
    StandingByte([47, 47], c, p, 0);
    StandingByte([47, 47], c, p, 1);
    NotInMiddle([47, 47], t, [10]);
    LineEndIs(t, c, p + 2);
    CommentStep(c, p);
  }

  lemma {:induction false} BlockMinified(t: Text, c: Text, p: nat)
    requires Terminated(c) && GoodPiece(Block(t)) && StandsAt(Spelled(Block(t)), c, p) && p + |t| + 4 < |c|
    ensures Minified(c, p) == Minified(c, p + |t| + 4)
  {
    hide CommentEnd;
    hide StandsAt;
    hide Minified;
    StandsSplit([47, 42], t + [42, 47], c, p);
    StandingByte([47, 42], c, p, 0);
    StandingByte([47, 42], c, p, 1);
    NotInMiddle([47, 42], t, [42, 47]);
    CommentEndIs(t, c, p + 2);
    CommentStep(c, p);
  }

  lemma {:induction false} OpenLineMinified(t: Text, c: Text, p: nat)
    requires Terminated(c) && GoodPiece(OpenLine(t)) && StandsAt([47, 47] + t, c, p)
    requires p + |t| + 2 < |c| && c[p + |t| + 2] == 0
    ensures Minified(c, p) == []
  {
    hide *;
    StandsSplit([47, 47], t, c, p);
    StandingByte([47, 47], c, p, 0);
    StandingByte([47, 47], c, p, 1);
    OpenLineIs(t);
    LineRunsOut(t, c, p + 2);
    CommentStep(c, p);
    StringRunsOut(c, p + |t| + 2);
  }

  lemma {:induction false} OpenBlockMinified(t: Text, c: Text, p: nat)
    requires Terminated(c) && GoodPiece(OpenBlock(t)) && StandsAt([47, 42] + t, c, p)
    requires p + |t| + 2 < |c| && c[p + |t| + 2] == 0
    ensures Minified(c, p) == []
  {
    hide *;
    StandsSplit([47, 42], t, c, p);
    StandingByte([47, 42], c, p, 0);
    StandingByte([47, 42], c, p, 1);
    OpenBlockIs(t);
    CommentRunsOut(t, c, p + 2);
    CommentStep(c, p);
    StringRunsOut(c, p + |t| + 2);
  }

  lemma {:induction false} ByteMinified(x: Piece, c: Text, p: nat)
    requires Terminated(c) && GoodPiece(x) && StandsAt(Spelled(x), c, p) && p + 1 < |c|
    requires x.Kept? || x.Blank? || (x.Slash? && c[p + 1] != 47 && c[p + 1] != 42)
    ensures Minified(c, p) == KeptOf(x) + Minified(c, p + 1)
  {
    StandingByte(Spelled(x), c, p, 0);
    assert c[p] in Spelled(x);
  }

  /** What minifying makes of one piece, and of what follows it. */
  lemma {:induction false} PieceMinified(x: Piece, c: Text, p: nat)
    requires Terminated(c) && GoodPiece(x) && StandsAt(Spelled(x), c, p) && p + |Spelled(x)| < |c|
    requires IsOpen(x) ==> c[p + |Spelled(x)|] == 0
    requires x.Slash? ==> c[p + 1] != 47 && c[p + 1] != 42
    ensures Minified(c, p) == KeptOf(x) + Minified(c, p + |Spelled(x)|)
  {
    hide Minified;
    hide GoodPiece;
    hide StandsAt;
    match x
    case Line(t) => LineMinified(t, c, p);
    case Block(t) => BlockMinified(t, c, p);
    case Literal(t) =>
      LiteralIs(t);
      LiteralMinified(t, c, p);
    case OpenLine(t) =>
      OpenLineMinified(t, c, p);
      StringRunsOut(c, p + |t| + 2);
    case OpenBlock(t) =>
      OpenBlockMinified(t, c, p);
      StringRunsOut(c, p + |t| + 2);
    case OpenLiteral(t) =>
      OpenLiteralMinified(t, c, p);
      StringRunsOut(c, p + |t| + 1);
      assert ([34] + t) + [] == [34] + t;
    case _ => ByteMinified(x, c, p);
  }

  lemma {:induction false} LiteralIs(t: Text)
    requires GoodPiece(Literal(t))
    ensures Inner(t) && 0 !in t && (t != [] ==> t[|t| - 1] != 92)
  {
    hide Inner;
    NotInMiddle([34], t, [34]);
  }

  lemma {:induction false} NotInMiddle(a: Text, t: Text, b: Text)
    requires 0 !in a + (t + b)
    ensures 0 !in t
  {
    assert forall x :: x in t ==> x in a + (t + b);
  }

  lemma {:induction false} PiecesFirst(ps: seq<Piece>)
    requires ps != [] && GoodPieces(ps)
    ensures GoodPiece(ps[0]) && GoodPieces(ps[1..]) && (IsOpen(ps[0]) ==> |ps| == 1)
    ensures SpelledAll(ps) == Spelled(ps[0]) + SpelledAll(ps[1..]) && KeptAll(ps) == KeptOf(ps[0]) + KeptAll(ps[1..])
    ensures |ps| > 1 ==> |SpelledAll(ps[1..])| > 0 && SpelledAll(ps[1..])[0] == Spelled(ps[1])[0]
    ensures |ps| > 1 && ps[0].Slash? ==> Spelled(ps[1])[0] != 47 && Spelled(ps[1])[0] != 42
    ensures |ps| == 1 ==> SpelledAll(ps[1..]) == [] && KeptAll(ps[1..]) == []
  {
    hide GoodPiece;
    hide Spelled;
    hide KeptOf;
    if |ps| > 1 { assert ps[1..][0] == ps[1]; }
  }

  lemma {:induction false} NoPieces()
    ensures GoodPieces([]) && SpelledAll([]) == [] && KeptAll([]) == []
  {
  }

  /** Of pieces in a text, what is kept is kept, and the rest follows. */
  lemma {:induction false} PiecesMinified(ps: seq<Piece>, c: Text, p: nat)
    requires Terminated(c) && GoodPieces(ps) && StandsAt(SpelledAll(ps), c, p) && p + |SpelledAll(ps)| < |c|
    requires ps != [] && IsOpen(ps[|ps| - 1]) ==> c[p + |SpelledAll(ps)|] == 0
    requires ps != [] && ps[|ps| - 1].Slash? ==> c[p + |SpelledAll(ps)|] != 47 && c[p + |SpelledAll(ps)|] != 42
    ensures Minified(c, p) == KeptAll(ps) + Minified(c, p + |SpelledAll(ps)|)
    decreases |ps|
  {
    hide *;
    if ps == [] {
      NoPieces();
      assert [] + Minified(c, p) == Minified(c, p);
    } else {
      PiecesFirst(ps);
      var s, rest := Spelled(ps[0]), ps[1..];
      StandsSplit(s, SpelledAll(rest), c, p);
      if |ps| > 1 {
        StandingByte(SpelledAll(rest), c, p + |s|, 0);
        assert rest[|rest| - 1] == ps[|ps| - 1];
      }
      SlashLength(ps[0]);
      PieceMinified(ps[0], c, p);
      PiecesMinified(rest, c, p + |s|);
      Regrouped(KeptOf(ps[0]), KeptAll(rest), Minified(c, p + |SpelledAll(ps)|));
    }
  }

  lemma {:induction false} SlashLength(x: Piece)
    ensures x.Slash? ==> |Spelled(x)| == 1
  {
  }

  /** If the text in front of its NUL is these pieces, minifying keeps what is to be kept of them. */
  lemma {:induction false} MinifiedIsKept(ps: seq<Piece>, c: Text)
    requires Terminated(c) && GoodPieces(ps) && SpelledAll(ps) == AsCString(c)
    ensures Minified(c, 0) == KeptAll(ps)
  {
    hide GoodPieces;
    hide SpelledAll;
    hide KeptAll;
    hide Minified;
    var n := |AsCString(c)|;
    NulEnds(c);
    assert c[..n] == SpelledAll(ps);
    PiecesMinified(ps, c, 0);
    StringRunsOut(c, n);
    assert KeptAll(ps) + [] == KeptAll(ps);
  }

  lemma {:induction false} NulEnds(c: Text)
    requires Terminated(c)
    ensures |AsCString(c)| < |c| && c[|AsCString(c)|] == 0
  {
    var s := AsCString(c);
    assert s == c[..|s|] && c[..|c|] == c;
    assert c[|c| - 1] in c;
  }

  // every text is cut into pieces

  lemma {:induction false} LineFound(c: Text, p: nat, e: nat)
    requires Terminated(c) && p <= e < |c| && c[e] == 0 && 0 !in c[p..e]
    ensures var q := LineEnd(c, p);
            && p <= q <= e && if q > p && c[q - 1] == 10 then 10 !in c[p..q - 1] else q == e && 10 !in c[p..q]
    decreases e - p
  {
    if p < e {
      assert c[p] == c[p..e][0];
      if c[p] != 10 {
        assert forall x :: x in c[p + 1..e] ==> x in c[p..e];
        LineFound(c, p + 1, e);
        var q := LineEnd(c, p);
        assert c[p..q] == [c[p]] + c[p + 1..q];
        if q > p + 1 { assert c[p..q - 1] == [c[p]] + c[p + 1..q - 1]; }
      } else {
        assert c[p..p] == [];
      }
    }
  }

  lemma {:induction false} NoEndFirst(c: Text, p: nat, q: nat)
    requires p < q <= |c| && NoEnd(c[p + 1..q]) && (p + 1 < q ==> !(c[p] == 42 && c[p + 1] == 47))
    ensures NoEnd(c[p..q])
  {
    var t, r := c[p..q], c[p + 1..q];
    forall i | 0 <= i < |t| - 1 ensures !(t[i] == 42 && t[i + 1] == 47) {
      if i > 0 { assert t[i] == r[i - 1] && t[i + 1] == r[i]; }
    }
  }

  lemma {:induction false} CommentFound(c: Text, p: nat, e: nat) returns (closed: bool)
    requires Terminated(c) && p <= e < |c| && c[e] == 0 && 0 !in c[p..e]
    ensures var q := CommentEnd(c, p);
            && p <= q <= e
            && if closed then q >= p + 2 && c[q - 2..q] == [42, 47] && NoEnd(c[p..q - 2]) else q == e && NoEnd(c[p..q])
    decreases e - p
  {
    closed := false;
    if p < e {
      assert c[p] == c[p..e][0];
      assert p + 1 < e ==> c[p + 1] == c[p..e][1];
      if c[p] == 42 && c[p + 1] == 47 {
        closed := true;
        assert c[p..p] == [];
      } else {
        assert forall x :: x in c[p + 1..e] ==> x in c[p..e];
        closed := CommentFound(c, p + 1, e);
        var q := CommentEnd(c, p);
        if closed {
          if q > p + 2 { NoEndFirst(c, p, q - 2); }
        } else {
          NoEndFirst(c, p, q);
        }
      }
    }
  }

  /** A string that begins at `p`: up to its closing quote, or to the end. */
  lemma {:induction false} LiteralFound(c: Text, p: nat, e: nat) returns (closed: bool, q: nat)
    requires Terminated(c) && p <= e < |c| && c[e] == 0 && 0 !in c[p..e]
    ensures p <= q <= e
    ensures Inner(c[p..q]) && if closed then q < e && c[q] == 34 && (q > p ==> c[q - 1] != 92) else q == e
    decreases e - p
  {
    closed, q := false, p;
    if p == e {
      assert c[p..q] == [];
    } else if c[p] == 34 {
      closed := true;
      assert c[p..q] == [];
    } else {
      var k := if p + 1 < e && c[p] == 92 && c[p + 1] == 34 then 2 else 1;
      assert forall x :: x in c[p + k..e] ==> x in c[p..e];
      closed, q := LiteralFound(c, p + k, e);
      var t := c[p..q];
      assert t[k..] == c[p + k..q];
    }
  }

  lemma {:induction false} PieceJoins(x: Piece, rest: seq<Piece>, c: Text, p: nat, q: nat, e: nat)
    requires p <= q <= e <= |c| && GoodPiece(x) && GoodPieces(rest)
    requires Spelled(x) == c[p..q] && SpelledAll(rest) == c[q..e]
    requires (IsOpen(x) ==> rest == []) && (x.Slash? && q < e ==> c[q] != 47 && c[q] != 42)
    ensures GoodPieces([x] + rest) && SpelledAll([x] + rest) == c[p..e]
  {
    hide GoodPiece;
    hide Spelled;
    var ps := [x] + rest;
    assert ps[1..] == rest && c[p..e] == c[p..q] + c[q..e];
    if rest != [] {
      PiecesFirst(rest);
      assert c[q..e][0] == c[q];
      assert ps[1] == rest[0];
    }
  }

  lemma {:induction false} NulFree(c: Text, p: nat, q: nat, e: nat)
    requires p <= q <= e <= |c| && 0 !in c[p..e]
    ensures 0 !in c[p..q] && 0 !in c[q..e]
  {
    assert c[p..e] == c[p..q] + c[q..e];
  }

  /** The piece that begins at `p`, and where it ends. */
  lemma {:induction false} PieceFound(c: Text, p: nat, e: nat) returns (x: Piece, q: nat)
    requires Terminated(c) && p < e < |c| && c[e] == 0 && 0 !in c[p..e]
    ensures p < q <= e && GoodPiece(x) && Spelled(x) == c[p..q]
    ensures (IsOpen(x) ==> q == e) && (x.Slash? && q < e ==> c[q] != 47 && c[q] != 42)
  {
    hide *;
    if c[p] == 47 && p + 1 < e && c[p + 1] == 47 {
      NulFree(c, p, p + 2, e);
      LineFound(c, p + 2, e);
      q := LineEnd(c, p + 2);
      NulFree(c, p, q, e);
      x := LinePiece(c, p, q);
    } else if c[p] == 47 && p + 1 < e && c[p + 1] == 42 {
      NulFree(c, p, p + 2, e);
      var closed := CommentFound(c, p + 2, e);
      q := CommentEnd(c, p + 2);
      NulFree(c, p, q, e);
      x := BlockPiece(c, p, q, closed);
    } else if c[p] == 34 {
      NulFree(c, p, p + 1, e);
      var closed;
      closed, q := LiteralFound(c, p + 1, e);
      if closed { q := q + 1; }
      NulFree(c, p, q, e);
      x := LiteralPiece(c, p, q, closed);
    } else {
      q := p + 1;
      NulFree(c, p, q, e);
      x := BytePiece(c, p);
    }
  }

  lemma {:induction false} BytePiece(c: Text, p: nat) returns (x: Piece)
    requires p < |c| && 0 !in c[p..p + 1] && c[p] != 34
    ensures GoodPiece(x) && Spelled(x) == c[p..p + 1] && !IsOpen(x) && (x.Slash? <==> c[p] == 47)
  {
    x := if c[p] == 47 then Slash else if c[p] in [32, 9, 13, 10] then Blank(c[p]) else Kept(c[p]);
    assert c[p..p + 1] == [c[p]];
  }

  lemma {:induction false} LinePiece(c: Text, p: nat, q: nat) returns (x: Piece)
    requires p + 2 <= q <= |c| && c[p] == 47 && c[p + 1] == 47 && 0 !in c[p..q]
    requires if q > p + 2 && c[q - 1] == 10 then 10 !in c[p + 2..q - 1] else 10 !in c[p + 2..q]
    ensures GoodPiece(x) && Spelled(x) == c[p..q] && !x.Slash?
    ensures IsOpen(x) <==> !(q > p + 2 && c[q - 1] == 10)
  {
    hide *;
    if q > p + 2 && c[q - 1] == 10 {
      x := Line(c[p + 2..q - 1]);
      ClosedLine(c, p, q);
    } else {
      x := OpenLine(c[p + 2..q]);
      UnclosedLine(c, p, q);
    }
  }

  lemma {:induction false} ClosedLine(c: Text, p: nat, q: nat)
    requires p + 2 < q <= |c| && c[p] == 47 && c[p + 1] == 47 && c[q - 1] == 10 && 0 !in c[p..q]
             && 10 !in c[p + 2..q - 1]
    ensures var x := Line(c[p + 2..q - 1]); GoodPiece(x) && Spelled(x) == c[p..q] && !x.Slash? && !IsOpen(x)
  {
    assert c[p..q] == [47, 47] + (c[p + 2..q - 1] + [10]);
  }

  lemma {:induction false} UnclosedLine(c: Text, p: nat, q: nat)
    requires p + 2 <= q <= |c| && c[p] == 47 && c[p + 1] == 47 && 0 !in c[p..q] && 10 !in c[p + 2..q]
    ensures var x := OpenLine(c[p + 2..q]); GoodPiece(x) && Spelled(x) == c[p..q] && !x.Slash? && IsOpen(x)
  {
    assert c[p..q] == [47, 47] + c[p + 2..q];
  }

  lemma {:induction false} BlockPiece(c: Text, p: nat, q: nat, closed: bool) returns (x: Piece)
    requires p + 2 <= q <= |c| && c[p] == 47 && c[p + 1] == 42 && 0 !in c[p..q]
    requires if closed then q >= p + 4 && c[q - 2..q] == [42, 47] && NoEnd(c[p + 2..q - 2]) else NoEnd(c[p + 2..q])
    ensures GoodPiece(x) && Spelled(x) == c[p..q] && !x.Slash? && (IsOpen(x) <==> !closed)
  {
    hide *;
    if closed {
      x := Block(c[p + 2..q - 2]);
      ClosedBlock(c, p, q);
    } else {
      x := OpenBlock(c[p + 2..q]);
      UnclosedBlock(c, p, q);
    }
  }

  lemma {:induction false} ClosedBlock(c: Text, p: nat, q: nat)
    requires p + 4 <= q <= |c| && c[p] == 47 && c[p + 1] == 42 && c[q - 2..q] == [42, 47] && 0 !in c[p..q]
    requires NoEnd(c[p + 2..q - 2])
    ensures var x := Block(c[p + 2..q - 2]); GoodPiece(x) && Spelled(x) == c[p..q] && !x.Slash? && !IsOpen(x)
  {
    hide NoEnd;
    assert c[p..q] == [47, 42] + (c[p + 2..q - 2] + c[q - 2..q]);
  }

  lemma {:induction false} UnclosedBlock(c: Text, p: nat, q: nat)
    requires p + 2 <= q <= |c| && c[p] == 47 && c[p + 1] == 42 && 0 !in c[p..q] && NoEnd(c[p + 2..q])
    ensures var x := OpenBlock(c[p + 2..q]); GoodPiece(x) && Spelled(x) == c[p..q] && !x.Slash? && IsOpen(x)
  {
    hide NoEnd;
    assert c[p..q] == [47, 42] + c[p + 2..q];
  }

  lemma {:induction false} LiteralPiece(c: Text, p: nat, q: nat, closed: bool) returns (x: Piece)
    requires p + 1 <= q <= |c| && c[p] == 34 && 0 !in c[p..q]
    requires if closed then q >= p + 2 && c[q - 1] == 34 && Inner(c[p + 1..q - 1]) && (q > p + 2 ==> c[q - 2] != 92)
             else Inner(c[p + 1..q])
    ensures GoodPiece(x) && Spelled(x) == c[p..q] && !x.Slash? && (IsOpen(x) <==> !closed)
  {
    hide *;
    if closed {
      x := Literal(c[p + 1..q - 1]);
      ClosedLiteral(c, p, q);
    } else {
      x := OpenLiteral(c[p + 1..q]);
      UnclosedLiteral(c, p, q);
    }
  }

  lemma {:induction false} ClosedLiteral(c: Text, p: nat, q: nat)
    requires p + 2 <= q <= |c| && c[p] == 34 && c[q - 1] == 34 && 0 !in c[p..q] && Inner(c[p + 1..q - 1])
    requires q > p + 2 ==> c[q - 2] != 92
    ensures var x := Literal(c[p + 1..q - 1]); GoodPiece(x) && Spelled(x) == c[p..q] && !x.Slash? && !IsOpen(x)
  {
    hide Inner;
    assert c[p..q] == [34] + (c[p + 1..q - 1] + [34]);
  }

  lemma {:induction false} UnclosedLiteral(c: Text, p: nat, q: nat)
    requires p + 1 <= q <= |c| && c[p] == 34 && 0 !in c[p..q] && Inner(c[p + 1..q])
    ensures var x := OpenLiteral(c[p + 1..q]); GoodPiece(x) && Spelled(x) == c[p..q] && !x.Slash? && IsOpen(x)
  {
    hide Inner;
    assert c[p..q] == [34] + c[p + 1..q];
  }

  /** Every text is pieces. */
  lemma {:induction false} PiecesFound(c: Text, p: nat, e: nat) returns (ps: seq<Piece>)
    requires Terminated(c) && p <= e < |c| && c[e] == 0 && 0 !in c[p..e]
    ensures GoodPieces(ps) && SpelledAll(ps) == c[p..e]
    decreases e - p
  {
    hide *;
    ps := [];
    if p == e {
      NoPieces();
      assert c[p..e] == [];
    } else {
      var x, q := PieceFound(c, p, e);
      NulFree(c, p, q, e);
      var rest := PiecesFound(c, q, e);
      if q == e { NothingLeft(rest, c, e); }
      PieceJoins(x, rest, c, p, q, e);
      ps := [x] + rest;
    }
  }

  lemma {:induction false} NothingLeft(ps: seq<Piece>, c: Text, e: nat)
    requires e <= |c| && SpelledAll(ps) == c[e..e]
    ensures ps == []
  {
    hide SpelledAll;
    PiecesLength(ps);
  }

  lemma {:induction false} PiecesLength(ps: seq<Piece>)
    ensures ps != [] ==> |SpelledAll(ps)| > 0
  {
    hide Spelled;
    if ps != [] { assert |Spelled(ps[0])| > 0; }
  }

  /** What minifying leaves of a text: it is pieces, and what is to be kept of them. */
  ghost predicate IsMinified(c: Text, t: Text) {
    exists ps :: GoodPieces(ps) && SpelledAll(ps) == AsCString(c) && t == KeptAll(ps)
  }

  lemma {:induction false} MinifiedIsExact(c: Text, t: Text)
    requires Terminated(c)
    ensures t == Minified(c, 0) <==> IsMinified(c, t)
  {
    hide GoodPieces;
    hide SpelledAll;
    hide KeptAll;
    hide Minified;
    var n := |AsCString(c)|;
    NulEnds(c);
    assert c[0..n] == c[..n] == AsCString(c);
    var ps := PiecesFound(c, 0, n);
    MinifiedIsKept(ps, c);
    if IsMinified(c, t) {
      var qs :| GoodPieces(qs) && SpelledAll(qs) == AsCString(c) && t == KeptAll(qs);
      MinifiedIsKept(qs, c);
    }
  }

  // ---- comments and blanks make no difference

  predicate IsNote(x: Piece) { x.Blank? || x.Line? || x.Block? }

  /** A blank or a comment between these pieces and a text does not show. */
  predicate Unseen(ps: seq<Piece>, note: Piece, b: Text)
    requires Terminated(b)
  {
    Minified(SpelledAll(ps) + (Spelled(note) + b), 0) == Minified(SpelledAll(ps) + b, 0)
  }

  lemma {:induction false} PrefixMinified(ps: seq<Piece>, b: Text, c: Text, p: nat)
    requires Terminated(c) && c == SpelledAll(ps) + b && p == |SpelledAll(ps)| && Settled(ps) && b != []
    ensures Minified(c, 0) == KeptAll(ps) + Minified(c, p)
  {
    hide GoodPieces;
    hide SpelledAll;
    hide KeptAll;
    hide Minified;
    assert c[0..p] == SpelledAll(ps);
    PiecesMinified(ps, c, 0);
  }

  /** From where `b` begins, only `b` counts. */
  lemma {:induction false} SuffixMinified(a: Text, b: Text, n: nat, qs: seq<Piece>)
    requires Terminated(b) && n == |AsCString(b)| && GoodPieces(qs) && SpelledAll(qs) == AsCString(b)
    ensures Terminated(a + b) && Minified(a + b, |a|) == KeptAll(qs)
  {
    hide GoodPieces;
    hide SpelledAll;
    hide KeptAll;
    hide Minified;
    var c := a + b;
    NulEnds(b);
    assert c[|a|..|a| + n] == b[..n];
    assert c[|a| + n] == 0;
    PiecesMinified(qs, c, |a|);
    StringRunsOut(c, |a| + n);
    assert KeptAll(qs) + [] == KeptAll(qs);
  }

  lemma {:induction false} NoteIsUnseen(ps: seq<Piece>, note: Piece, b: Text)
    requires Terminated(b) && Settled(ps) && IsNote(note) && GoodPiece(note)
    ensures Unseen(ps, note, b)
  {
    hide *;
    var a, n := SpelledAll(ps), |AsCString(b)|;
    NulEnds(b);
    assert b[0..n] == b[..n] == AsCString(b);
    NoNulBefore(b);
    EndsIn(b);
    var qs := PiecesFound(b, 0, n);
    SuffixMinified(a, b, n, qs);
    PrefixMinified(ps, b, a + b, |a|);
    var s := Spelled(note);
    var c := a + (s + b);
    assert c == (a + s) + b && s + b != [];
    SuffixMinified(a + s, b, n, qs);
    PrefixMinified(ps, s + b, c, |a|);
    NoteStands(a, s, b);
    NoteIs(note);
    PieceMinified(note, c, |a|);
    assert [] + KeptAll(qs) == KeptAll(qs);
    UnseenIs(ps, note, b);
  }

  lemma {:induction false} EndsIn(b: Text)
    requires Terminated(b)
    ensures b != []
  {
  }

  lemma {:induction false} NoNulBefore(b: Text)
    ensures 0 !in AsCString(b) && AsCString(b) <= b
  {
  }

  lemma {:induction false} NoteStands(a: Text, s: Text, b: Text)
    ensures StandsAt(s, a + (s + b), |a|)
  {
  }

  lemma {:induction false} NoteIs(x: Piece)
    requires IsNote(x)
    ensures KeptOf(x) == [] && !IsOpen(x) && !x.Slash?
  {
  }

  /** A blank or a comment shows after pieces if and only if they end in a slash alone. */
  lemma {:induction false} NotesAreUnseen(ps: seq<Piece>)
    requires GoodPieces(ps) && (ps != [] ==> !IsOpen(ps[|ps| - 1]))
    ensures (forall note, b :: IsNote(note) && GoodPiece(note) && Terminated(b) ==> Unseen(ps, note, b))
            <==> (ps != [] ==> !ps[|ps| - 1].Slash?)
  {
    hide *;
    if ps != [] && ps[|ps| - 1].Slash? {
      SpaceShows(ps);
    } else {
      assert Settled(ps) by { SettledIs(ps); }
      forall note, b | IsNote(note) && GoodPiece(note) && Terminated(b) ensures Unseen(ps, note, b) {
        NoteIsUnseen(ps, note, b);
      }
    }
  }

  lemma {:induction false} SettledIs(ps: seq<Piece>)
    requires GoodPieces(ps) && (ps != [] ==> !IsOpen(ps[|ps| - 1]) && !ps[|ps| - 1].Slash?)
    ensures Settled(ps)
  {
  }

  /** The slash and the one that follows it begin a comment, unless a space stands between them. */
  lemma {:induction false} SpaceShows(ps: seq<Piece>)
    requires GoodPieces(ps) && ps != [] && ps[|ps| - 1].Slash?
    ensures IsNote(Blank(32)) && GoodPiece(Blank(32)) && Terminated([47, 120, 0])
            && !Unseen(ps, Blank(32), [47, 120, 0])
  {
    hide *;
    var a, front := SpelledAll(ps), ps[..|ps| - 1];
    var x := OpenLine([120]);
    SlashLast(ps);
    CommentGood();
    PieceAppended(front, Slash);
    PieceAppended(front, x);
    var line := front + [x];
    assert ps == front + [Slash];
    assert a + [47, 120, 0] == SpelledAll(front) + [47, 47, 120] + [0];
    NoNulInPieces(line);
    EndedByNul(SpelledAll(line));
    MinifiedIsKept(line, a + [47, 120, 0]);
    var d := a + ([32] + [47, 120, 0]);
    assert d[0..|a|] == a && d[|a|..] == [32, 47, 120, 0];
    Spaced(d, |a|);
    SliceStands(d, |a|, a);
    PiecesMinified(ps, d, 0);
    assert |KeptAll(ps) + [120]| != |KeptAll(line)|;
    UnseenIs(ps, Blank(32), [47, 120, 0]);
  }

  lemma {:induction false} SliceStands(d: Text, n: nat, a: Text)
    requires n <= |d| && d[0..n] == a
    ensures StandsAt(a, d, 0)
  {
  }

  lemma {:induction false} UnseenIs(ps: seq<Piece>, note: Piece, b: Text)
    requires Terminated(b)
    ensures Unseen(ps, note, b)
            <==> Minified(SpelledAll(ps) + (Spelled(note) + b), 0) == Minified(SpelledAll(ps) + b, 0)
  {
    hide Minified;
    hide Spelled;
    hide SpelledAll;
  }

  lemma {:induction false} CommentGood()
    ensures var x := OpenLine([120]); GoodPiece(x) && Spelled(x) == [47, 47, 120] && KeptOf(x) == []
    ensures GoodPiece(Slash) && Spelled(Slash) == [47] && KeptOf(Slash) == []
    ensures IsNote(Blank(32)) && GoodPiece(Blank(32)) && Spelled(Blank(32)) == [32] && !IsOpen(Slash)
    ensures Terminated([47, 120, 0])
  {
  }

  lemma {:induction false} Spaced(d: Text, p: nat)
    requires p <= |d| && d[p..] == [32, 47, 120, 0]
    ensures Terminated(d) && d[p] == 32 && Minified(d, p) == [120]
  {
    assert d[p] == d[p..][0] && d[p + 1] == d[p..][1] && d[p + 2] == d[p..][2] && d[p + 3] == d[p..][3];
    assert Minified(d, p) == Minified(d, p + 1) == Minified(d, p + 2);
    assert Minified(d, p + 2) == [120] + Minified(d, p + 3);
  }

  /** Before a slash there is neither an open piece nor a slash alone. */
  lemma {:induction false} SlashLast(ps: seq<Piece>)
    requires GoodPieces(ps) && ps != [] && ps[|ps| - 1].Slash?
    ensures Settled(ps[..|ps| - 1])
  {
    hide GoodPiece;
    if |ps| > 1 {
      var front, rest := ps[..|ps| - 1], ps[1..];
      SlashLast(rest);
      assert front[1..] == rest[..|rest| - 1];
      assert |front| > 1 ==> front[1] == ps[1];
    }
  }

  lemma {:induction false} PieceAppended(front: seq<Piece>, x: Piece)
    requires Settled(front) && GoodPiece(x)
    ensures var ps := front + [x];
            && GoodPieces(ps) && SpelledAll(ps) == SpelledAll(front) + Spelled(x)
            && KeptAll(ps) == KeptAll(front) + KeptOf(x)
  {
    hide *;
    var ps := front + [x];
    if front == [] {
      NoPieces();
      OnePiece(x);
      assert ps == [x];
    } else {
      assert ps[1..] == front[1..] + [x];
      SettledRest(front);
      PieceAppended(front[1..], x);
      PieceFirst(front[0], front[1..] + [x], front);
      assert ps == [front[0]] + (front[1..] + [x]);
      Regrouped(Spelled(front[0]), SpelledAll(front[1..]), Spelled(x));
      Regrouped(KeptOf(front[0]), KeptAll(front[1..]), KeptOf(x));
      PiecesFirst(front);
    }
  }

  lemma {:induction false} OnePiece(x: Piece)
    requires GoodPiece(x)
    ensures GoodPieces([x]) && SpelledAll([x]) == [] + Spelled(x) && KeptAll([x]) == [] + KeptOf(x)
  {
    hide GoodPiece;
    hide Spelled;
    hide KeptOf;
    assert [x][1..] == [];
  }

  lemma {:induction false} SettledRest(ps: seq<Piece>)
    requires Settled(ps) && ps != []
    ensures GoodPieces(ps) && Settled(ps[1..]) && !IsOpen(ps[0]) && (|ps| == 1 ==> !ps[0].Slash?)
  {
    hide GoodPiece;
    hide Spelled;
    if |ps| > 1 { assert ps[1..][|ps| - 2] == ps[|ps| - 1]; }
  }

  /** A piece of `front` in front of the rest with one more piece. */
  lemma {:induction false} PieceFirst(x: Piece, rest: seq<Piece>, front: seq<Piece>)
    requires Settled(front) && front != [] && front[0] == x && GoodPieces(rest) && rest != []
    requires if |front| > 1 then rest[0] == front[1] else !x.Slash?
    ensures var ps := [x] + rest;
            GoodPieces(ps) && SpelledAll(ps) == Spelled(x) + SpelledAll(rest)
                && KeptAll(ps) == KeptOf(x) + KeptAll(rest)
  {
    hide GoodPiece;
    hide Spelled;
    hide KeptOf;
    SettledRest(front);
    var ps := [x] + rest;
    assert ps[1..] == rest && ps[1] == rest[0];
  }

  lemma {:induction false} NoNulInPieces(ps: seq<Piece>)
    requires GoodPieces(ps)
    ensures 0 !in SpelledAll(ps)
  {
    hide Spelled;
    if ps != [] { NoNulInPieces(ps[1..]); }
  }

  lemma {:induction false} EndedByNul(t: Text)
    requires 0 !in t
    ensures Terminated(t + [0]) && AsCString(t + [0]) == t
  {
    if t != [] {
      assert t[0] in t && forall x :: x in t[1..] ==> x in t;
      assert (t + [0])[1..] == t[1..] + [0];
      EndedByNul(t[1..]);
    }
  }
}
