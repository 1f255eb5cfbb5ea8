/** Minifying formatted text gives the unformatted text, exactly when no string that ends in a
    backslash is in the way: the minifier takes the quote after `\\` for an escaped one, and goes on
    copying, until the next quote, what it should drop. */
module MinifyCorrect {
  import opened Bytes
  import opened JsonString
  import opened JsonText
  import opened JsonMinify
  import opened MinifiedText

  predicate EndsPlain(s: Text) { s == [] || s[|s| - 1] != BACKSLASH }

  /** No string and no key in the value ends in a backslash. */
  predicate Clean(v: Json)
    decreases v, 1
  {
    match v
    case Str(s) => EndsPlain(s)
    case Arr(items) => CleanItems(items)
    case Obj(members) => CleanMembers(members)
    case _ => true
  }

  predicate CleanItems(items: seq<Json>)
    decreases items, 0
  {
    items == [] || (Clean(items[0]) && CleanItems(items[1..]))
  }

  predicate CleanMembers(members: seq<Member>)
    decreases members, 0
  {
    members == [] || (EndsPlain(members[0].key) && Clean(members[0].value) && CleanMembers(members[1..]))
  }

  /** No string or key ends in a backslash, but for a string that only closing brackets follow. */
  predicate TailSafe(v: Json)
    decreases v, 1
  {
    match v
    case Str(s) => true
    case Arr(items) => TailSafeItems(items)
    case _ => Clean(v)
  }

  predicate TailSafeItems(items: seq<Json>)
    decreases items, 0
  {
    if items == [] then true
    else if |items| == 1 then TailSafe(items[0])
    else Clean(items[0]) && TailSafeItems(items[1..])
  }

  lemma {:induction false} CleanIsTailSafe(v: Json)
    ensures Clean(v) ==> TailSafe(v)
    decreases v, 1
  {
    if v.Arr? { CleanItemsAreTailSafe(v.items); }
  }

  lemma {:induction false} CleanItemsAreTailSafe(items: seq<Json>)
    ensures CleanItems(items) ==> TailSafeItems(items)
    decreases items, 0
  {
    if items != [] {
      CleanIsTailSafe(items[0]);
      CleanItemsAreTailSafe(items[1..]);
    }
  }

  // ---- copying and dropping

  /** `t` stands at `p`, and the text goes on after it. */
  predicate At(t: Text, c: Text, p: nat) {
    Terminated(c) && StandsAt(t, c, p) && p + |t| < |c|
  }

  lemma {:induction false} AtSplit(a: Text, b: Text, c: Text, p: nat)
    requires At(a + b, c, p)
    ensures At(a, c, p) && At(b, c, p + |a|)
  {
    StandsSplit(a, b, c, p);
  }

  lemma {:induction false} AtByte(t: Text, c: Text, p: nat, i: nat)
    requires At(t, c, p) && i < |t|
    ensures c[p + i] == t[i]
  {
    assert c[p..p + |t|][i] == c[p + i];
  }

  predicate IsCopied(b: Byte) { b != 0 && !IsBlank(b) && b != SLASH && b != QUOTE }

  lemma {:induction false} Copied(t: Text, c: Text, p: nat)
    requires At(t, c, p) && forall i :: 0 <= i < |t| ==> IsCopied(t[i])
    ensures Minified(c, p) == t + Minified(c, p + |t|)
    decreases |t|
  {
    if t != [] {
      AtByte(t, c, p, 0);
      assert t == [t[0]] + t[1..];
      AtSplit([t[0]], t[1..], c, p);
      Copied(t[1..], c, p + 1);
      Regrouped([t[0]], t[1..], Minified(c, p + |t|));
    }
  }

  lemma {:induction false} Dropped(t: Text, c: Text, p: nat)
    requires At(t, c, p) && forall i :: 0 <= i < |t| ==> IsBlank(t[i])
    ensures Minified(c, p) == Minified(c, p + |t|)
    decreases |t|
  {
    if t != [] {
      AtByte(t, c, p, 0);
      assert t == [t[0]] + t[1..];
      AtSplit([t[0]], t[1..], c, p);
      Dropped(t[1..], c, p + 1);
    }
  }

  // ---- strings

  /** What comes of the text after a string: the minifier is out of the string, or still in it. */
  function After(clean: bool, c: Text, q: nat): Text
    requires Terminated(c) && q < |c|
  {
    if clean then Minified(c, q) else InString(c, q)
  }

  lemma {:induction false} InStringCopied(t: Text, c: Text, p: nat)
    requires At(t, c, p) && forall i :: 0 <= i < |t| ==> t[i] != 0 && t[i] != QUOTE && t[i] != BACKSLASH
    ensures InString(c, p) == t + InString(c, p + |t|)
    decreases |t|
  {
    if t != [] {
      AtByte(t, c, p, 0);
      assert t == [t[0]] + t[1..];
      AtSplit([t[0]], t[1..], c, p);
      InStringCopied(t[1..], c, p + 1);
      Regrouped([t[0]], t[1..], InString(c, p + |t|));
    }
  }

  /** A backslash and what it escapes, unless that is a backslash before a quote. */
  lemma {:induction false} EscapeCopied(e: Text, c: Text, p: nat)
    requires At(e, c, p) && |e| >= 2 && e[0] == BACKSLASH
    requires forall i :: 1 <= i < |e| ==> e[i] != 0 && (e[i] in [QUOTE, BACKSLASH] ==> |e| == 2)
    requires e[1] == BACKSLASH ==> c[p + 2] != QUOTE
    ensures InString(c, p) == e + InString(c, p + |e|)
  {
    hide InString;
    hide Minified;
    hide StandsAt;
    var tail := e[1..];
    assert e == [BACKSLASH] + tail;
    AtByte(e, c, p, 0);
    AtByte(e, c, p, 1);
    AtSplit([BACKSLASH], tail, c, p);
    StringStep(c, p);
    if e[1] == QUOTE {
      assert e == [BACKSLASH, QUOTE];
    } else if e[1] == BACKSLASH {
      assert e == [BACKSLASH, BACKSLASH];
      StringStep(c, p + 1);
      Regrouped([BACKSLASH], [BACKSLASH], InString(c, p + 2));
    } else {
      InStringCopied(tail, c, p + 1);
      Regrouped([BACKSLASH], tail, InString(c, p + |e|));
    }
  }

  lemma {:induction false} EscapedByteShape(b: Byte)
    requires b != 0
    ensures var e := EscapedByte(b);
            && e != [] && e[0] != QUOTE
            && (|e| == 1 ==> e[0] != 0 && e[0] != BACKSLASH)
            && (|e| > 1 ==> e[0] == BACKSLASH && forall i :: 1 <= i < |e| ==>
                e[i] != 0 && (e[i] in [QUOTE, BACKSLASH] ==> |e| == 2))
            && (|e| > 1 && e[1] == BACKSLASH <==> b == BACKSLASH)
  {
  }

  /** Inside a string, one escaped byte is copied, unless it is a backslash before the closing quote. */
  lemma {:induction false} EscapedByteCopied(b: Byte, c: Text, p: nat)
    requires b != 0 && At(EscapedByte(b), c, p)
    requires b == BACKSLASH ==> c[p + 2] != QUOTE
    ensures InString(c, p) == EscapedByte(b) + InString(c, p + |EscapedByte(b)|)
  {
    hide EscapedByte;
    EscapedByteShape(b);
    var e := EscapedByte(b);
    if |e| == 1 {
      InStringCopied(e, c, p);
    } else {
      EscapeCopied(e, c, p);
    }
  }

  lemma {:induction false} ClosingQuote(c: Text, p: nat)
    requires At([QUOTE], c, p)
    ensures InString(c, p) == [QUOTE] + Minified(c, p + 1)
  {
    AtByte([QUOTE], c, p, 0);
  }

  /** A backslash before the closing quote: the quote is copied, and the string goes on. */
  lemma {:induction false} SwallowedQuote(c: Text, p: nat)
    requires At([BACKSLASH, BACKSLASH, QUOTE], c, p)
    ensures InString(c, p) == [BACKSLASH, BACKSLASH, QUOTE] + InString(c, p + 3)
  {
    var t := [BACKSLASH, BACKSLASH, QUOTE];
    AtByte(t, c, p, 0);
    AtByte(t, c, p, 1);
    AtByte(t, c, p, 2);
    Regrouped([BACKSLASH], [BACKSLASH, QUOTE], InString(c, p + 3));
  }

  /** The first byte of a string's body, and what follows it. */
  lemma {:induction false} BodySplit(s: CString, c: Text, p: nat)
    requires s != [] && s != [BACKSLASH] && At(Escaped(s) + [QUOTE], c, p)
    ensures var e := EscapedByte(s[0]);
            && s[0] != 0 && 0 !in s[1..] && |Escaped(s)| == |e| + |Escaped(s[1..])|
            && Escaped(s) + [QUOTE] == e + (Escaped(s[1..]) + [QUOTE])
            && At(e, c, p) && At(Escaped(s[1..]) + [QUOTE], c, p + |e|)
            && EndsPlain(s) == EndsPlain(s[1..])
            && (s[0] == BACKSLASH ==> p + |e| == p + 2 && c[p + 2] != QUOTE)
  {
    hide *;
    var e, rest := EscapedByte(s[0]), Escaped(s[1..]);
    BodyTexts(s);
    AtSplit(e, rest + [QUOTE], c, p);
    BodyFirstByte(s[1..]);
    AtByte(rest + [QUOTE], c, p + |e|, 0);
  }

  lemma {:induction false} BodyTexts(s: CString)
    requires s != [] && s != [BACKSLASH]
    ensures var e, rest := EscapedByte(s[0]), Escaped(s[1..]);
            && s[0] != 0 && 0 !in s[1..] && |Escaped(s)| == |e| + |rest| && Escaped(s) + [QUOTE] == e + (rest + [QUOTE])
            && EndsPlain(s) == EndsPlain(s[1..]) && (s[0] == BACKSLASH ==> |e| == 2 && s[1..] != [])
  {
    assert s[0] in s;
    assert forall x :: x in s[1..] ==> x in s;
    if s[1..] == [] { assert s == [s[0]]; }
  }

  lemma {:induction false} ShortBodyCopied(s: CString, c: Text, p: nat)
    requires s == [] || s == [BACKSLASH]
    requires At(Escaped(s) + [QUOTE], c, p)
    ensures InString(c, p) == Escaped(s) + [QUOTE] + After(EndsPlain(s), c, p + |Escaped(s)| + 1)
  {
    if s == [] {
      assert Escaped(s) + [QUOTE] == [QUOTE];
      ClosingQuote(c, p);
    } else {
      assert s[1..] == [];
      assert Escaped(s) == [BACKSLASH, BACKSLASH];
      assert Escaped(s) + [QUOTE] == [BACKSLASH, BACKSLASH, QUOTE];
      SwallowedQuote(c, p);
    }
  }

  lemma {:induction false} BodyCopied(s: CString, c: Text, p: nat)
    requires At(Escaped(s) + [QUOTE], c, p)
    ensures InString(c, p) == Escaped(s) + [QUOTE] + After(EndsPlain(s), c, p + |Escaped(s)| + 1)
  {
    hide *;
    if s == [] || s == [BACKSLASH] {
      ShortBodyCopied(s, c, p);
    } else {
      BodySplit(s, c, p);
      AtBounds(Escaped(s) + [QUOTE], c, p);
      var e, rest := EscapedByte(s[0]), Escaped(s[1..]);
      BodyCopied(s[1..], c, p + |e|);
      EscapedByteCopied(s[0], c, p);
      Regrouped(e, rest + [QUOTE], After(EndsPlain(s[1..]), c, p + |Escaped(s)| + 1));
    }
  }

  lemma {:induction false} BodyFirstByte(s: CString)
    ensures var t := Escaped(s) + [QUOTE]; t[0] == QUOTE <==> s == []
  {
    if s != [] {
      assert s[0] in s;
      EscapedByteShape(s[0]);
      hide EscapedByte;
    }
  }

  /** A string is copied whole, and the minifier leaves it at its end just if no backslash ends it. */
  lemma {:induction false} StringMinified(s: CString, c: Text, p: nat)
    requires At(Quoted(s), c, p)
    ensures Minified(c, p) == Quoted(s) + After(EndsPlain(s), c, p + |Quoted(s)|)
  {
    hide *;
    var body := Escaped(s) + [QUOTE];
    QuotedIs(s);
    AtSplit([QUOTE], body, c, p);
    AtByte([QUOTE], c, p, 0);
    AtBounds([QUOTE], c, p);
    AtBounds(body, c, p + 1);
    StringOpens(c, p);
    BodyCopied(s, c, p + 1);
    Regrouped([QUOTE], body, After(EndsPlain(s), c, p + 1 + |body|));
  }

  lemma {:induction false} QuotedIs(s: CString)
    ensures Quoted(s) == [QUOTE] + (Escaped(s) + [QUOTE])
  {
    hide Escaped;
  }

  // ---- trees

  /** The texts differ at some byte that both have. */
  ghost predicate Apart(m: Text, u: Text) {
    exists k :: 0 <= k < |m| && k < |u| && m[k] != u[k]
  }

  lemma {:induction false} ApartAfter(a: Text, m: Text, u: Text, x: Text)
    requires Apart(m, u)
    ensures Apart(a + m, a + (u + x))
  {
    var k :| 0 <= k < |m| && k < |u| && m[k] != u[k];
    assert (a + m)[|a| + k] != (a + (u + x))[|a| + k];
  }

  lemma {:induction false} ApartAt(a: Text, m: Text, u: Text)
    requires m != [] && u != [] && m[0] != u[0]
    ensures Apart(a + m, a + u)
  {
    assert (a + m)[|a|] != (a + u)[|a|];
  }

  /** What minifying the formatted text of something at `p`, up to `q`, must come to. */
  ghost predicate Comes(c: Text, p: nat, q: nat, u: Text, safe: bool, clean: bool) {
    && Terminated(c) && p < |c| && q < |c|
    && if safe then Minified(c, p) == u + After(clean, c, q) else Apart(Minified(c, p), u)
  }

  lemma {:induction false} LiteralMinified(t: Text, c: Text, p: nat)
    requires At(t, c, p) && forall i :: 0 <= i < |t| ==> IsCopied(t[i])
    ensures Comes(c, p, p + |t|, t, true, true)
  {
    hide Minified;
    Copied(t, c, p);
  }

  lemma {:induction false} NumberMinified(n: int, c: Text, p: nat)
    requires At(Decimal(n), c, p)
    ensures Comes(c, p, p + |Decimal(n)|, Decimal(n), true, true)
  {
    hide *;
    DecimalIsCopied(n);
    LiteralMinified(Decimal(n), c, p);
  }

  lemma {:induction false} DecimalIsCopied(n: int)
    ensures forall i :: 0 <= i < |Decimal(n)| ==> IsCopied(Decimal(n)[i])
  {
    hide Digits;
    var size: nat := if n < 0 then -n else n;
    var t := Digits(size);
    assert forall i :: 0 <= i < |t| ==> IsCopied(t[i]);
    assert IsCopied(MINUS);
  }

  lemma {:induction false} ValueMinified(v: Json, d: nat, c: Text, p: nat)
    requires At(Render(v, true, d), c, p)
    ensures Comes(c, p, p + |Render(v, true, d)|, Render(v, false, d), TailSafe(v), Clean(v))
    decreases v, 3
  {
    hide Comes;
    match v
    case Null => LiteralMinified(NULL_TEXT, c, p);
    case False => LiteralMinified(FALSE_TEXT, c, p);
    case True => LiteralMinified(TRUE_TEXT, c, p);
    case Num(n) => NumberMinified(n, c, p);
    case Str(s) => StringComes(s, c, p);
    case Arr(items) => ArrayMinified(items, d, c, p);
    case Obj(members) => ObjectMinified(members, d, c, p);
  }

  lemma {:induction false} StringComes(s: CString, c: Text, p: nat)
    requires At(Quoted(s), c, p)
    ensures Comes(c, p, p + |Quoted(s)|, Quoted(s), true, EndsPlain(s))
  {
    hide Minified;
    hide Quoted;
    StringMinified(s, c, p);
  }

  // arrays

  /** A byte that is copied in or out of a string. */
  lemma {:induction false} ByteAfter(clean: bool, b: Byte, c: Text, q: nat)
    requires At([b], c, q) && IsCopied(b) && b != BACKSLASH
    ensures After(clean, c, q) == [b] + After(clean, c, q + 1)
  {
    AtByte([b], c, q, 0);
  }

  /** A blank is dropped outside a string and kept inside. */
  lemma {:induction false} BlankAfter(clean: bool, b: Byte, c: Text, q: nat)
    requires At([b], c, q) && IsBlank(b)
    ensures After(clean, c, q) == (if clean then [] else [b]) + After(clean, c, q + 1)
  {
    hide Minified;
    hide InString;
    AtByte([b], c, q, 0);
    if clean { BlankOut(c, q); } else { BlankIn(c, q); }
    assert [] + Minified(c, q + 1) == Minified(c, q + 1);
  }

  lemma {:induction false} BlankOut(c: Text, q: nat)
    requires Terminated(c) && q + 1 < |c| && IsBlank(c[q])
    ensures Minified(c, q) == Minified(c, q + 1)
  {
  }

  lemma {:induction false} BlankIn(c: Text, q: nat)
    requires Terminated(c) && q + 1 < |c| && IsBlank(c[q])
    ensures InString(c, q) == [c[q]] + InString(c, q + 1)
  {
  }

  lemma {:induction false} ArrayParts(items: seq<Json>, d: nat, c: Text, p: nat)
    requires At(Render(Arr(items), true, d), c, p)
    ensures var f := RenderItems(items, true, d + 1);
            && Render(Arr(items), false, d) == [OPEN_BRACKET] + (RenderItems(items, false, d + 1) + [CLOSE_BRACKET])
            && |Render(Arr(items), true, d)| == |f| + 2
            && At([OPEN_BRACKET], c, p) && At(f, c, p + 1) && At([CLOSE_BRACKET], c, p + 1 + |f|)
  {
    var f := RenderItems(items, true, d + 1);
    assert Render(Arr(items), true, d) == [OPEN_BRACKET] + (f + [CLOSE_BRACKET]);
    AtSplit([OPEN_BRACKET], f + [CLOSE_BRACKET], c, p);
    AtSplit(f, [CLOSE_BRACKET], c, p + 1);
  }

  lemma {:induction false} ArrayMinified(items: seq<Json>, d: nat, c: Text, p: nat)
    requires At(Render(Arr(items), true, d), c, p)
    ensures Comes(c, p, p + |Render(Arr(items), true, d)|, Render(Arr(items), false, d), TailSafeItems(items),
            CleanItems(items))
    decreases items, 2
  {
    hide *;
    BracketsAreCopied();
    var f, u := RenderItems(items, true, d + 1), RenderItems(items, false, d + 1);
    ArrayParts(items, d, c, p);
    ItemsMinified(items, d + 1, c, p + 1);
    AtBounds([CLOSE_BRACKET], c, p + 1 + |f|);
    ByteAfter(true, OPEN_BRACKET, c, p);
    ByteAfter(CleanItems(items), CLOSE_BRACKET, c, p + 1 + |f|);
    Wrapped(c, p, p + 1 + |f|, [OPEN_BRACKET], u, [CLOSE_BRACKET], TailSafeItems(items), CleanItems(items));
  }

  lemma {:induction false} BracketsAreCopied()
    ensures IsCopied(OPEN_BRACKET) && IsCopied(CLOSE_BRACKET) && IsCopied(OPEN_BRACE) && IsCopied(CLOSE_BRACE)
    ensures IsCopied(COMMA) && IsCopied(COLON)
    ensures BACKSLASH !in [OPEN_BRACKET, CLOSE_BRACKET, OPEN_BRACE, CLOSE_BRACE, COMMA, COLON]
  {
  }

  lemma {:induction false} AtBounds(t: Text, c: Text, p: nat)
    requires At(t, c, p)
    ensures Terminated(c) && p + |t| < |c|
  {
  }

  lemma {:induction false} Wrapped(c: Text, p: nat, q: nat, open: Text, u: Text, close: Text, safe: bool, clean: bool)
    requires |open| == |close| == 1 && Terminated(c) && p + 1 < |c| && q + 1 < |c|
    requires After(true, c, p) == open + After(true, c, p + 1)
    requires After(clean, c, q) == close + After(clean, c, q + 1)
    requires Comes(c, p + 1, q, u, safe, clean)
    ensures Comes(c, p, q + 1, open + (u + close), safe, clean)
  {
    hide Minified;
    hide InString;
    if safe {
      var rest := After(clean, c, q + 1);
      assert open + (u + (close + rest)) == (open + (u + close)) + rest;
    } else {
      ApartAfter(open, Minified(c, p + 1), u, close);
    }
  }

  lemma {:induction false} ItemsParts(items: seq<Json>, d: nat, c: Text, p: nat)
    requires |items| > 1 && At(RenderItems(items, true, d), c, p)
    ensures var f, rest := Render(items[0], true, d), RenderItems(items[1..], true, d);
            var o := p + |f|;
            && RenderItems(items, false, d)
                == Render(items[0], false, d) + ([COMMA] + RenderItems(items[1..], false, d))
            && |RenderItems(items, true, d)| == |f| + 2 + |rest|
            && At(f, c, p) && At([COMMA], c, o) && At([32], c, o + 1) && At(rest, c, o + 2)
  {
    hide RenderItems;
    hide Render;
    var f, rest := Render(items[0], true, d), RenderItems(items[1..], true, d);
    ItemsText(items, true, d);
    ItemsText(items, false, d);
    AtSplit(f, Separator(true) + rest, c, p);
    AtSplit(Separator(true), rest, c, p + |f|);
    assert Separator(true) == [COMMA] + [32];
    AtSplit([COMMA], [32], c, p + |f|);
  }

  /** One thing, then a byte that is copied and perhaps a blank that is dropped, then another thing. */
  lemma {:induction false} Joined(c: Text, p: nat, o: nat, x: nat, q: nat, u: Text, b: Byte, v: Text, safe: bool,
                                  clean: bool)
    requires Comes(c, p, o, u, true, true)
    requires x < |c| && Minified(c, o) == [b] + Minified(c, x)
    requires Comes(c, x, q, v, safe, clean)
    ensures Comes(c, p, q, u + ([b] + v), safe, clean)
  {
    hide Minified;
    hide InString;
    if safe {
      var rest := After(clean, c, q);
      assert u + ([b] + (v + rest)) == (u + ([b] + v)) + rest;
    } else {
      ApartAfter(u + [b], Minified(c, x), v, []);
      assert (u + [b]) + (v + []) == u + ([b] + v);
      assert u + ([b] + Minified(c, x)) == (u + [b]) + Minified(c, x);
    }
  }

  /** A string not left at its end, a byte and a blank: the blank is copied where it should not be. */
  lemma {:induction false} Spoilt(c: Text, p: nat, o: nat, u: Text, safe: bool, b: Byte, blank: Byte, v: Text)
    requires Comes(c, p, o, u, safe, false)
    requires o + 2 < |c| && InString(c, o) == [b] + InString(c, o + 1)
             && InString(c, o + 1) == [blank] + InString(c, o + 2)
    requires v != [] && v[0] != blank
    ensures Apart(Minified(c, p), u + ([b] + v))
  {
    hide Minified;
    hide InString;
    if safe {
      var rest := InString(c, o + 2);
      ApartAt(u + [b], [blank] + rest, v);
      assert u + ([b] + ([blank] + rest)) == (u + [b]) + ([blank] + rest);
      assert (u + [b]) + v == u + ([b] + v);
    } else {
      ApartAfter([], Minified(c, p), u, [b] + v);
      assert [] + Minified(c, p) == Minified(c, p);
      assert [] + (u + ([b] + v)) == u + ([b] + v);
    }
  }

  lemma {:induction false} ApartComes(c: Text, p: nat, q: nat, u: Text, clean: bool)
    requires Terminated(c) && p < |c| && q < |c| && Apart(Minified(c, p), u)
    ensures Comes(c, p, q, u, false, clean)
  {
  }

  lemma {:induction false} NothingComes(c: Text, p: nat)
    requires At([], c, p)
    ensures Comes(c, p, p, [], true, true)
  {
    hide Minified;
    assert [] + Minified(c, p) == Minified(c, p);
  }

  lemma {:induction false} ItemsSafety(items: seq<Json>)
    requires items != []
    ensures CleanItems(items) == (Clean(items[0]) && CleanItems(items[1..]))
    ensures |items| == 1 ==> TailSafeItems(items) == TailSafe(items[0]) && CleanItems(items) == Clean(items[0])
    ensures |items| > 1 ==> TailSafeItems(items) == (Clean(items[0]) && TailSafeItems(items[1..]))
  {
  }

  /** After an item in an array: out of a string the blank goes, in a string it stays. */
  lemma {:induction false} SeparatorAfter(clean: bool, c: Text, o: nat, b: Byte, blank: Byte)
    requires At([b], c, o) && At([blank], c, o + 1) && IsCopied(b) && b != BACKSLASH && IsBlank(blank)
    ensures o + 2 < |c| && Terminated(c)
    ensures clean ==> Minified(c, o) == [b] + Minified(c, o + 2)
    ensures !clean ==> InString(c, o) == [b] + InString(c, o + 1) && InString(c, o + 1) == [blank] + InString(c, o + 2)
  {
    hide Minified;
    hide InString;
    ByteAfter(clean, b, c, o);
    BlankAfter(clean, blank, c, o + 1);
    assert [] + Minified(c, o + 2) == Minified(c, o + 2);
  }

  lemma {:induction false} BlanksAreBlank()
    ensures IsBlank(32) && IsBlank(TAB) && IsBlank(NEWLINE)
    ensures 32 !in [QUOTE, CLOSE_BRACE] && TAB !in [QUOTE, CLOSE_BRACE] && NEWLINE !in [QUOTE, CLOSE_BRACE]
  {
  }

  lemma {:induction false} NoItems(d: nat)
    ensures CleanItems([]) && TailSafeItems([]) && RenderItems([], true, d) == RenderItems([], false, d) == []
  {
  }

  lemma {:induction false} ItemsMinified(items: seq<Json>, d: nat, c: Text, p: nat)
    requires At(RenderItems(items, true, d), c, p)
    ensures Comes(c, p, p + |RenderItems(items, true, d)|, RenderItems(items, false, d), TailSafeItems(items),
            CleanItems(items))
    decreases items, 1
  {
    hide *;
    if items == [] {
      NoItems(d);
      NothingComes(c, p);
    } else if |items| == 1 {
      ItemsSafety(items);
      ItemsText(items, true, d);
      ItemsText(items, false, d);
      ValueMinified(items[0], d, c, p);
    } else {
      MoreItemsMinified(items, d, c, p);
    }
  }

  lemma {:induction false} MoreItemsMinified(items: seq<Json>, d: nat, c: Text, p: nat)
    requires |items| > 1 && At(RenderItems(items, true, d), c, p)
    ensures Comes(c, p, p + |RenderItems(items, true, d)|, RenderItems(items, false, d), TailSafeItems(items),
            CleanItems(items))
    decreases items, 0
  {
    hide *;
    BracketsAreCopied();
    BlanksAreBlank();
    var v, rest := items[0], items[1..];
    ItemsSafety(items);
    ItemsParts(items, d, c, p);
    var o, q := p + |Render(v, true, d)|, p + |RenderItems(items, true, d)|;
    var u, us := Render(v, false, d), RenderItems(rest, false, d);
    ValueMinified(v, d, c, p);
    SeparatorAfter(Clean(v), c, o, COMMA, 32);
    CleanIsTailSafe(v);
    if Clean(v) {
      ItemsMinified(rest, d, c, o + 2);
      Joined(c, p, o, o + 2, q, u, COMMA, us, TailSafeItems(rest), CleanItems(rest));
    } else {
      ItemsFirstByte(rest, false, d);
      Spoilt(c, p, o, u, TailSafe(v), COMMA, 32, us);
      AtBounds(RenderItems(items, true, d), c, p);
      ApartComes(c, p, q, u + ([COMMA] + us), false);
    }
  }

  // objects

  /** The unformatted text of a member up to its value, and of the rest of the object. */
  lemma {:induction false} MemberParts(m: Member, last: bool, d: nat, c: Text, p: nat)
    requires At(MemberText(m, last, true, d), c, p)
    ensures var k := p + d;
            var s := k + |Quoted(m.key)|;
            var o := s + 2 + |Render(m.value, true, d)|;
            && At(Tabs(d), c, p) && At(Quoted(m.key), c, k) && At([COLON], c, s) && At([TAB], c, s + 1)
            && At(Render(m.value, true, d), c, s + 2)
            && (if last then At([NEWLINE], c, o) else At([COMMA], c, o) && At([NEWLINE], c, o + 1))
            && p + |MemberText(m, last, true, d)| == o + (if last then 1 else 2)
            && MemberText(m, last, false, d) ==
                 Quoted(m.key) + ([COLON] + (Render(m.value, false, d) + if last then [] else [COMMA]))
  {
    hide *;
    var key, v, tail := Quoted(m.key), Render(m.value, true, d), MemberTail(last, true);
    var head, colon := Tabs(d) + (key + ([COLON] + [TAB])), [COLON] + [TAB];
    MemberTexts(m, last, d);
    TabsLength(d);
    AtSplit(head, v + tail, c, p);
    AtSplit(v, tail, c, p + |head|);
    AtSplit(Tabs(d), key + colon, c, p);
    AtSplit(key, colon, c, p + d);
    AtSplit([COLON], [TAB], c, p + d + |key|);
    if !last { AtSplit([COMMA], [NEWLINE], c, p + |head| + |v|); }
  }

  lemma {:induction false} TabsLength(d: nat)
    ensures |Tabs(d)| == d
  {
  }

  /** The formatted text of a member, and the unformatted one. */
  lemma {:induction false} MemberTexts(m: Member, last: bool, d: nat)
    ensures MemberText(m, last, true, d)
            == (Tabs(d) + (Quoted(m.key) + ([COLON] + [TAB]))) + (Render(m.value, true, d) + MemberTail(last, true))
    ensures MemberTail(last, true) == if last then [NEWLINE] else [COMMA] + [NEWLINE]
    ensures MemberText(m, last, false, d)
            == Quoted(m.key) + ([COLON] + (Render(m.value, false, d) + if last then [] else [COMMA]))
  {
    hide Render;
    hide Quoted;
    assert MemberHead(m.key, false, d) == Quoted(m.key) + [COLON];
    assert MemberTail(last, false) == if last then [] else [COMMA];
    Regrouped(Quoted(m.key), [COLON], Render(m.value, false, d) + MemberTail(last, false));
  }

  lemma {:induction false} MembersParts(members: seq<Member>, d: nat, c: Text, p: nat)
    requires members != [] && At(RenderMembers(members, true, d), c, p)
    ensures var m, last := members[0], |members| == 1;
            && At(MemberText(m, last, true, d), c, p)
            && At(RenderMembers(members[1..], true, d), c, p + |MemberText(m, last, true, d)|)
            && |RenderMembers(members, true, d)|
                == |MemberText(m, last, true, d)| + |RenderMembers(members[1..], true, d)|
            && RenderMembers(members, false, d) == MemberText(m, last, false, d) + RenderMembers(members[1..], false, d)
  {
    hide MemberText;
    AtSplit(MemberText(members[0], |members| == 1, true, d), RenderMembers(members[1..], true, d), c, p);
  }

  lemma {:induction false} TabsDropped(d: nat, c: Text, p: nat)
    requires At(Tabs(d), c, p)
    ensures p + d < |c| && Minified(c, p) == Minified(c, p + d)
  {
    hide Minified;
    BlanksAreBlank();
    assert forall i :: 0 <= i < d ==> IsBlank(Tabs(d)[i]);
    Dropped(Tabs(d), c, p);
  }

  /** A key and its colon: dropped tabs, and the value's text after a clean key. */
  lemma {:induction false} KeyMinified(m: Member, d: nat, c: Text, p: nat, s: nat)
    requires At(Tabs(d), c, p) && At(Quoted(m.key), c, p + d) && s == p + d + |Quoted(m.key)|
    requires At([COLON], c, s) && At([TAB], c, s + 1)
    ensures Comes(c, p, s, Quoted(m.key), true, EndsPlain(m.key))
    ensures s + 2 < |c| && Terminated(c)
    ensures EndsPlain(m.key) ==> Minified(c, s) == [COLON] + Minified(c, s + 2)
    ensures !EndsPlain(m.key) ==>
            InString(c, s) == [COLON] + InString(c, s + 1) && InString(c, s + 1) == [TAB] + InString(c, s + 2)
  {
    hide Minified;
    hide InString;
    hide EndsPlain;
    hide Quoted;
    TabsDropped(d, c, p);
    StringComes(m.key, c, p + d);
    BracketsAreCopied();
    BlanksAreBlank();
    SeparatorAfter(EndsPlain(m.key), c, s, COLON, TAB);
  }

  /** A string not left at its end, and a blank: it is copied where something else should be. */
  lemma {:induction false} SpoiltEnd(c: Text, p: nat, o: nat, u: Text, safe: bool, blank: Byte, v: Text)
    requires Comes(c, p, o, u, safe, false)
    requires o + 1 < |c| && InString(c, o) == [blank] + InString(c, o + 1)
    requires v != [] && v[0] != blank
    ensures Apart(Minified(c, p), u + v)
  {
    hide Minified;
    hide InString;
    if safe {
      ApartAt(u, [blank] + InString(c, o + 1), v);
    } else {
      ApartAfter([], Minified(c, p), u, v);
      assert [] + Minified(c, p) == Minified(c, p);
      assert [] + (u + v) == u + v;
    }
  }

  lemma {:induction false} BlankDropped(c: Text, p: nat, o: nat, u: Text, b: Byte)
    requires Comes(c, p, o, u, true, true) && At([b], c, o) && IsBlank(b)
    ensures Comes(c, p, o + 1, u, true, true)
  {
    hide Minified;
    hide InString;
    BlankAfter(true, b, c, o);
    assert [] + Minified(c, o + 1) == Minified(c, o + 1);
  }

  lemma {:induction false} CommaKept(c: Text, p: nat, o: nat, u: Text)
    requires Comes(c, p, o, u, true, true) && At([COMMA], c, o) && At([NEWLINE], c, o + 1)
    ensures Comes(c, p, o + 2, u + [COMMA], true, true)
  {
    hide Minified;
    hide InString;
    BracketsAreCopied();
    BlanksAreBlank();
    SeparatorAfter(true, c, o, COMMA, NEWLINE);
    Regrouped(u, [COMMA], Minified(c, o + 2));
  }

  /** From a key that is clean, with what its value comes to, to the end of the member. */
  lemma {:induction false} MemberEnd(last: bool, c: Text, p: nat, o: nat, u: Text, safe: bool, clean: bool, next: Byte)
    requires Comes(c, p, o, u, safe, clean) && (clean ==> safe) && next in [QUOTE, CLOSE_BRACE]
    requires if last then At([NEWLINE], c, o) else At([COMMA], c, o) && At([NEWLINE], c, o + 1)
    ensures var w := u + if last then [] else [COMMA];
            if clean then Comes(c, p, o + (if last then 1 else 2), w, true, true)
            else Apart(Minified(c, p), w + [next])
  {
    hide *;
    BracketsAreCopied();
    BlanksAreBlank();
    assert u + [] == u;
    if clean {
      if last { BlankDropped(c, p, o, u, NEWLINE); } else { CommaKept(c, p, o, u); }
    } else if last {
      AtBounds([NEWLINE], c, o);
      BlankAfter(false, NEWLINE, c, o);
      StillIn(c, o, NEWLINE);
      SpoiltEnd(c, p, o, u, safe, NEWLINE, [next]);
    } else {
      SeparatorAfter(false, c, o, COMMA, NEWLINE);
      Spoilt(c, p, o, u, safe, COMMA, NEWLINE, [next]);
      Regrouped(u, [COMMA], [next]);
    }
  }

  lemma {:induction false} StillIn(c: Text, o: nat, b: Byte)
    requires Terminated(c) && o + 1 < |c| && After(false, c, o) == [b] + After(false, c, o + 1)
    ensures InString(c, o) == [b] + InString(c, o + 1)
  {
    hide InString;
  }

  /** A member, up to its comma and newline; `next` is what the unformatted text goes on with. */
  lemma {:induction false} MemberMinified(m: Member, last: bool, d: nat, c: Text, p: nat, next: Byte)
    requires At(MemberText(m, last, true, d), c, p) && next in [QUOTE, CLOSE_BRACE]
    ensures var u := MemberText(m, last, false, d);
            if EndsPlain(m.key) && Clean(m.value) then Comes(c, p, p + |MemberText(m, last, true, d)|, u, true, true)
            else Apart(Minified(c, p), u + [next])
    decreases m, 4
  {
    hide *;
    BlanksAreBlank();
    MemberParts(m, last, d, c, p);
    var key, v, uv := Quoted(m.key), m.value, Render(m.value, false, d);
    var s := p + d + |key|;
    var o := s + 2 + |Render(v, true, d)|;
    var tail: Text := if last then [] else [COMMA];
    KeyMinified(m, d, c, p, s);
    CleanIsTailSafe(v);
    if EndsPlain(m.key) {
      ValueMinified(v, d, c, s + 2);
      Joined(c, p, s, s + 2, o, key, COLON, uv, TailSafe(v), Clean(v));
      MemberEnd(last, c, p, o, key + ([COLON] + uv), TailSafe(v), Clean(v), next);
      MemberRegrouped(key, uv, tail);
    } else {
      FirstByte(v, false, d);
      Spoilt(c, p, s, key, true, COLON, TAB, uv + (tail + [next]));
      MemberRegrouped(key, uv, tail + [next]);
      MemberRegrouped(key, uv, tail);
      Regrouped(key + ([COLON] + uv), tail, [next]);
    }
  }

  lemma {:induction false} MemberRegrouped(key: Text, v: Text, tail: Text)
    ensures key + ([COLON] + (v + tail)) == (key + ([COLON] + v)) + tail
  {
    Regrouped([COLON], v, tail);
    Regrouped(key, [COLON] + v, tail);
  }

  /** The members of an object, up to where its closing brace must stand. */
  lemma {:induction false} MembersMinified(members: seq<Member>, d: nat, c: Text, p: nat)
    requires At(RenderMembers(members, true, d), c, p)
    ensures var u := RenderMembers(members, false, d);
            if CleanMembers(members) then Comes(c, p, p + |RenderMembers(members, true, d)|, u, true, true)
            else Apart(Minified(c, p), u + [CLOSE_BRACE])
    decreases members, 1
  {
    hide *;
    if members == [] {
      NoMembers(d);
      NothingComes(c, p);
    } else {
      var m, last, rest := members[0], |members| == 1, members[1..];
      var u, us := MemberText(m, last, false, d), RenderMembers(rest, false, d);
      var next := if last then CLOSE_BRACE else QUOTE;
      MembersParts(members, d, c, p);
      MembersSafety(members, d);
      var x := p + |MemberText(m, last, true, d)|;
      MemberMinified(m, last, d, c, p, next);
      if EndsPlain(m.key) && Clean(m.value) {
        MembersMinified(rest, d, c, x);
        Followed(c, p, x, p + |RenderMembers(members, true, d)|, u, us, CleanMembers(rest));
      } else {
        AtBounds(RenderMembers(members, true, d), c, p);
        NextApart(Minified(c, p), u, us, next);
      }
    }
  }

  lemma {:induction false} NoMembers(d: nat)
    ensures CleanMembers([]) && RenderMembers([], true, d) == RenderMembers([], false, d) == []
  {
  }

  /** A difference before the next byte is one in the text that goes on with that byte. */
  lemma {:induction false} NextApart(m: Text, u: Text, us: Text, next: Byte)
    requires Apart(m, u + [next]) && (us + [CLOSE_BRACE])[0] == next
    ensures Apart(m, (u + us) + [CLOSE_BRACE])
  {
    var t := (us + [CLOSE_BRACE])[1..];
    assert us + [CLOSE_BRACE] == [next] + t;
    ApartAfter([], m, u + [next], t);
    assert [] + m == m;
    assert [] + ((u + [next]) + t) == (u + us) + [CLOSE_BRACE];
  }

  lemma {:induction false} MembersSafety(members: seq<Member>, d: nat)
    requires members != []
    ensures CleanMembers(members) == (EndsPlain(members[0].key) && Clean(members[0].value)
            && CleanMembers(members[1..]))
    ensures var us := RenderMembers(members[1..], false, d);
            if |members| == 1 then us == [] else us != [] && us[0] == QUOTE
  {
    hide Clean;
    hide MemberText;
    if |members| > 1 {
      MembersFirstByte(members[1..], d);
    }
  }

  lemma {:induction false} MembersFirstByte(members: seq<Member>, d: nat)
    requires members != []
    ensures RenderMembers(members, false, d) != [] && RenderMembers(members, false, d)[0] == QUOTE
  {
    assert MemberText(members[0], |members| == 1, false, d)[0] == QUOTE by { hide Render; }
    hide MemberText;
  }

  lemma {:induction false} Followed(c: Text, p: nat, x: nat, q: nat, u: Text, us: Text, clean: bool)
    requires Comes(c, p, x, u, true, true)
    requires if clean then Comes(c, x, q, us, true, true) else Apart(Minified(c, x), us + [CLOSE_BRACE])
    ensures if clean then Comes(c, p, q, u + us, true, true) else Apart(Minified(c, p), (u + us) + [CLOSE_BRACE])
  {
    hide Minified;
    hide InString;
    if clean {
      Regrouped(u, us, Minified(c, q));
    } else {
      ApartAfter(u, Minified(c, x), us + [CLOSE_BRACE], []);
      assert (us + [CLOSE_BRACE]) + [] == us + [CLOSE_BRACE];
      Regrouped(u, us, [CLOSE_BRACE]);
    }
  }

  lemma {:induction false} ObjectParts(members: seq<Member>, d: nat, c: Text, p: nat)
    requires At(Render(Obj(members), true, d), c, p)
    ensures var f := RenderMembers(members, true, d + 1);
            var x := p + 2 + |f|;
            && Render(Obj(members), false, d) == [OPEN_BRACE] + (RenderMembers(members, false, d + 1) + [CLOSE_BRACE])
            && |Render(Obj(members), true, d)| == |f| + 3 + d
            && At([OPEN_BRACE], c, p) && At([NEWLINE], c, p + 1) && At(f, c, p + 2)
            && At(Tabs(d), c, x) && At([CLOSE_BRACE], c, x + d)
  {
    hide *;
    var f := RenderMembers(members, true, d + 1);
    var open, close := [OPEN_BRACE] + [NEWLINE], Tabs(d) + [CLOSE_BRACE];
    ObjectTexts(members, d);
    TabsLength(d);
    AtSplit(open, f + close, c, p);
    AtSplit([OPEN_BRACE], [NEWLINE], c, p);
    AtSplit(f, close, c, p + 2);
    AtSplit(Tabs(d), [CLOSE_BRACE], c, p + 2 + |f|);
  }

  /** The formatted text of an object, and the unformatted one. */
  lemma {:induction false} ObjectTexts(members: seq<Member>, d: nat)
    ensures Render(Obj(members), true, d)
            == ([OPEN_BRACE] + [NEWLINE]) + (RenderMembers(members, true, d + 1) + (Tabs(d) + [CLOSE_BRACE]))
    ensures Render(Obj(members), false, d) == [OPEN_BRACE] + (RenderMembers(members, false, d + 1) + [CLOSE_BRACE])
  {
    hide RenderMembers;
    assert Close(false, d) == [CLOSE_BRACE];
    assert Open(true) == [OPEN_BRACE] + [NEWLINE];
  }

  /** After the members, tabs are dropped and the brace is copied. */
  lemma {:induction false} ObjectCloses(c: Text, x: nat, d: nat)
    requires At(Tabs(d), c, x) && At([CLOSE_BRACE], c, x + d)
    ensures x + d + 1 < |c| && Terminated(c) && Minified(c, x) == [CLOSE_BRACE] + Minified(c, x + d + 1)
  {
    TabsDropped(d, c, x);
    AtByte([CLOSE_BRACE], c, x + d, 0);
  }

  lemma {:induction false} ObjectOpens(c: Text, p: nat)
    requires At([OPEN_BRACE], c, p) && At([NEWLINE], c, p + 1)
    ensures p + 2 < |c| && Terminated(c) && Minified(c, p) == [OPEN_BRACE] + Minified(c, p + 2)
  {
    BracketsAreCopied();
    BlanksAreBlank();
    SeparatorAfter(true, c, p, OPEN_BRACE, NEWLINE);
  }

  lemma {:induction false} ObjectMinified(members: seq<Member>, d: nat, c: Text, p: nat)
    requires At(Render(Obj(members), true, d), c, p)
    ensures Comes(c, p, p + |Render(Obj(members), true, d)|, Render(Obj(members), false, d), CleanMembers(members),
            CleanMembers(members))
    decreases members, 2
  {
    hide *;
    var f, u := RenderMembers(members, true, d + 1), RenderMembers(members, false, d + 1);
    var x := p + 2 + |f|;
    ObjectParts(members, d, c, p);
    ObjectOpens(c, p);
    ObjectCloses(c, x, d);
    MembersMinified(members, d + 1, c, p + 2);
    Braced(c, p, p + 2, x, x + d + 1, u, CleanMembers(members));
  }

  lemma {:induction false} Braced(c: Text, p: nat, m: nat, x: nat, q: nat, u: Text, clean: bool)
    requires Terminated(c) && p < |c| && m < |c| && x < |c| && q < |c|
    requires Minified(c, p) == [OPEN_BRACE] + Minified(c, m) && Minified(c, x) == [CLOSE_BRACE] + Minified(c, q)
    requires if clean then Comes(c, m, x, u, true, true) else Apart(Minified(c, m), u + [CLOSE_BRACE])
    ensures Comes(c, p, q, [OPEN_BRACE] + (u + [CLOSE_BRACE]), clean, clean)
  {
    hide Minified;
    hide InString;
    if clean {
      var rest := Minified(c, q);
      assert [OPEN_BRACE] + (u + ([CLOSE_BRACE] + rest)) == ([OPEN_BRACE] + (u + [CLOSE_BRACE])) + rest;
    } else {
      ApartAfter([OPEN_BRACE], Minified(c, m), u + [CLOSE_BRACE], []);
      assert (u + [CLOSE_BRACE]) + [] == u + [CLOSE_BRACE];
    }
  }

  // ---- the whole text

  /** Minifying what was printed formatted gives what would have been printed unformatted, exactly when
      no string or key ends in a backslash but one that only closing brackets follow. */
  lemma {:induction false} MinifyUnformats(v: Json)
    ensures Minified(Render(v, true, 0) + [0], 0) == Render(v, false, 0) <==> TailSafe(v)
  {
    var t, u := Render(v, true, 0), Render(v, false, 0);
    var c := t + [0];
    assert c[0..|t|] == t;
    hide Render;
    ValueMinified(v, 0, c, 0);
    assert After(Clean(v), c, |t|) == [];
    hide Minified;
    hide InString;
    assert u + [] == u;
    assert Apart(u, u) == false;
  }

  /** ["\\", null]: what follows the backslash at the end of the string stays in the string. */
  lemma {:induction false} BackslashSpoils()
    ensures var v := Arr([Str([BACKSLASH]), Null]);
            Minified(Render(v, true, 0) + [0], 0) != Render(v, false, 0)
  {
    hide Minified;
    hide Render;
    var items := [Str([BACKSLASH]), Null];
    assert !Clean(items[0]) && !TailSafeItems(items);
    MinifyUnformats(Arr(items));
  }

  /** Print formatted, then minify in place: the buffer then starts with the unformatted text. */
  method PrintedThenMinified(json: array<Byte>, ghost v: Json) returns (into: nat)
    requires json[..] == Render(v, true, 0) + [0]
    modifies json
    ensures into < json.Length && json[into] == 0
    ensures json[..into] == Render(v, false, 0) <==> TailSafe(v)
  {
    MinifyUnformats(v);
    into := Minify(json);
  }
}
