/** The printer: it writes into a buffer that it enlarges as it goes, or that it must not enlarge.

    `Ensure` grants a region of the buffer, and every byte is written inside the region granted last.
    The prefix of the buffer up to `offset` is the text so far. */
module JsonPrinter {
  import opened Bytes
  import opened JsonString
  import opened JsonText

  /** Text is NUL-free, so that strlen can find its end. */
  lemma {:induction false} EscapedHasNoNul(s: CString)
    ensures 0 !in Escaped(s)
  {
    if s != [] {
      assert forall x :: x in s[1..] ==> x in s;
      EscapedHasNoNul(s[1..]);
    }
  }

  lemma {:induction false} DigitsHaveNoNul(n: int)
    ensures 0 !in Decimal(n)
  {
    var size: nat := if n < 0 then -n else n;
    var t := Digits(size);
    assert forall i :: 0 <= i < |t| ==> t[i] != 0;
  }

  lemma {:induction false} NoNulJoined(a: Text, b: Text)
    requires 0 !in a && 0 !in b
    ensures 0 !in a + b
  {
  }

  lemma {:induction false} QuotedHasNoNul(s: CString)
    ensures 0 !in Quoted(s)
  {
    hide Escaped;
    EscapedHasNoNul(s);
  }

  /** Nor does anything that is put around values. */
  lemma {:induction false} LayoutHasNoNul(fmt: bool, d: nat, last: bool)
    ensures 0 !in Open(fmt) && 0 !in Close(fmt, d) && 0 !in Separator(fmt)
    ensures 0 !in Lead(fmt, d) && 0 !in Colon(fmt) && 0 !in MemberTail(last, fmt)
    ensures 0 !in NULL_TEXT && 0 !in FALSE_TEXT && 0 !in TRUE_TEXT && 0 !in [OPEN_BRACKET] && 0 !in [CLOSE_BRACKET]
  {
  }

  lemma {:induction false} RenderHasNoNul(v: Json, fmt: bool, d: nat)
    ensures 0 !in Render(v, fmt, d)
    decreases v, 1
  {
    hide Quoted;
    hide Decimal;
    hide Open;
    hide Close;
    hide RenderItems;
    hide RenderMembers;
    LayoutHasNoNul(fmt, d, true);
    match v
    case Null =>
    case False =>
    case True =>
    case Num(n) => DigitsHaveNoNul(n);
    case Str(s) => QuotedHasNoNul(s);
    case Arr(items) =>
      ItemsHaveNoNul(items, fmt, d + 1);
      NoNulJoined(RenderItems(items, fmt, d + 1), [CLOSE_BRACKET]);
      NoNulJoined([OPEN_BRACKET], RenderItems(items, fmt, d + 1) + [CLOSE_BRACKET]);
    case Obj(members) =>
      MembersHaveNoNul(members, fmt, d + 1);
      NoNulJoined(RenderMembers(members, fmt, d + 1), Close(fmt, d));
      NoNulJoined(Open(fmt), RenderMembers(members, fmt, d + 1) + Close(fmt, d));
  }

  lemma {:induction false} ItemsHaveNoNul(items: seq<Json>, fmt: bool, d: nat)
    ensures 0 !in RenderItems(items, fmt, d)
    decreases items, 0
  {
    hide Render;
    hide Separator;
    if items != [] {
      LayoutHasNoNul(fmt, d, true);
      RenderHasNoNul(items[0], fmt, d);
      ItemsHaveNoNul(items[1..], fmt, d);
    }
  }

  lemma {:induction false} MembersHaveNoNul(members: seq<Member>, fmt: bool, d: nat)
    ensures 0 !in RenderMembers(members, fmt, d)
    decreases members, 0
  {
    hide MemberText;
    if members != [] {
      var m, last := members[0], |members| == 1;
      RenderHasNoNul(m.value, fmt, d);
      MemberHasNoNul(m, last, fmt, d);
      MembersHaveNoNul(members[1..], fmt, d);
      NoNulJoined(MemberText(m, last, fmt, d), RenderMembers(members[1..], fmt, d));
    }
  }

  lemma {:induction false} MemberHasNoNul(m: Member, last: bool, fmt: bool, d: nat)
    requires 0 !in Render(m.value, fmt, d)
    ensures 0 !in MemberText(m, last, fmt, d)
  {
    hide Render;
    hide Quoted;
    hide Lead;
    hide Colon;
    hide MemberTail;
    LayoutHasNoNul(fmt, d, last);
    QuotedHasNoNul(m.key);
    NoNulJoined(Quoted(m.key), Colon(fmt));
    NoNulJoined(Lead(fmt, d), Quoted(m.key) + Colon(fmt));
    NoNulJoined(Render(m.value, fmt, d), MemberTail(last, fmt));
    NoNulJoined(MemberHead(m.key, fmt, d), Render(m.value, fmt, d) + MemberTail(last, fmt));
  }

  /** A buffer with `t` written at `at`. */
  function Splice(b: Text, at: nat, t: Text): Text
    requires at + |t| <= |b|
  {
    b[..at] + t + b[at + |t|..]
  }

  lemma {:induction false} SpliceOn(b: Text, at: nat, t: Text, u: Text)
    requires at + |t| + |u| <= |b|
    ensures Splice(Splice(b, at, t), at + |t|, u) == Splice(b, at, t + u)
  {
  }

  lemma {:induction false} NothingSpliced(b: Text, at: nat, t: Text)
    requires at <= |b|
    ensures Splice(b, at, t[..0]) == b
  {
  }

  lemma {:induction false} SpliceNext(b: Text, at: nat, t: Text, i: nat)
    requires i < |t| && at + |t| <= |b|
    ensures |Splice(b, at, t[..i])| == |b|
    ensures Splice(b, at, t[..i])[at + i := t[i]] == Splice(b, at, t[..i + 1])
  {
  }

  class PrintBuffer {
    var buffer: array<Byte>
    var offset: nat
    var depth: nat
    const noalloc: bool
    const format: bool
    ghost var granted: nat  // the end of the region that Ensure granted last

    ghost predicate Valid()
      reads this
    {
      buffer.Length <= INT_MAX && (offset < buffer.Length || (buffer.Length == 0 && offset == 0))
    }

    /** The text so far. */
    ghost function Out(): Text
      requires Valid()
      reads this, buffer
    {
      buffer[..offset]
    }

    /** There is, or can be, room for `n` bytes. */
    ghost predicate Room(n: int)
      reads this
    {
      n <= if noalloc then buffer.Length else INT_MAX
    }

    constructor (buffer: array<Byte>, noalloc: bool, format: bool)
      requires buffer.Length <= INT_MAX
      ensures Valid() && this.buffer == buffer && offset == 0 && depth == 0
      ensures this.noalloc == noalloc && this.format == format
    {
      this.buffer, this.noalloc, this.format := buffer, noalloc, format;
      offset, depth := 0, 0;
      granted := 0;
    }

    /** The buffer is the old one, or a new one that an old one without `noalloc` grew into. */
    twostate predicate Grown()
      reads this
    {
      buffer == old(buffer) || (!noalloc && fresh(buffer))
    }

    /** Make sure of `needed` more bytes and one; enlarge the buffer to twice what is needed. */
    method Ensure(needed: nat) returns (ok: bool)
      requires Valid()
      modifies this`buffer, this`granted
      ensures Valid() && Grown() && Out() == old(Out())
      ensures ok <==> Room(offset + needed + 1)
      ensures ok ==> granted == offset + needed + 1 <= buffer.Length
      ensures ok && offset + needed + 1 <= old(buffer).Length ==> buffer == old(buffer)
      ensures ok && offset + needed + 1 > old(buffer).Length ==>
                buffer.Length == var n := 2 * (offset + needed + 1); if n < 0x7FFF_FFFF then n else 0x7FFF_FFFF
    {
      if needed > INT_MAX { return false; }
      var total := needed + offset + 1;
      granted := total;
      if total <= buffer.Length { return true; }
      if noalloc { return false; }
      var newSize;
      if total > INT_MAX / 2 {
        if total > INT_MAX { return false; }
        newSize := INT_MAX;
      } else {
        newSize := total * 2;
      }
      var newBuffer := new Byte[newSize];
      var kept := if offset + 1 <= buffer.Length then offset + 1 else buffer.Length;
      forall i | 0 <= i < kept {
        newBuffer[i] := buffer[i];
      }
      buffer := newBuffer;
      return true;
    }

    /** Write `t` at `at`, inside the granted region; the offset is the caller's to move. */
    method Put(at: nat, t: Text)
      requires Valid() && offset <= at && at + |t| <= granted <= buffer.Length
      modifies buffer
      ensures buffer[..] == Splice(old(buffer[..]), at, t)
    {
      hide Splice;
      NothingSpliced(buffer[..], at, t);
      for i := 0 to |t|
        invariant buffer[..] == Splice(old(buffer[..]), at, t[..i])
      {
        SpliceNext(old(buffer[..]), at, t, i);
        ghost var before := buffer[..];
        buffer[at + i] := t[i];
        assert buffer[..] == before[at + i := t[i]];
      }
      assert t[..|t|] == t;
    }

    /** Move `offset` to the end of the C string that starts there. */
    method UpdateOffset(ghost text: Text)
      requires Valid() && offset + |text| < buffer.Length && 0 !in text
      requires buffer[offset..offset + |text|] == text && buffer[offset + |text|] == 0
      modifies this`offset
      ensures Valid() && offset == old(offset) + |text| && Out() == old(Out()) + text
    {
      ghost var start := offset;
      assert forall i :: start <= i < start + |text| ==>
             buffer[i] == buffer[start..start + |text|][i - start] == text[i - start] != 0;
      while buffer[offset] != 0
        invariant start <= offset <= start + |text|
        decreases start + |text| - offset
      {
        offset := offset + 1;
      }
    }

    /** `text` was printed after `out`, with a NUL after it, and the offset moved over part of it. */
    ghost predicate Printed(out: Text, text: Text, d: nat)
      reads this, buffer
    {
      && Valid() && depth == d
      && |out| <= offset <= |out| + |text| < buffer.Length
      && buffer[..|out| + |text|] == out + text && buffer[|out| + |text|] == 0
    }

    method PrintLiteral(t: Text) returns (ok: bool)
      requires Valid()
      modifies this`buffer, this`granted, this`offset, buffer
      ensures Valid() && Grown() && depth == old(depth)
      ensures ok <==> Room(old(offset) + |t| + 2)
      ensures ok ==> Printed(old(Out()), t, old(depth))
    {
      ok := Ensure(|t| + 1);
      if !ok { return; }
      Put(offset, t + [0]);
    }

    method PrintNumber(n: Int32) returns (ok: bool)
      requires Valid()
      modifies this`buffer, this`granted, this`offset, buffer
      ensures Valid() && Grown() && depth == old(depth)
      ensures ok <==> Room(old(offset) + |Decimal(n)| + 2)
      ensures ok ==> Printed(old(Out()), Decimal(n), old(depth))
    {
      var number := Decimal(n);  // sprintf "%d"
      ok := Ensure(|number| + 1);
      if !ok { return; }
      Put(offset, number + [0]);
      offset := offset + |number|;
    }

    /** The bytes that escaping adds. */
    static method CountEscapes(s: Text) returns (extra: nat)
      ensures |s| + extra == |Escaped(s)|
    {
      extra := 0;
      for i := 0 to |s|
        invariant i + extra + |Escaped(s[i..])| == |Escaped(s)|
      {
        var b := s[i];
        assert s[i..][1..] == s[i + 1..];
        if b == QUOTE || b == BACKSLASH || b in [8, 12, 10, 13, 9] {
          extra := extra + 1;
        } else if b < 32 {
          extra := extra + 5;
        }
      }
    }

    method PutEscaped(at: nat, s: Text)
      requires Valid() && offset <= at && at + |Escaped(s)| <= granted <= buffer.Length
      modifies buffer
      ensures buffer[..] == Splice(old(buffer[..]), at, Escaped(s))
    {
      hide EscapedByte;
      var pos := at;
      ghost var written: Text := [];
      assert Splice(buffer[..], at, []) == buffer[..];
      for i := 0 to |s|
        invariant at <= pos && pos - at == |written| && written + Escaped(s[i..]) == Escaped(s)
        invariant buffer[..] == Splice(old(buffer[..]), at, written)
      {
        assert s[i..][1..] == s[i + 1..];
        var e := EscapedByte(s[i]);
        Put(pos, e);
        SpliceOn(old(buffer[..]), at, written, e);
        written, pos := written + e, pos + |e|;
      }
      assert written == Escaped(s);
    }

    /** Write the escaped string, copying it whole if nothing is to be escaped. */
    method PutBody(at: nat, s: CString, extra: nat)
      requires Valid() && |s| + extra == |Escaped(s)| && offset <= at && at + |s| + extra <= granted <= buffer.Length
      modifies buffer
      ensures buffer[..] == Splice(old(buffer[..]), at, Escaped(s))
    {
      hide Splice;
      if extra == 0 {
        NothingEscaped(s);
        Put(at, s);
      } else {
        PutEscaped(at, s);
      }
    }

    method PutQuoted(s: CString, extra: nat)
      requires Valid() && |s| + extra == |Escaped(s)| && offset + |s| + extra + 3 <= granted <= buffer.Length
      modifies buffer
      ensures buffer[..] == Splice(old(buffer[..]), offset, Quoted(s) + [0])
    {
      hide Quoted;
      hide Escaped;
      hide Splice;
      QuotedLength(s);
      ghost var b := buffer[..];
      Put(offset, [QUOTE]);
      PutBody(offset + 1, s, extra);
      Put(offset + 1 + (|s| + extra), [QUOTE, 0]);
      QuotedSplices(b, offset, s);
    }

    /** The length predicted by counting is the length written. */
    method PrintString(s: CString) returns (ok: bool)
      requires Valid()
      modifies this`buffer, this`granted, this`offset, buffer
      ensures Valid() && Grown() && depth == old(depth)
      ensures ok <==> Room(old(offset) + |Quoted(s)| + 2)
      ensures ok ==> Printed(old(Out()), Quoted(s), old(depth))
    {
      hide Quoted;
      hide Escaped;
      hide Splice;
      QuotedLength(s);
      var extra := CountEscapes(s);
      var length := |s| + extra;
      ok := Ensure(length + 3);
      if !ok { return; }
      ghost var b := buffer[..];
      PutQuoted(s, extra);
      SplicePrints(b, offset, Quoted(s));
    }

    /** Write `t`, with a NUL after it if `nul`, where `needed` bytes are granted, and move over `t`. */
    method Emit(t: Text, nul: bool, needed: nat) returns (ok: bool)
      requires Valid() && |t| + (if nul then 1 else 0) <= needed
      modifies this`buffer, this`granted, this`offset, buffer
      ensures Valid() && Grown() && depth == old(depth)
      ensures ok <==> Room(old(offset) + needed + 1)
      ensures ok ==> offset == old(offset) + |t| && Out() == old(Out()) + t
    {
      ok := Ensure(needed);
      if !ok { return; }
      Put(offset, if nul then t + [0] else t);
      offset := offset + |t|;
    }

    /** Move over what was printed last. */
    method MoveOver(ghost out: Text, ghost text: Text)
      requires Printed(out, text, depth) && 0 !in text
      modifies this`offset
      ensures Appended(out, text, depth)
    {
      PrintedRest(out, text);
      ghost var moved := offset - |out|;
      UpdateOffset(text[moved..]);
      assert out + text[..moved] + text[moved..] == out + text;
    }

    /** Print a value and move over its text. */
    method PrintElement(v: Json) returns (ok: bool)
      requires Valid()
      modifies this`buffer, this`granted, this`offset, this`depth, buffer
      ensures Valid() && Grown()
      ensures ok <==> Room(old(offset) + |Render(v, format, old(depth))| + 2)
      ensures ok ==> Appended(old(Out()), Render(v, format, old(depth)), old(depth))
      decreases v, 3
    {
      hide Render;
      ghost var text, out := Render(v, format, depth), Out();
      RenderHasNoNul(v, format, depth);
      ok := PrintValue(v);
      if ok { MoveOver(out, text); }
    }

    lemma {:induction false} PrintedRest(out: Text, text: Text)
      requires Printed(out, text, depth) && 0 !in text
      ensures var moved := offset - |out|;
              && buffer[..offset] == out + text[..moved] && 0 !in text[moved..]
              && buffer[offset..offset + |text[moved..]|] == text[moved..]
              && buffer[offset + |text[moved..]|] == 0
    {
      var moved, whole := offset - |out|, buffer[..|out| + |text|];
      assert whole == out + text;
      assert buffer[..offset] == whole[..offset];
      assert buffer[offset..|out| + |text|] == whole[offset..];
      assert (out + text)[..offset] == out + text[..moved];
      assert (out + text)[offset..] == text[moved..];
      assert forall x :: x in text[moved..] ==> x in text;
    }

    /** `text` was printed after `out` and the offset moved over it. */
    ghost predicate Appended(out: Text, text: Text, d: nat)
      reads this, buffer
    {
      Valid() && depth == d && offset == |out| + |text| && Out() == out + text
    }

    method PrintValue(v: Json) returns (ok: bool)
      requires Valid()
      modifies this`buffer, this`granted, this`offset, this`depth, buffer
      ensures Valid() && Grown()
      ensures ok <==> Room(old(offset) + |Render(v, format, old(depth))| + 2)
      ensures ok ==> Printed(old(Out()), Render(v, format, old(depth)), old(depth))
      decreases v, 2
    {
      hide Printed;
      hide Quoted;
      hide Decimal;
      hide RenderItems;
      hide RenderMembers;
      hide Room;
      match v
      case Null => ok := PrintLiteral(NULL_TEXT);
      case False => ok := PrintLiteral(FALSE_TEXT);
      case True => ok := PrintLiteral(TRUE_TEXT);
      case Num(n) => ok := PrintNumber(n);
      case Str(s) => ok := PrintString(s);
      case Arr(items) => ok := PrintArray(items);
      case Obj(members) => ok := PrintObject(members);
    }

    /** An item and, unless it is the last, the separator after it. */
    static function ItemText(v: Json, last: bool, fmt: bool, d: nat): Text {
      Render(v, fmt, d) + if last then [] else Separator(fmt)
    }

    method PrintItem(v: Json, last: bool) returns (ok: bool)
      requires Valid()
      modifies this`buffer, this`granted, this`offset, this`depth, buffer
      ensures Valid() && Grown()
      ensures ok <==> Room(old(offset) + |ItemText(v, last, format, old(depth))| + 2)
      ensures ok ==> Appended(old(Out()), ItemText(v, last, format, old(depth)), old(depth))
      decreases v, 4
    {
      hide Render;
      ghost var out, text := Out(), Render(v, format, depth);
      ok := PrintElement(v);
      if !ok { return; }
      if last {
        assert text + [] == text;
      } else {
        ok := Emit(Separator(format), true, |Separator(format)| + 1);
        assert out + (text + Separator(format)) == (out + text) + Separator(format);
      }
    }

    /** The loop over the items of an array. */
    method PrintItems(items: seq<Json>) returns (ok: bool)
      requires Valid()
      modifies this`buffer, this`granted, this`offset, this`depth, buffer
      ensures Valid() && Grown()
      ensures ok <==> items == [] || Room(old(offset) + |RenderItems(items, format, old(depth))| + 2)
      ensures ok ==> Appended(old(Out()), RenderItems(items, format, old(depth)), old(depth))
      decreases items, 0
    {
      hide ItemText;
      hide RenderItems;
      ghost var out, d, text := Out(), depth, RenderItems(items, format, depth);
      ghost var rest := items;
      assert out + text == Out() + text;
      var i := 0;
      while i < |items|
        invariant 0 <= i <= |items| && rest == items[i..]
        invariant Valid() && Grown() && depth == d && (i > 0 ==> Room(offset + 2))
        invariant Out() + RenderItems(rest, format, d) == out + text
      {
        ghost var before, more := Out(), RenderItems(rest[1..], format, d);
        ghost var item := ItemText(items[i], i == |items| - 1, format, d);
        ItemsFirst(rest, format, d);
        assert before + (item + more) == out + text;
        assert |before| + |item| + |more| == |out| + |text|;
        ok := PrintItem(items[i], i == |items| - 1);
        if !ok { return; }
        Regrouped(before, item, more);
        rest, i := rest[1..], i + 1;
      }
      NoItems(format, d);
      assert Out() + [] == Out();
      ok := true;
    }

    static lemma {:induction false} NoItems(fmt: bool, d: nat)
      ensures RenderItems([], fmt, d) == [] && RenderMembers([], fmt, d) == []
    {
    }

    /** Write what closes an array or object; the offset stays before it. */
    method PrintClose(close: Text, ghost out: Text, ghost open: Text, ghost text: Text) returns (ok: bool)
      requires Valid() && depth > 0 && Out() == (out + open) + text
      modifies this`buffer, this`granted, this`offset, this`depth, buffer
      ensures Valid() && Grown()
      ensures ok <==> Room(old(offset) + |close| + 2)
      ensures ok ==> Printed(out, open + (text + close), old(depth) - 1)
    {
      ok := PrintLiteral(close);
      depth := depth - 1;
      Bracketed(out, open, text, close);
    }

    static lemma {:induction false} Bracketed(out: Text, open: Text, text: Text, close: Text)
      ensures ((out + open) + text) + close == out + (open + (text + close))
    {
    }

    method PrintArray(items: seq<Json>) returns (ok: bool)
      requires Valid()
      modifies this`buffer, this`granted, this`offset, this`depth, buffer
      ensures Valid() && Grown()
      ensures ok <==> Room(old(offset) + |Render(Arr(items), format, old(depth))| + 2)
      ensures ok ==> Printed(old(Out()), Render(Arr(items), format, old(depth)), old(depth))
      decreases items, 1
    {
      ghost var out, text := Out(), RenderItems(items, format, depth + 1);
      assert Render(Arr(items), format, depth) == [OPEN_BRACKET] + (text + [CLOSE_BRACKET]);
      hide RenderItems;
      hide Render;
      hide Printed;
      NoItems(format, depth + 1);
      ok := Emit([OPEN_BRACKET], false, 1);
      if !ok { return; }
      depth := depth + 1;
      ok := PrintItems(items);
      if !ok { return; }
      ok := PrintClose([CLOSE_BRACKET], out, [OPEN_BRACKET], text);
    }

    static lemma {:induction false} ItemsFirst(items: seq<Json>, fmt: bool, d: nat)
      requires items != []
      ensures RenderItems(items, fmt, d) == ItemText(items[0], |items| == 1, fmt, d) + RenderItems(items[1..], fmt, d)
    {
      hide Render;
    }

    /** A key, with the tabs before it and the colon after it. */
    method PrintKey(key: CString) returns (ok: bool)
      requires Valid()
      modifies this`buffer, this`granted, this`offset, this`depth, buffer
      ensures Valid() && Grown()
      ensures Room(old(offset) + |MemberHead(key, format, old(depth))| + 2) ==> ok
      ensures ok ==> Appended(old(Out()), MemberHead(key, format, old(depth)), old(depth))
    {
      hide Quoted;
      ghost var out, quoted := Out(), Quoted(key);
      ghost var lead := Lead(format, depth);
      if format {
        ok := Emit(Tabs(depth), false, depth);
        if !ok { return; }
      }
      assert Out() == out + lead;
      ok := PrintString(key);
      if !ok { return; }
      QuotedHasNoNul(key);
      MoveOver(out + lead, quoted);
      ok := Emit(Colon(format), false, |Colon(format)|);
      Bracketed(out, lead, quoted, Colon(format));
    }

    method PrintMember(m: Member, last: bool) returns (ok: bool)
      requires Valid()
      modifies this`buffer, this`granted, this`offset, this`depth, buffer
      ensures Valid() && Grown()
      ensures ok <==> Room(old(offset) + |MemberText(m, last, format, old(depth))| + 2)
      ensures ok ==> Appended(old(Out()), MemberText(m, last, format, old(depth)), old(depth))
      decreases m, 4
    {
      hide Render;
      hide MemberHead;
      hide MemberTail;
      ghost var out, head, text := Out(), MemberHead(m.key, format, depth), Render(m.value, format, depth);
      ok := PrintKey(m.key);
      if !ok { return; }
      ok := PrintElement(m.value);
      if !ok { return; }
      var tail := MemberTail(last, format);
      ok := Emit(tail, true, |tail| + 1);
      Bracketed(out, head, text, tail);
    }

    /** The loop over the members of an object. */
    method PrintMembers(members: seq<Member>) returns (ok: bool)
      requires Valid()
      modifies this`buffer, this`granted, this`offset, this`depth, buffer
      ensures Valid() && Grown()
      ensures ok <==> members == [] || Room(old(offset) + |RenderMembers(members, format, old(depth))| + 2)
      ensures ok ==> Appended(old(Out()), RenderMembers(members, format, old(depth)), old(depth))
      decreases members, 0
    {
      hide MemberText;
      hide RenderMembers;
      ghost var out, d, text := Out(), depth, RenderMembers(members, format, depth);
      ghost var rest := members;
      assert out + text == Out() + text;
      var i := 0;
      while i < |members|
        invariant 0 <= i <= |members| && rest == members[i..]
        invariant Valid() && Grown() && depth == d && (i > 0 ==> Room(offset + 2))
        invariant Out() + RenderMembers(rest, format, d) == out + text
      {
        ghost var before, more := Out(), RenderMembers(rest[1..], format, d);
        ghost var item := MemberText(members[i], i == |members| - 1, format, d);
        MembersFirst(rest, format, d);
        assert before + (item + more) == out + text;
        assert |before| + |item| + |more| == |out| + |text|;
        ok := PrintMember(members[i], i == |members| - 1);
        if !ok { return; }
        Regrouped(before, item, more);
        rest, i := rest[1..], i + 1;
      }
      NoItems(format, d);
      assert Out() + [] == Out();
      ok := true;
    }

    static lemma {:induction false} MembersFirst(members: seq<Member>, fmt: bool, d: nat)
      requires members != []
      ensures RenderMembers(members, fmt, d)
              == MemberText(members[0], |members| == 1, fmt, d) + RenderMembers(members[1..], fmt, d)
    {
    }

    method PrintObject(members: seq<Member>) returns (ok: bool)
      requires Valid()
      modifies this`buffer, this`granted, this`offset, this`depth, buffer
      ensures Valid() && Grown()
      ensures ok <==> Room(old(offset) + |Render(Obj(members), format, old(depth))| + 2)
      ensures ok ==> Printed(old(Out()), Render(Obj(members), format, old(depth)), old(depth))
      decreases members, 1
    {
      ghost var out, text := Out(), RenderMembers(members, format, depth + 1);
      assert Render(Obj(members), format, depth) == Open(format) + (text + Close(format, depth));
      assert |Close(format, depth)| > 0;
      hide RenderMembers;
      hide Render;
      hide Printed;
      hide Close;
      NoItems(format, depth + 1);
      ok := Emit(Open(format), false, |Open(format)| + 1);
      if !ok { return; }
      depth := depth + 1;
      ok := PrintMembers(members);
      if !ok { return; }
      ok := PrintClose(Close(format, depth - 1), out, Open(format), text);
    }
  }

  lemma {:induction false} QuotedLength(s: Text)
    ensures |Quoted(s)| == |Escaped(s)| + 2
  {
    hide Escaped;
  }

  lemma {:induction false} QuotedSplices(b: Text, at: nat, s: Text)
    requires at + |Escaped(s)| + 3 <= |b|
    ensures Splice(Splice(Splice(b, at, [QUOTE]), at + 1, Escaped(s)), at + 1 + |Escaped(s)|, [QUOTE, 0]) ==
              Splice(b, at, Quoted(s) + [0])
  {
    var e := Escaped(s);
    assert ([QUOTE] + e) + [QUOTE, 0] == Quoted(s) + [0];
    SpliceOn(b, at, [QUOTE], e);
    SpliceOn(b, at, [QUOTE] + e, [QUOTE, 0]);
    hide *;
  }

  lemma {:induction false} SplicePrints(b: Text, at: nat, t: Text)
    requires at + |t| + 1 <= |b|
    ensures var r := Splice(b, at, t + [0]); |r| == |b| && r[..at + |t|] == b[..at] + t && r[at + |t|] == 0
  {
  }

  lemma {:induction false} NothingEscaped(s: Text)
    requires |Escaped(s)| == |s|
    ensures Escaped(s) == s
  {
    if s != [] {
      EscapedGrows(s[1..]);
      NothingEscaped(s[1..]);
      assert s == [s[0]] + s[1..];
    }
  }

  lemma {:induction false} EscapedGrows(s: Text)
    ensures |Escaped(s)| >= |s|
  {
    if s != [] { EscapedGrows(s[1..]); }
  }
}
