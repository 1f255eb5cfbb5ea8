/** The recursive-descent parser: it moves `offset` over the text and counts `depth`. */
module JsonParser {
  import opened Bytes
  import opened UnicodeEscape
  import opened JsonString
  import opened JsonText
  import opened JsonGrammar

  class ParseBuffer {
    const content: Text
    var offset: nat
    var depth: nat

    constructor (content: Text)
      ensures this.content == content && offset == 0 && depth == 0
    {
      this.content := content;
      offset, depth := 0, 0;
    }

    predicate CanAccess(index: nat)
      reads this
    {
      offset + index < |content|
    }

    method SkipWhitespace()
      requires content != []
      modifies this`offset
      ensures offset == if old(offset) < |content| then Skip(content, old(offset)) else old(offset)
    {
      if !CanAccess(0) { return; }
      ghost var start := offset;
      while CanAccess(0) && content[offset] <= 32
        invariant start <= offset <= |content|
        invariant SkipRun(content, offset) == SkipRun(content, start)
        decreases |content| - offset
      {
        offset := offset + 1;
      }
      if offset == |content| {
        offset := offset - 1;
      }
    }

    /** The first pass: the closing quote, and the length to allocate. */
    method MeasureString() returns (found: bool, end: nat, allocationLength: nat)
      requires offset < |content|
      ensures found <==> ScanQuote(content, offset + 1).Some?
      ensures found ==>
              ScanQuote(content, offset + 1) == Some(end) && allocationLength == Units(content, offset + 1) + 1
    {
      end := offset + 1;
      var skipped := 0;
      while end < |content| && content[end] != QUOTE
        invariant offset + 1 <= end <= |content|
        invariant ScanQuote(content, end) == ScanQuote(content, offset + 1)
        invariant skipped <= end - (offset + 1)
        invariant ScanQuote(content, offset + 1).Some? ==>
                    end - (offset + 1) - skipped + Units(content, end) == Units(content, offset + 1)
        decreases |content| - end
      {
        if content[end] == BACKSLASH {
          if end + 1 >= |content| { return false, end, 0; }
          skipped := skipped + 1;
          end := end + 1;
        }
        end := end + 1;
      }
      found := end < |content|;
      allocationLength := end - offset - skipped;
    }

    /** The second pass: decode up to the closing quote at `end`. */
    method DecodeString(start: nat, end: nat, output: array<Byte>) returns (ok: bool, pos: nat, stopped: nat)
      requires start <= end < |content| && ScanQuote(content, start) == Some(end)
      requires Units(content, start) < output.Length
      modifies output
      ensures match Decode(content, start, end)
              case BadAt(at) => !ok && stopped == at
              case Decoded(t) => ok && pos < output.Length && output[..pos] == t
    {
      hide Decoding;
      hide Units;
      hide ScanQuote;
      var input := start;
      pos := 0;
      ghost var inside := false;
      ghost var units := Units(content, start);
      while input < end
        invariant start <= input <= end + 1 && pos <= units
        invariant input <= end ==>
                  Tracks(content, input, end, inside) && pos + UnitsLeft(content, input, end, inside) <= units
        invariant DecodesFrom(start, end, output[..pos], input)
        decreases end - input
      {
        ghost var written := output[..pos];
        var taken, more := DecodeRound(input, end, output, pos, inside, units);
        if taken == 0 { return false, pos, input; }
        inside := RoundFits(content, input, end, inside);
        DecodedOn(start, end, written, input);
        input, pos := input + taken, more;
      }
      ok, stopped := true, input;
    }

    /** What is decoded up to `p` is `t`; what comes of the whole depends on what is left. */
    ghost predicate DecodesFrom(start: nat, end: nat, t: Text, p: nat)
      requires start <= end < |content| && p <= end + 1
    {
      match Decode(content, p, end)
      case BadAt(at) => Decode(content, start, end) == BadAt(at)
      case Decoded(rest) => Decode(content, start, end) == Decoded(t + rest)
    }

    lemma {:induction false} DecodedOn(start: nat, end: nat, t: Text, p: nat)
      requires start <= end < |content| && p < end && DecodesFrom(start, end, t, p)
      requires Decoding(content, p, end).Round?
      ensures var r := Decoding(content, p, end); DecodesFrom(start, end, t + r.written, p + r.taken)
    {
      hide Decoding;
      var r := Decoding(content, p, end);
      match Decode(content, p + r.taken, end)
      case BadAt(_) =>
      case Decoded(rest) => assert t + (r.written + rest) == (t + r.written) + rest;
    }

    method ParseString() returns (ok: bool, value: CString)
      requires Terminated(content) && offset < |content|
      modifies this`offset
      ensures match StringAt(content, old(offset))
              case StringFail(o) => !ok && offset == o
              case StringOk(s, o) => ok && value == s && offset == o
    {
      ok, value := false, [];
      if content[offset] != QUOTE {
        offset := offset + 1;
        return;
      }
      var found, end, allocationLength := MeasureString();
      if !found {
        offset := offset + 1;
        return;
      }
      var output := new Byte[allocationLength + 1];
      var pos, stopped;
      ok, pos, stopped := DecodeString(offset + 1, end, output);
      if !ok {
        offset := stopped;
        return;
      }
      value := AsCString(output[..pos]);
      output[pos] := 0;  // zero terminate the output
      offset := end + 1;
    }

    /** One round of the decoding loop; every byte it writes is inside the allocation. */
    method DecodeRound(input: nat, end: nat, output: array<Byte>, pos: nat, ghost inside: bool, ghost units: nat)
        returns (taken: nat, pos': nat)
      requires input < end < |content| && Tracks(content, input, end, inside)
      requires pos + UnitsLeft(content, input, end, inside) <= units < output.Length
      modifies output
      ensures match Decoding(content, input, end)
              case Bad => taken == 0
              case Round(w, n) =>
                && taken == n && pos' == pos + |w| && pos' <= units
                && output[..pos'] == old(output[..pos]) + w
    {
      hide Utf8;
      pos' := pos;
      ghost var inside' := false;
      if Decoding(content, input, end).Round? { inside' := RoundFits(content, input, end, inside); }
      if content[input] != BACKSLASH {
        output[pos] := content[input];
        return 1, pos + 1;
      }
      var b := content[input + 1];
      if b == LETTER_U {
        taken, pos' := Utf16LiteralToUtf8(content, input, end, output, pos);
      } else {
        match SimpleEscape(b)
        case None => taken := 0;
        case Some(e) =>
          output[pos] := e;
          taken, pos' := 2, pos + 1;
      }
    }

    /** Copy the bytes of a number into a buffer with room for `limit`. */
    method CopyNumber(limit: nat) returns (numberString: Text)
      requires offset < |content|
      ensures numberString == content[offset..offset + NumberRun(content, offset, limit)]
    {
      numberString := [];
      var i := 0;
      while i < limit && CanAccess(i) && IsNumberByte(content[offset + i])
        invariant i == |numberString| <= limit && offset + i <= |content|
        invariant forall k :: 0 <= k < i ==> numberString[k] == content[offset + k]
        invariant NumberRun(content, offset, limit) == i + NumberRun(content, offset + i, limit - i)
      {
        numberString := numberString + [content[offset + i]];
        i := i + 1;
      }
    }

    method ParseNumber() returns (ok: bool, value: Json)
      requires Terminated(content) && offset < |content|
      modifies this`offset
      ensures Yields(NumberAt(content, old(offset)), ok, value)
    {
      hide Strtod;
      hide NumberRun;
      var numberString := CopyNumber(63);
      value := Null;
      match Strtod(numberString)
      case NotANumber => ok := false;
      case Number(x, used) =>
        ok, value := true, Num(Saturated(x));
        offset := offset + used;
    }

    /** The method has done what the grammar says: the same verdict, value and offset. */
    predicate Yields(r: Outcome, ok: bool, value: Json)
      reads this`offset
    {
      match r
      case Fail(o) => !ok && offset == o
      case Ok(v, o) => ok && value == v && offset == o
    }

    method ParseValue() returns (ok: bool, value: Json)
      requires Terminated(content) && offset < |content|
      modifies this`offset, this`depth
      ensures Yields(ValueAt(content, old(offset), old(depth)), ok, value)
      ensures ok ==> depth == old(depth)
      decreases |content| - offset, 2
    {
      hide ArrayAt;
      hide ObjectAt;
      hide StringAt;
      hide NumberAt;
      ok, value := true, Null;
      if StandsAt(NULL_TEXT, content, offset) {
        offset := offset + 4;
      } else if StandsAt(FALSE_TEXT, content, offset) {
        value := False;
        offset := offset + 5;
      } else if StandsAt(TRUE_TEXT, content, offset) {
        value := True;
        offset := offset + 4;
      } else if content[offset] == QUOTE {
        var s;
        ok, s := ParseString();
        value := Str(s);
      } else if content[offset] == MINUS || IsDigit(content[offset]) {
        ok, value := ParseNumber();
      } else if content[offset] == OPEN_BRACKET {
        ok, value := ParseArray();
      } else if content[offset] == OPEN_BRACE {
        ok, value := ParseObject();
      } else {
        ok := false;
      }
    }

    /** Put items that were read before in front of what the rest of the array yields. */
    static function WithItems(read: seq<Json>, r: ItemsOutcome): ItemsOutcome {
      match r
      case ItemsFail(o) => r
      case ItemsOk(items, o) => ItemsOk(read + items, o)
    }

    /** The items read so far, and what is left to read of those that began after `q`. */
    ghost predicate ItemsRead(q: nat, items: seq<Json>, more: bool)
      reads this
    {
      && q <= offset < |content| && q + 1 < |content| && Terminated(content)
      && if more then offset + 1 < |content|
          && ItemsAt(content, q, depth) == WithItems(items, ItemsAt(content, offset, depth))
         else ItemsAt(content, q, depth) == if content[offset] == CLOSE_BRACKET then ItemsOk(items, offset + 1)
             else ItemsFail(offset)
    }

    /** One round of the loop over the items of an array. */
    method ParseItem(ghost q: nat, items: seq<Json>) returns (ok: bool, items': seq<Json>, more: bool)
      requires ItemsRead(q, items, true)
      modifies this`offset, this`depth
      ensures ok ==> depth == old(depth) && offset > old(offset) && ItemsRead(q, items', more)
      ensures !ok ==> ItemsAt(content, q, old(depth)) == ItemsFail(offset)
      decreases |content| - offset, 0
    {
      hide ValueAt;
      hide Skip;
      offset := offset + 1;
      SkipWhitespace();
      var item;
      ok, item := ParseValue();
      items', more := items, false;
      if !ok { return; }
      items' := items + [item];
      SkipWhitespace();
      more := content[offset] == COMMA;
      if more { ItemsJoin(items, item, ItemsAt(content, offset, depth)); }
    }

    method ParseArray() returns (ok: bool, value: Json)
      requires Terminated(content) && offset < |content| && content[offset] == OPEN_BRACKET
      modifies this`offset, this`depth
      ensures Yields(ArrayAt(content, old(offset), old(depth)), ok, value)
      ensures ok ==> depth == old(depth)
      decreases |content| - offset, 1
    {
      hide ItemsAt;
      hide SkipRun;
      value := Arr([]);
      if depth >= NESTING_LIMIT { return false, value; }
      depth := depth + 1;
      offset := offset + 1;
      SkipWhitespace();
      if content[offset] == CLOSE_BRACKET {
        depth := depth - 1;
        offset := offset + 1;
        return true, value;
      }
      offset := offset - 1;  // step back to the byte in front of the first element
      ghost var q := offset;
      var items: seq<Json> := [];
      var more := true;
      NothingRead(ItemsAt(content, offset, depth), MembersFail(0));
      while more
        invariant depth == old(depth) + 1 && q <= offset && ItemsRead(q, items, more)
        decreases |content| - offset, if more then 1 else 0
      {
        ok, items, more := ParseItem(q, items);
        if !ok { return; }
      }
      if content[offset] != CLOSE_BRACKET { return false, value; }
      depth := depth - 1;
      offset := offset + 1;
      return true, Arr(items);
    }

    static lemma {:induction false} NothingRead(r: ItemsOutcome, s: MembersOutcome)
      ensures WithItems([], r) == r && WithMembers([], s) == s
    {
      if r.ItemsOk? { assert [] + r.items == r.items; }
      if s.MembersOk? { assert [] + s.members == s.members; }
    }

    static lemma {:induction false} ItemsJoin(before: seq<Json>, item: Json, rest: ItemsOutcome)
      ensures WithItems(before, WithItems([item], rest)) == WithItems(before + [item], rest)
    {
      if rest.ItemsOk? {
        assert before + ([item] + rest.items) == (before + [item]) + rest.items;
      }
    }

    static function WithMembers(read: seq<Member>, r: MembersOutcome): MembersOutcome {
      match r
      case MembersFail(o) => r
      case MembersOk(members, o) => MembersOk(read + members, o)
    }

    static lemma {:induction false} MembersJoin(before: seq<Member>, m: Member, rest: MembersOutcome)
      ensures WithMembers(before, WithMembers([m], rest)) == WithMembers(before + [m], rest)
    {
      if rest.MembersOk? {
        assert before + ([m] + rest.members) == (before + [m]) + rest.members;
      }
    }

    ghost predicate MembersRead(q: nat, members: seq<Member>, more: bool)
      reads this
    {
      && q <= offset < |content| && q + 1 < |content| && Terminated(content)
      && if more then offset + 1 < |content|
          && MembersAt(content, q, depth) == WithMembers(members, MembersAt(content, offset, depth))
         else MembersAt(content, q, depth) == if content[offset] == CLOSE_BRACE then MembersOk(members, offset + 1)
             else MembersFail(offset)
    }

    method ParseMember(ghost q: nat, members: seq<Member>) returns (ok: bool, members': seq<Member>, more: bool)
      requires MembersRead(q, members, true)
      modifies this`offset, this`depth
      ensures ok ==> depth == old(depth) && offset > old(offset) && MembersRead(q, members', more)
      ensures !ok ==> MembersAt(content, q, old(depth)) == MembersFail(offset)
      decreases |content| - offset, 0
    {
      hide ValueAt;
      hide StringAt;
      hide Skip;
      members', more := members, false;
      offset := offset + 1;
      SkipWhitespace();
      var key, value;
      ok, key := ParseString();
      if !ok { return; }
      SkipWhitespace();
      if content[offset] != COLON { return false, members', more; }
      offset := offset + 1;
      SkipWhitespace();
      ok, value := ParseValue();
      if !ok { return; }
      members' := members + [Member(key, value)];
      SkipWhitespace();
      more := content[offset] == COMMA;
      if more { MembersJoin(members, Member(key, value), MembersAt(content, offset, depth)); }
    }

    method ParseObject() returns (ok: bool, value: Json)
      requires Terminated(content) && offset < |content| && content[offset] == OPEN_BRACE
      modifies this`offset, this`depth
      ensures Yields(ObjectAt(content, old(offset), old(depth)), ok, value)
      ensures ok ==> depth == old(depth)
      decreases |content| - offset, 1
    {
      hide MembersAt;
      hide SkipRun;
      value := Obj([]);
      if depth >= NESTING_LIMIT { return false, value; }
      depth := depth + 1;
      offset := offset + 1;
      SkipWhitespace();
      if content[offset] == CLOSE_BRACE {
        depth := depth - 1;
        offset := offset + 1;
        return true, value;
      }
      offset := offset - 1;  // step back to the byte in front of the first member
      ghost var q := offset;
      var members: seq<Member> := [];
      var more := true;
      NothingRead(ItemsFail(0), MembersAt(content, offset, depth));
      while more
        invariant depth == old(depth) + 1 && q <= offset && MembersRead(q, members, more)
        decreases |content| - offset, if more then 1 else 0
      {
        ok, members, more := ParseMember(q, members);
        if !ok { return; }
      }
      if content[offset] != CLOSE_BRACE { return false, value; }
      depth := depth - 1;
      offset := offset + 1;
      return true, Obj(members);
    }

    /** Parse a whole C string, its terminator included. */
    method Parse(requireEnd: bool) returns (ok: bool, value: Json)
      requires Terminated(content) && offset == 0 && depth == 0
      modifies this`offset, this`depth
      ensures Yields(TextAt(content, requireEnd), ok, value)
    {
      hide ValueAt;
      hide SkipRun;
      if CanAccess(4) && content[..3] == [0xEF, 0xBB, 0xBF] {
        offset := offset + 3;
      }
      SkipWhitespace();
      ok, value := ParseValue();
      if ok && requireEnd {
        SkipWhitespace();
        if content[offset] != 0 { ok := false; }
      }
    }
  }
}
