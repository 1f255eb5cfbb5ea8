/** Printing and parsing as their callers see them. */
module JsonApi {
  import opened Bytes
  import opened JsonText
  import opened JsonPrinter
  import opened JsonParser
  import opened JsonGrammar
  import opened JsonRoundTrip

  /** Print into a fresh buffer of 256 bytes that grows as needed, and cut it to size. */
  method Print(v: Json, format: bool) returns (printed: array?<Byte>)
    ensures printed != null <==> |Render(v, format, 0)| + 2 <= INT_MAX
    ensures printed != null ==> fresh(printed) && printed[..] == Render(v, format, 0) + [0]
  {
    hide Render;
    var start := new Byte[256];
    var p := new PrintBuffer(start, false, format);
    var ok := p.PrintElement(v);
    if !ok { return null; }
    printed := new Byte[p.offset + 1];
    forall i | 0 <= i < p.offset { printed[i] := p.buffer[i]; }
    printed[p.offset] := 0;
    assert printed[..p.offset] == p.Out() == Render(v, format, 0);
  }

  /** Print into a fresh buffer of the caller's size that grows as needed. */
  method PrintBuffered(v: Json, prebuffer: int, format: bool) returns (printed: array?<Byte>)
    requires prebuffer <= INT_MAX
    ensures printed != null <==> prebuffer >= 0 && |Render(v, format, 0)| + 2 <= INT_MAX
    ensures printed != null ==> |Render(v, format, 0)| < printed.Length
    ensures printed != null ==>
            printed[..|Render(v, format, 0)|] == Render(v, format, 0) && printed[|Render(v, format, 0)|] == 0
  {
    hide Render;
    if prebuffer < 0 { return null; }
    var start := new Byte[prebuffer];
    var p := new PrintBuffer(start, false, format);
    var ok := p.PrintValue(v);
    if !ok { return null; }
    printed := p.buffer;
  }

  /** Print into the caller's buffer: it must be longer than the text and its NUL by one byte. */
  method PrintPreallocated(v: Json, buffer: array<Byte>, length: int, format: bool) returns (ok: bool)
    requires length < 0 || length == buffer.Length <= INT_MAX
    modifies buffer
    ensures ok <==> length >= 0 && |Render(v, format, 0)| + 2 <= length
    ensures ok ==> buffer[..|Render(v, format, 0)|] == Render(v, format, 0) && buffer[|Render(v, format, 0)|] == 0
  {
    hide Render;
    if length < 0 { return false; }
    var p := new PrintBuffer(buffer, true, format);
    ok := p.PrintValue(v);
  }

  /** What was printed parses back. */
  method PrintThenParse(v: Json, format: bool, requireEnd: bool) returns (ok: bool, value: Json)
    requires |Render(v, format, 0)| + 2 <= INT_MAX
    ensures ok && value == v <==> Nesting(v) <= 1000
  {
    hide Render;
    var printed := Print(v, format);
    var text := printed[..];
    var p := new ParseBuffer(text);
    ok, value := p.Parse(requireEnd);
    PrintedTextParsesBack(v, format, requireEnd);
    if ok && value == v {
      PrintedOffset(v, format, requireEnd);
    }
  }

  lemma {:induction false} PrintedOffset(v: Json, format: bool, requireEnd: bool)
    ensures var r := TextAt(Render(v, format, 0) + [0], requireEnd);
            r.Ok? && r.value == v ==> Nesting(v) <= 1000
  {
    hide Render;
    hide ValueAt;
    var c := Render(v, format, 0) + [0];
    var start := if |c| > 4 && c[..3] == [0xEF, 0xBB, 0xBF] then 3 else 0;
    ParsedIsShallow(c, Skip(c, start), 0);
  }
}
