/** Parsing a form, and encoding one. */
module MultipartForm {
  import opened Bytes
  import opened MultipartMachine
  import opened FormData
  import opened MultipartDelimiter
  import opened MultipartGrammar
  import opened MultipartParser

  /** What `c_str` and `strlen` leave of a text. */
  function BeforeNul(s: string): (r: string)
    ensures r <= s && '\0' !in r && (|r| < |s| ==> s[|r|] == '\0')
  {
    if s == "" || s[0] == '\0' then "" else [s[0]] + BeforeNul(s[1..])
  }

  lemma {:induction false} WithoutNul(s: string)
    requires '\0' !in s
    ensures BeforeNul(s) == s
  {
  }

  /** The form that was collected, unless an exception has left the parser. */
  function FormCollected(c: Collected): Option<Form> { if c.aborted then None else Some(c.form) }

  /** The whole body is parsed in one call, with `--` in front of the boundary of the header. */
  method ParseMultipart(boundary: string, body: string) returns (form: Option<Form>, ghost trace: seq<Event>)
    ensures Merged(trace) == Chunk("--" + BeforeNul(boundary), INITIAL, body).m.heard
    ensures form == FormCollected(AllHandled(NOTHING, trace)) == FormCollected(AllHandled(NOTHING, Merged(trace)))
    ensures Restartable("--" + BeforeNul(boundary)) ==>
              form == FormCollected(AllHandled(NOTHING, Opening("--" + BeforeNul(boundary), body).heard))
  {
    hide Handled;
    hide Opening;
    hide Restartable;
    var parser := new Parser("--" + BeforeNul(boundary));
    var n := parser.Execute(body);
    var userdata := new UserData();
    var calls := parser.trace;
    for i := 0 to |calls|
      invariant userdata.Abstract() == AllHandled(NOTHING, calls[..i])
    {
      assert calls[..i + 1][..i] == calls[..i];
      userdata.On(calls[i]);
    }
    assert calls[..|calls|] == calls;
    trace := calls;
    form := if userdata.aborted then None else Some(userdata.form);
    WholeNamesAreInvisible(trace);
    if Restartable("--" + BeforeNul(boundary)) { ParserReads("--" + BeforeNul(boundary), body); }
  }

  /** A parameter, or a file with its base name, the content type of its suffix, and its bytes. */
  datatype Part = Param(name: string, body: string) | File(name: string, base: string, mime: string, body: string)

  function HeaderLine(name: string, value: string): string { name + (": " + (value + CRLF)) }

  function DispositionOf(p: Part): string {
    match p
    case Param(name, _) => "form-data; name=\"" + name + "\""
    case File(name, base, _, _) => "form-data; name=\"" + name + "\"; filename=\"" + base + "\""
  }

  function Headers(p: Part): string {
    HeaderLine(DISPOSITION, DispositionOf(p)) + if p.File? then HeaderLine("Content-Type", p.mime) else ""
  }

  function PartText(p: Part): string { CRLF + (Headers(p) + (CRLF + p.body)) }

  /** The parts, each with the delimiter that comes before it. */
  function PartsText(boundary: string, parts: seq<Part>): string {
    if parts == [] then ""
    else PartsText(boundary, parts[..|parts| - 1]) + (Delimiter("--" + boundary) + PartText(parts[|parts| - 1]))
  }

  function EncodedText(boundary: string, parts: seq<Part>): string {
    PartsText(boundary, parts) + (Delimiter("--" + boundary) + "--" + CRLF)
  }

  // The string literals the encoder appends, for a parameter and for a file.
  const DASHES := "\r\n--"
  const NAME_OPENS := "\r\nContent-Disposition: form-data; name=\""
  const PARAM_CLOSES := "\"\r\n\r\n"
  const FILENAME_OPENS := "\"; filename=\""
  const TYPE_OPENS := "\"\r\nContent-Type: "
  const FILE_CLOSES := "\r\n\r\n"
  const TEXT_CLOSES := "--\r\n"

  lemma {:induction false} ParamLiterals(boundary: string, p: Part)
    requires p.Param?
    ensures DASHES + (boundary + (NAME_OPENS + (p.name + (PARAM_CLOSES + p.body)))) ==
              Delimiter("--" + boundary) + PartText(p)
  {
    var D, H, F, Q := DISPOSITION, ": ", "form-data; name=\"", "\"";
    assert NAME_OPENS == CRLF + (D + (H + F));
    assert PARAM_CLOSES == Q + (CRLF + CRLF);
    assert DASHES == CRLF + "--";
    ParamConcat(CRLF, "--", boundary, D, H, F, Q, p.name, p.body);
    assert Headers(p) == D + (H + (F + p.name + Q + CRLF));
  }

  lemma {:induction false} ParamConcat(n: string, d: string, b: string, D: string, H: string, F: string, Q: string,
                                       name: string, body: string)
    ensures (n + d) + (b + ((n + (D + (H + F))) + (name + ((Q + (n + n)) + body)))) ==
            (n + (d + b)) + (n + ((D + (H + (F + name + Q + n))) + (n + body)))
  {
  }

  lemma {:induction false} FileLiterals(boundary: string, p: Part)
    requires p.File?
    ensures DASHES + (boundary + (NAME_OPENS
            + (p.name + (FILENAME_OPENS + (p.base + (TYPE_OPENS + (p.mime + (FILE_CLOSES + p.body)))))))) ==
              Delimiter("--" + boundary) + PartText(p)
  {
    hide Headers;
    var D, H, F, Q, T := DISPOSITION, ": ", "form-data; name=\"", "\"", "Content-Type";
    NameOpens();
    LiteralsSplit();
    FileConcat(CRLF, "--", boundary, D, H, F, Q, T, FILENAME_OPENS, p.name, p.base, p.mime, p.body);
    FileHeaders(p);
  }

  lemma {:induction false} NameOpens()
    ensures NAME_OPENS == CRLF + (DISPOSITION + (": " + "form-data; name=\""))
  {
  }

  lemma {:induction false} LiteralsSplit()
    ensures DASHES == CRLF + "--" && FILE_CLOSES == CRLF + CRLF
    ensures TYPE_OPENS == "\"" + (CRLF + ("Content-Type" + ": "))
  {
  }

  lemma {:induction false} FileHeaders(p: Part)
    requires p.File?
    ensures var D, H, F, Q, T := DISPOSITION, ": ", "form-data; name=\"", "\"", "Content-Type";
            Headers(p) == (D + (H + (F + p.name + FILENAME_OPENS + p.base + Q + CRLF))) + (T + (H + (p.mime + CRLF)))
  {
  }

  lemma {:induction false} FileConcat(n: string, d: string, b: string, D: string, H: string, F: string, Q: string,
                                      T: string, FN: string,
                                      name: string, base: string, mime: string, body: string)
    ensures (n + d) + (b + ((n + (D + (H + F)))
            + (name + (FN + (base + ((Q + (n + (T + H))) + (mime + ((n + n) + body)))))))) ==
            (n + (d + b)) + (n + (((D + (H + (F + name + FN + base + Q + n))) + (T + (H + (mime + n)))) + (n + body)))
  {
  }

  /** The text of a part, literally. */
  lemma {:induction false} PartTextIs(boundary: string, p: Part)
    ensures Delimiter("--" + boundary) + PartText(p)
            == if p.Param? then
                 "\r\n--" + (boundary + ("\r\nContent-Disposition: form-data; name=\""
                     + (p.name + ("\"\r\n\r\n" + p.body))))
               else
                 "\r\n--" + (boundary + ("\r\nContent-Disposition: form-data; name=\"" + (p.name
                 + ("\"; filename=\"" + (p.base + ("\"\r\nContent-Type: " + (p.mime + ("\r\n\r\n" + p.body))))))))
  {
    hide PartText;
    hide Delimiter;
    if p.Param? { ParamLiterals(boundary, p); } else { FileLiterals(boundary, p); }
  }

  /** The whole text: the parts one after the other, and what closes it. */
  lemma {:induction false} EncodedTextIs(boundary: string, parts: seq<Part>, p: Part)
    ensures EncodedText(boundary, []) == "\r\n--" + (boundary + "--\r\n")
    ensures PartsText(boundary, parts + [p]) == PartsText(boundary, parts) + (Delimiter("--" + boundary) + PartText(p))
    ensures EncodedText(boundary, parts) == PartsText(boundary, parts) + EncodedText(boundary, [])
  {
    hide PartText;
    assert (parts + [p])[..|parts|] == parts;
    var d := Delimiter("--" + boundary);
    assert d + "--" + CRLF == "\r\n--" + (boundary + "--\r\n");
    assert PartsText(boundary, []) == "" && "" + (d + "--" + CRLF) == d + "--" + CRLF;
  }

  method EncodeParam(boundary: string, p: Part, content0: string) returns (content: string)
    requires p.Param?
    ensures content == content0 + (Delimiter("--" + boundary) + PartText(p))
  {
    hide *;
    content := content0;
    content := content + DASHES;
    content := content + boundary;
    content := content + NAME_OPENS;
    content := content + p.name;
    content := content + PARAM_CLOSES;
    content := content + p.body;
    ParamLiterals(boundary, p);
    assert content == content0 + (DASHES + (boundary + (NAME_OPENS + (p.name + (PARAM_CLOSES + p.body)))));
  }

  lemma {:induction false} Appended(s: string, a: string, b: string, c: string, d: string, e: string,
                                    f: string, g: string, h: string, i: string, j: string)
    ensures s + a + b + c + d + e + f + g + h + i + j == s + (a + (b + (c + (d + (e + (f + (g + (h + (i + j)))))))))
  {
  }

  method EncodeFile(boundary: string, p: Part, content0: string) returns (content: string)
    requires p.File?
    ensures content == content0 + (Delimiter("--" + boundary) + PartText(p))
  {
    hide *;
    content := content0;
    content := content + DASHES;
    content := content + boundary;
    content := content + NAME_OPENS;
    content := content + p.name;
    content := content + FILENAME_OPENS;
    content := content + p.base;
    content := content + TYPE_OPENS;
    content := content + p.mime;
    content := content + FILE_CLOSES;
    content := content + p.body;
    FileLiterals(boundary, p);
    Appended(content0, DASHES, boundary, NAME_OPENS, p.name, FILENAME_OPENS, p.base, TYPE_OPENS, p.mime, FILE_CLOSES,
        p.body);
  }

  /** The body of a response: nothing is sent unless there is a file, whose last one closes the text. */
  method Encode(boundary: string, params: seq<Part>, files: seq<Part>) returns (content: string, sent: bool)
    requires forall i :: 0 <= i < |params| ==> params[i].Param?
    requires forall i :: 0 <= i < |files| ==> files[i].File?
    ensures sent <==> files != []
    ensures content == if sent then EncodedText(boundary, params + files) else PartsText(boundary, params)
  {
    hide PartText;
    hide Delimiter;
    content := "";
    for i := 0 to |params|
      invariant content == PartsText(boundary, params[..i])
    {
      content := EncodeParam(boundary, params[i], content);
      assert params[..i + 1][..i] == params[..i];
    }
    assert params[..|params|] == params == params + files[..0];
    for i := 0 to |files|
      invariant content == PartsText(boundary, params + files[..i])
    {
      content := EncodeFile(boundary, files[i], content);
      assert (params + files[..i + 1])[..|params| + i] == params + files[..i];
    }
    assert files[..|files|] == files;
    sent := files != [];
    if sent {
      content := Close(boundary, content);
    } else {
      assert params + files == params;
    }
  }

  method Close(boundary: string, content0: string) returns (content: string)
    ensures content == content0 + (Delimiter("--" + boundary) + "--" + CRLF)
  {
    content := content0 + DASHES;
    content := content + boundary;
    content := content + TEXT_CLOSES;
    assert DASHES == CRLF + "--" && TEXT_CLOSES == "--" + CRLF;
    CloseConcat(content0, CRLF, "--", boundary);
  }

  lemma {:induction false} CloseConcat(c: string, n: string, d: string, b: string)
    ensures ((c + (n + d)) + b) + (d + n) == c + ((n + (d + b)) + d + n)
  {
  }
}
