/** The callbacks that collect a form from what the multipart parser hears. */
module FormData {
  import opened HeaderText
  import opened MultipartMachine

  type Form = map<string, (string, string)>  // name -> (file name, content)

  /** The user data of the callbacks.  `aborted` is set by the exception of `TrimPairs`. */
  datatype Collected = Collected(
    headerField: string, headerValue: string, partData: string,
    name: string, filename: string, form: Form, aborted: bool)

  const NOTHING := Collected("", "", "", "", "", map[], false)

  const DISPOSITION := "Content-Disposition"

  /** One `key=value` of a Content-Disposition header. */
  function Disposed(c: Collected, piece: string): Collected {
    var kv := Split(Trim(piece), '=');
    if c.aborted || |kv| != 2 then c
    else if "name" <= kv[0] then
      match TrimPairs(kv[1]) { case None => c.(aborted := true) case Some(v) => c.(name := v) }
    else if "filename" <= kv[0] then
      match TrimPairs(kv[1]) { case None => c.(aborted := true) case Some(v) => c.(filename := v) }
    else c
  }

  function AllDisposed(c: Collected, pieces: seq<string>): Collected {
    if pieces == [] then c else Disposed(AllDisposed(c, pieces[..|pieces| - 1]), pieces[|pieces| - 1])
  }

  /** The header that was read is used and forgotten.  One with an empty name or value is kept. */
  function HeaderHandled(c: Collected): Collected {
    if c.headerField == "" || c.headerValue == "" then c
    else
      var d := if EqualIgnoringCase(c.headerField, DISPOSITION) then AllDisposed(c, Split(c.headerValue, ';')) else c;
      if d.aborted then d else d.(headerField := "", headerValue := "")
  }

  function DataHandled(c: Collected): Collected {
    c.(form := if c.name != "" then c.form[c.name := (c.filename, c.partData)] else c.form,
       name := "", filename := "", partData := "")
  }

  function Handled(c: Collected, e: Event): Collected {
    if c.aborted then c
    else
      match e
      case OnHeaderField(s) =>
        var d := HeaderHandled(c);
        if d.aborted then d else d.(headerField := d.headerField + s)
      case OnHeaderValue(s) => c.(headerValue := c.headerValue + s)
      case OnPartData(s) => c.(partData := c.partData + s)
      case OnPartDataBegin => c
      case OnHeadersComplete => HeaderHandled(c)
      case OnPartDataEnd => DataHandled(c)
      case OnBodyEnd => c
  }

  function AllHandled(c: Collected, trace: seq<Event>): Collected {
    if trace == [] then c else Handled(AllHandled(c, trace[..|trace| - 1]), trace[|trace| - 1])
  }

  class UserData {
    var headerField: string
    var headerValue: string
    var partData: string
    var name: string
    var filename: string
    var form: Form
    var aborted: bool

    ghost function Abstract(): Collected
      reads this
    {
      Collected(headerField, headerValue, partData, name, filename, form, aborted)
    }

    constructor ()
      ensures Abstract() == NOTHING
    {
      headerField, headerValue, partData, name, filename := "", "", "", "", "";
      form := map[];
      aborted := false;
    }

    method HandleHeader()
      requires !aborted
      modifies this
      ensures Abstract() == HeaderHandled(old(Abstract()))
    {
      hide Disposed;
      if headerField == "" || headerValue == "" { return; }
      if EqualIgnoringCase(headerField, DISPOSITION) {
        var pieces := Split(headerValue, ';');
        ghost var c0 := Abstract();
        for i := 0 to |pieces|
          invariant Abstract() == AllDisposed(c0, pieces[..i])
          invariant !aborted
        {
          assert pieces[..i + 1][..i] == pieces[..i];
          ghost var c := Abstract();
          HandleDisposition(pieces[i]);
          if aborted {
            AbortStays(c0, pieces, i + 1);
            return;
          }
        }
        assert pieces[..|pieces|] == pieces;
      }
      headerField := "";
      headerValue := "";
    }

    method HandleDisposition(piece: string)
      requires !aborted
      modifies this
      ensures Abstract() == Disposed(old(Abstract()), piece)
    {
      var kv := Split(Trim(piece), '=');
      if |kv| == 2 {
        var value := TrimPairs(kv[1]);
        if "name" <= kv[0] {
          if value.None? { aborted := true; } else { name := value.value; }
        } else if "filename" <= kv[0] {
          if value.None? { aborted := true; } else { filename := value.value; }
        }
      }
    }

    method HandleData()
      modifies this
      ensures Abstract() == DataHandled(old(Abstract()))
    {
      if name != "" {
        form := form[name := (filename, partData)];
      }
      name := "";
      filename := "";
      partData := "";
    }

    method On(e: Event)
      modifies this
      ensures Abstract() == Handled(old(Abstract()), e)
    {
      if aborted { return; }
      match e
      case OnHeaderField(s) =>
        HandleHeader();
        if !aborted { headerField := headerField + s; }
      case OnHeaderValue(s) => headerValue := headerValue + s;
      case OnPartData(s) => partData := partData + s;
      case OnPartDataBegin =>
      case OnHeadersComplete => HandleHeader();
      case OnPartDataEnd => HandleData();
      case OnBodyEnd =>
    }
  }

  lemma {:induction false} AbortStays(c: Collected, pieces: seq<string>, i: nat)
    requires i <= |pieces| && AllDisposed(c, pieces[..i]).aborted
    ensures AllDisposed(c, pieces) == AllDisposed(c, pieces[..i])
  {
    if i == |pieces| {
      assert pieces[..i] == pieces;
    } else {
      assert pieces[..|pieces| - 1][..i] == pieces[..i];
      AbortStays(c, pieces[..|pieces| - 1], i);
    }
  }

  // ---- the callbacks cannot tell a trace from its merged form

  /** A header value belongs to a header name. */
  predicate Named(c: Collected) { c.headerField == "" ==> c.headerValue == "" }

  /** Every header value that is not empty follows a header name that is not empty. */
  predicate ValuesAreNamed(trace: seq<Event>) {
    forall i :: 0 <= i < |trace| && trace[i].OnHeaderValue? && trace[i].value != "" ==>
      i > 0 && trace[i - 1].OnHeaderField? && trace[i - 1].name != ""
  }

  lemma {:induction false} DisposedKeepsHeader(c: Collected, pieces: seq<string>)
    ensures var d := AllDisposed(c, pieces);
            d.headerField == c.headerField && d.headerValue == c.headerValue && d.partData == c.partData
                && d.form == c.form
  {
    if pieces != [] {
      DisposedKeepsHeader(c, pieces[..|pieces| - 1]);
    }
  }

  lemma {:induction false} NamesMerge(c: Collected, a: string, b: string)
    requires Named(c)
    ensures Handled(Handled(c, OnHeaderField(a)), OnHeaderField(b)) == Handled(c, OnHeaderField(a + b))
  {
    hide AllDisposed;
    DisposedKeepsHeader(c, Split(c.headerValue, ';'));
    var d := HeaderHandled(c);
    if !c.aborted && !d.aborted {
      assert d.headerValue == "";
      assert (d.headerField + a) + b == d.headerField + (a + b);
    }
  }

  lemma {:induction false} OthersMerge(c: Collected, a: string, b: string)
    ensures Handled(Handled(c, OnHeaderValue(a)), OnHeaderValue(b)) == Handled(c, OnHeaderValue(a + b))
    ensures Handled(Handled(c, OnPartData(a)), OnPartData(b)) == Handled(c, OnPartData(a + b))
  {
    hide HeaderHandled;
    assert (c.headerValue + a) + b == c.headerValue + (a + b);
    assert (c.partData + a) + b == c.partData + (a + b);
  }

  lemma {:induction false} HearHandled(h: seq<Event>, e: Event)
    requires EndsInField(h) && e.OnHeaderField? ==> Named(AllHandled(NOTHING, h[..|h| - 1]))
    ensures AllHandled(NOTHING, Hear(h, e)) == Handled(AllHandled(NOTHING, h), e)
  {
    hide Handled;
    if h == [] {
      assert [e][..0] == [];
    } else {
      var init, last := h[..|h| - 1], h[|h| - 1];
      var c := AllHandled(NOTHING, init);
      if last.OnHeaderField? && e.OnHeaderField? {
        NamesMerge(c, last.name, e.name);
        assert (init + [OnHeaderField(last.name + e.name)])[..|h| - 1] == init;
      } else if last.OnHeaderValue? && e.OnHeaderValue? {
        OthersMerge(c, last.value, e.value);
        assert (init + [OnHeaderValue(last.value + e.value)])[..|h| - 1] == init;
      } else if last.OnPartData? && e.OnPartData? {
        OthersMerge(c, last.data, e.data);
        assert (init + [OnPartData(last.data + e.data)])[..|h| - 1] == init;
      } else {
        assert Hear(h, e) == h + [e];
        assert (h + [e])[..|h|] == h;
      }
    }
  }

  lemma {:induction false} HandledNamed(c: Collected, e: Event)
    requires Named(c)
    requires e.OnHeaderValue? && e.value != "" ==> c.headerField != "" || c.aborted
    ensures Named(Handled(c, e))
    ensures e.OnHeaderField? && e.name != "" ==> Handled(c, e).headerField != "" || Handled(c, e).aborted
  {
    hide AllDisposed;
    DisposedKeepsHeader(c, Split(c.headerValue, ';'));
  }

  lemma {:induction false} TraceNamed(h: seq<Event>)
    requires ValuesAreNamed(h)
    ensures var c := AllHandled(NOTHING, h);
            && Named(c)
            && (h != [] && h[|h| - 1].OnHeaderField? && h[|h| - 1].name != "" ==> c.headerField != "" || c.aborted)
  {
    hide Handled;
    if h != [] {
      var init := h[..|h| - 1];
      TraceNamed(init);
      HandledNamed(AllHandled(NOTHING, init), h[|h| - 1]);
    }
  }

  lemma {:induction false} HearNamed(h: seq<Event>, e: Event)
    requires ValuesAreNamed(Hear(h, e))
    ensures ValuesAreNamed(h)
  {
    var r := Hear(h, e);
    forall i | 0 <= i < |h| && h[i].OnHeaderValue? && h[i].value != ""
      ensures i > 0 && h[i - 1].OnHeaderField? && h[i - 1].name != ""
    {
      assert r[i].OnHeaderValue? && r[i].value != "";
      assert i > 0 ==> r[i - 1] == h[i - 1];
    }
  }

  /** However the parser slices what it reports, the callbacks collect the same. */
  lemma {:induction false} SlicesAreInvisible(trace: seq<Event>)
    requires ValuesAreNamed(Merged(trace))
    ensures AllHandled(NOTHING, trace) == AllHandled(NOTHING, Merged(trace))
  {
    if trace != [] {
      var init, e := trace[..|trace| - 1], trace[|trace| - 1];
      var h := Merged(init);
      HearNamed(h, e);
      SlicesAreInvisible(init);
      var k := if h == [] then 0 else |h| - 1;
      assert ValuesAreNamed(h[..k]) by {
        forall i | 0 <= i < k && h[..k][i].OnHeaderValue? && h[..k][i].value != ""
          ensures i > 0 && h[..k][i - 1].OnHeaderField? && h[..k][i - 1].name != ""
        {
          assert h[i].OnHeaderValue?;
        }
      }
      TraceNamed(h[..k]);
      HearHandled(h, e);
    }
  }

  /** Nor if no name is reported in two pieces, whatever the values follow. */
  lemma {:induction false} WholeNamesAreInvisible(trace: seq<Event>)
    requires Apart(trace)
    ensures AllHandled(NOTHING, trace) == AllHandled(NOTHING, Merged(trace))
  {
    hide Handled;
    hide Hear;
    if trace != [] {
      var init, e := trace[..|trace| - 1], trace[|trace| - 1];
      WholeNamesAreInvisible(init);
      MergedLast(init);
      if EndsInField(init) { assert !(trace[|init| - 1].OnHeaderField? && trace[|init|].OnHeaderField?); }
      HearHandled(Merged(init), e);
    }
  }
}
