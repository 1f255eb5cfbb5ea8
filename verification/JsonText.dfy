/** JSON trees and their text, formatted or not. */
module JsonText {
  import opened Bytes
  import opened JsonString

  datatype Json =
    | Null
    | False
    | True
    | Num(n: Int32)
    | Str(s: CString)
    | Arr(items: seq<Json>)
    | Obj(members: seq<Member>)

  datatype Member = Member(key: CString, value: Json)

  const NULL_TEXT: Text := [110, 117, 108, 108]
  const FALSE_TEXT: Text := [102, 97, 108, 115, 101]
  const TRUE_TEXT: Text := [116, 114, 117, 101]

  // ---- numbers

  function Digits(n: nat): (t: Text)
    ensures t != []
    ensures forall i :: 0 <= i < |t| ==> 48 <= t[i] <= 57
  {
    if n < 10 then [48 + n] else Digits(n / 10) + [48 + n % 10]
  }

  function Decimal(n: int): Text {
    if n < 0 then [MINUS] + Digits(-n) else Digits(n)
  }

  // ---- trees

  function Tabs(n: nat): (t: Text)
    ensures |t| == n
  {
    seq(n, _ => TAB)
  }

  /** The text of a value at nesting depth `d`. */
  function Render(v: Json, fmt: bool, d: nat): Text
    decreases v, 1
  {
    match v
    case Null => NULL_TEXT
    case False => FALSE_TEXT
    case True => TRUE_TEXT
    case Num(n) => Decimal(n)
    case Str(s) => Quoted(s)
    case Arr(items) => [OPEN_BRACKET] + (RenderItems(items, fmt, d + 1) + [CLOSE_BRACKET])
    case Obj(members) => Open(fmt) + (RenderMembers(members, fmt, d + 1) + Close(fmt, d))
  }

  function Separator(fmt: bool): Text { if fmt then [COMMA, 32] else [COMMA] }

  function RenderItems(items: seq<Json>, fmt: bool, d: nat): Text
    decreases items, 0
  {
    if items == [] then []
    else
      Render(items[0], fmt, d) +
      if |items| == 1 then [] else Separator(fmt) + RenderItems(items[1..], fmt, d)
  }

  function Lead(fmt: bool, d: nat): Text { if fmt then Tabs(d) else [] }
  function Colon(fmt: bool): Text { if fmt then [COLON, TAB] else [COLON] }
  function Open(fmt: bool): Text { if fmt then [OPEN_BRACE, NEWLINE] else [OPEN_BRACE] }
  function Close(fmt: bool, d: nat): Text { Lead(fmt, d) + [CLOSE_BRACE] }

  function MemberHead(key: CString, fmt: bool, d: nat): Text {
    Lead(fmt, d) + (Quoted(key) + Colon(fmt))
  }

  function MemberTail(last: bool, fmt: bool): Text {
    (if last then [] else [COMMA]) + (if fmt then [NEWLINE] else [])
  }

  function MemberText(m: Member, last: bool, fmt: bool, d: nat): Text
    decreases m, 2
  {
    MemberHead(m.key, fmt, d) + (Render(m.value, fmt, d) + MemberTail(last, fmt))
  }

  function RenderMembers(members: seq<Member>, fmt: bool, d: nat): Text
    decreases members, 0
  {
    if members == [] then []
    else MemberText(members[0], |members| == 1, fmt, d) + RenderMembers(members[1..], fmt, d)
  }

  /** How deeply arrays and objects are nested in a value. */
  function Nesting(v: Json): nat
    decreases v, 1
  {
    match v
    case Arr(items) => 1 + ItemsNesting(items)
    case Obj(members) => 1 + MembersNesting(members)
    case _ => 0
  }

  function ItemsNesting(items: seq<Json>): nat
    decreases items, 0
  {
    if items == [] then 0
    else
      var a, b := Nesting(items[0]), ItemsNesting(items[1..]);
      if a < b then b else a
  }

  function MembersNesting(members: seq<Member>): nat
    decreases members, 0
  {
    if members == [] then 0
    else
      var a, b := Nesting(members[0].value), MembersNesting(members[1..]);
      if a < b then b else a
  }

  lemma {:induction false} FirstByte(v: Json, fmt: bool, d: nat)
    ensures Render(v, fmt, d) != [] && Render(v, fmt, d)[0] > 32 && Render(v, fmt, d)[0] != CLOSE_BRACKET
  {
    hide RenderItems;
    hide RenderMembers;
  }

  lemma {:induction false} ItemsText(items: seq<Json>, fmt: bool, d: nat)
    requires items != []
    ensures RenderItems(items, fmt, d) ==
              if |items| == 1 then Render(items[0], fmt, d)
              else Render(items[0], fmt, d) + (Separator(fmt) + RenderItems(items[1..], fmt, d))
  {
    hide Render;
    hide Separator;
  }

  lemma {:induction false} ItemsFirstByte(items: seq<Json>, fmt: bool, d: nat)
    requires items != []
    ensures RenderItems(items, fmt, d) != [] && RenderItems(items, fmt, d)[0] > 32
    ensures RenderItems(items, fmt, d)[0] != CLOSE_BRACKET
  {
    hide Render;
    FirstByte(items[0], fmt, d);
    ItemsText(items, fmt, d);
  }
}
