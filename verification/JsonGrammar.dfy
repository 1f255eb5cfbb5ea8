/** What the parser makes of a text: every outcome, as a function of the text and the offset.

    The text ends with a NUL, as the text of a C string handed over with its terminator does. */
module JsonGrammar {
  import opened Bytes
  import opened JsonString
  import opened JsonText

  const NESTING_LIMIT := 1000

  /** Skipping whitespace; NUL counts as whitespace, and running off the end steps back by one. */
  function SkipRun(c: Text, p: nat): (q: nat)
    requires p <= |c|
    ensures p <= q <= |c| && (q < |c| ==> c[q] > 32)
    decreases |c| - p
  {
    if p < |c| && c[p] <= 32 then SkipRun(c, p + 1) else p
  }

  function Skip(c: Text, p: nat): (q: nat)
    requires p < |c|
    ensures p <= q < |c|
  {
    var q := SkipRun(c, p);
    if q == |c| then q - 1 else q
  }

  // ---- strings

  datatype StringOutcome = StringFail(offset: nat) | StringOk(value: CString, offset: nat)

  function StringAt(c: Text, p: nat): (r: StringOutcome)
    requires Terminated(c) && p < |c|
    ensures r.StringOk? ==> p < r.offset < |c|
  {
    if c[p] != QUOTE then StringFail(p + 1)
    else
      match ScanQuote(c, p + 1)
      case None => StringFail(p + 1)
      case Some(end) =>
        match Decode(c, p + 1, end)
        case BadAt(at) => StringFail(at)
        case Decoded(t) => StringOk(AsCString(t), end + 1)
  }

  // ---- numbers

  predicate IsDigit(b: Byte) { 48 <= b <= 57 }

  predicate IsNumberByte(b: Byte) {
    IsDigit(b) || b in [43, 45, 46, 69, 101]  // + - . E e
  }

  /** How many bytes of a number, up to `limit`, start at `p`. */
  function NumberRun(c: Text, p: nat, limit: nat): (n: nat)
    requires p <= |c|
    ensures n <= limit && p + n <= |c| && forall i :: p <= i < p + n ==> IsNumberByte(c[i])
    decreases limit
  {
    if limit == 0 || p == |c| || !IsNumberByte(c[p]) then 0 else 1 + NumberRun(c, p + 1, limit - 1)
  }

  function DigitRun(t: Text, p: nat): (q: nat)
    requires p <= |t|
    ensures p <= q <= |t|
    decreases |t| - p
  {
    if p < |t| && IsDigit(t[p]) then DigitRun(t, p + 1) else p
  }

  /** The number that a run of digits writes; other bytes are skipped. */
  function DigitsValue(t: Text): nat {
    if t == [] then 0
    else
      var b, high := t[|t| - 1], DigitsValue(t[..|t| - 1]);
      if IsDigit(b) then high * 10 + (b - 48) else high
  }

  function Pow10(e: nat): (r: nat)
    ensures r > 0
  {
    if e == 0 then 1 else 10 * Pow10(e - 1)
  }

  /** The decimal number at the start of `t`, cut to an integer, and the bytes it takes: what strtod
      reads, without the rounding of doubles. */
  datatype Number = NotANumber | Number(truncated: int, used: nat)

  function Strtod(t: Text): (r: Number)
    ensures r.Number? ==> 0 < r.used <= |t|
  {
    var i := if t != [] && (t[0] == 43 || t[0] == MINUS) then 1 else 0;
    var j := DigitRun(t, i);
    var k := if j < |t| && t[j] == 46 then DigitRun(t, j + 1) else j;
    var fraction := if k > j then k - (j + 1) else 0;
    if j - i + fraction == 0 then NotANumber
    else
      var m := if k < |t| && t[k] in [69, 101] then
                 if k + 1 < |t| && t[k + 1] in [43, 45] then k + 2 else k + 1
               else k;
      var x := if m > k then DigitRun(t, m) else k;
      var used := if x > m then x else k;
      var exponent: int := if x > m then DigitsValue(t[m..x]) else 0;
      var scale := (if x > m && t[m - 1] == MINUS then -exponent else exponent) - fraction;
      var mantissa := DigitsValue(t[i..k]);
      var size: int := if scale >= 0 then mantissa * Pow10(scale) else mantissa / Pow10(-scale);
      Number(if i == 1 && t[0] == MINUS then -size else size, used)
  }

  function Saturated(x: int): Int32 {
    if x >= INT_MAX then INT_MAX else if x <= INT_MIN then INT_MIN else x
  }

  // ---- values

  datatype Outcome = Fail(offset: nat) | Ok(value: Json, offset: nat)
  datatype ItemsOutcome = ItemsFail(offset: nat) | ItemsOk(items: seq<Json>, offset: nat)
  datatype MembersOutcome = MembersFail(offset: nat) | MembersOk(members: seq<Member>, offset: nat)

  function NumberAt(c: Text, p: nat): (r: Outcome)
    requires Terminated(c) && p < |c|
    ensures r.Ok? ==> p < r.offset < |c|
  {
    var n := NumberRun(c, p, 63);
    match Strtod(c[p..p + n])
    case NotANumber => Fail(p)
    case Number(x, used) => assert p + n < |c|; Ok(Num(Saturated(x)), p + used)
  }

  function ValueAt(c: Text, p: nat, depth: nat): (r: Outcome)
    requires Terminated(c) && p < |c|
    ensures r.Ok? ==> p < r.offset < |c|
    decreases |c| - p, 2
  {
    if StandsAt(NULL_TEXT, c, p) then assert c[p..p + 4][3] == 108; Ok(Null, p + 4)
    else if StandsAt(FALSE_TEXT, c, p) then assert c[p..p + 5][4] == 101; Ok(False, p + 5)
    else if StandsAt(TRUE_TEXT, c, p) then assert c[p..p + 4][3] == 101; Ok(True, p + 4)
    else if c[p] == QUOTE then
      match StringAt(c, p)
      case StringFail(o) => Fail(o)
      case StringOk(s, o) => Ok(Str(s), o)
    else if c[p] == MINUS || IsDigit(c[p]) then NumberAt(c, p)
    else if c[p] == OPEN_BRACKET then ArrayAt(c, p, depth)
    else if c[p] == OPEN_BRACE then ObjectAt(c, p, depth)
    else Fail(p)
  }

  function ArrayAt(c: Text, p: nat, depth: nat): (r: Outcome)
    requires Terminated(c) && p < |c| && c[p] == OPEN_BRACKET
    ensures r.Ok? ==> p < r.offset < |c|
    decreases |c| - p, 1
  {
    if depth >= NESTING_LIMIT then Fail(p)
    else
      var q := Skip(c, p + 1);
      if c[q] == CLOSE_BRACKET then Ok(Arr([]), q + 1)
      else
        match ItemsAt(c, q - 1, depth + 1)
        case ItemsFail(o) => Fail(o)
        case ItemsOk(items, o) => Ok(Arr(items), o)
  }

  /** The items after the byte at `p`, up to and over the closing bracket. */
  function ItemsAt(c: Text, p: nat, depth: nat): (r: ItemsOutcome)
    requires Terminated(c) && p + 1 < |c|
    ensures r.ItemsOk? ==> p < r.offset < |c|
    decreases |c| - p, 0
  {
    match ValueAt(c, Skip(c, p + 1), depth)
    case Fail(o) => ItemsFail(o)
    case Ok(v, o) =>
      var s := Skip(c, o);
      if c[s] == COMMA then
        match ItemsAt(c, s, depth)
        case ItemsFail(o') => ItemsFail(o')
        case ItemsOk(items, o') => ItemsOk([v] + items, o')
      else if c[s] == CLOSE_BRACKET then ItemsOk([v], s + 1)
      else ItemsFail(s)
  }

  function ObjectAt(c: Text, p: nat, depth: nat): (r: Outcome)
    requires Terminated(c) && p < |c| && c[p] == OPEN_BRACE
    ensures r.Ok? ==> p < r.offset < |c|
    decreases |c| - p, 1
  {
    if depth >= NESTING_LIMIT then Fail(p)
    else
      var q := Skip(c, p + 1);
      if c[q] == CLOSE_BRACE then Ok(Obj([]), q + 1)
      else
        match MembersAt(c, q - 1, depth + 1)
        case MembersFail(o) => Fail(o)
        case MembersOk(members, o) => Ok(Obj(members), o)
  }

  function MembersAt(c: Text, p: nat, depth: nat): (r: MembersOutcome)
    requires Terminated(c) && p + 1 < |c|
    ensures r.MembersOk? ==> p < r.offset < |c|
    decreases |c| - p, 0
  {
    hide StringAt;
    hide Skip;
    match StringAt(c, Skip(c, p + 1))
    case StringFail(o) => MembersFail(o)
    case StringOk(key, o) =>
      var s := Skip(c, o);
      if c[s] != COLON then MembersFail(s)
      else
        match ValueAt(c, Skip(c, s + 1), depth)
        case Fail(o') => MembersFail(o')
        case Ok(v, o') =>
          var u := Skip(c, o');
          if c[u] == COMMA then
            match MembersAt(c, u, depth)
            case MembersFail(o'') => MembersFail(o'')
            case MembersOk(members, o'') => MembersOk([Member(key, v)] + members, o'')
          else if c[u] == CLOSE_BRACE then MembersOk([Member(key, v)], u + 1)
          else MembersFail(u)
  }

  /** A whole text: an optional byte order mark, whitespace, a value, and, if asked, nothing else. */
  function TextAt(c: Text, requireEnd: bool): Outcome
    requires Terminated(c)
  {
    var start := if |c| > 4 && c[..3] == [0xEF, 0xBB, 0xBF] then 3 else 0;
    match ValueAt(c, Skip(c, start), 0)
    case Fail(o) => Fail(o)
    case Ok(v, o) =>
      if !requireEnd then Ok(v, o)
      else
        var s := Skip(c, o);
        if c[s] != 0 then Fail(s) else Ok(v, s)
  }
}
