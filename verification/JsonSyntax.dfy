/** The texts that a JSON parser may be handed, as trees that keep every byte: how each is spelled, and what it
    means. Nothing here scans. */
module JsonSyntax {
  import opened Bytes
  import opened UnicodeEscape
  import opened JsonText

  // ---- strings

  const LOWER_HEX: Text := [48, 49, 50, 51, 52, 53, 54, 55, 56, 57, 97, 98, 99, 100, 101, 102]
  const UPPER_HEX: Text := [48, 49, 50, 51, 52, 53, 54, 55, 56, 57, 65, 66, 67, 68, 69, 70]

  predicate HexDigitFor(b: Byte, v: nat) { v < 16 && (b == LOWER_HEX[v] || b == UPPER_HEX[v]) }

  /** The four hexadecimal digits of a code unit, in either case. */
  predicate Writes(t: Text, u: nat) {
    && |t| == 4 && u < 0x10000
    && HexDigitFor(t[0], u / 4096) && HexDigitFor(t[1], u / 256 % 16)
    && HexDigitFor(t[2], u / 16 % 16) && HexDigitFor(t[3], u % 16)
  }

  /** What stands between the quotes: a byte; a backslash and a letter; one escape of four digits, or two that are a
      surrogate pair; an escape whose four bytes are not all digits. */
  datatype Unit =
    | Raw(b: Byte)
    | Short(letter: Byte)
    | Code(cp: nat, digits: Text)
    | Pair(cp: nat, high: Text, low: Text)
    | Spoiled(bytes: Text)

  /** The eight letters after a backslash: quote, backslash, slash, b, f, n, r, t. */
  const SHORT: map<Byte, Byte> :=
    map[34 := 34, 92 := 92, 47 := 47, 98 := 8, 102 := 12, 110 := 10, 114 := 13, 116 := 9]

  function SpelledUnit(u: Unit): (t: Text)
    ensures t != []
  {
    match u
    case Raw(b) => [b]
    case Short(letter) => [92, letter]
    case Code(_, digits) => [92, 117] + digits
    case Pair(_, high, low) => ([92, 117] + high) + ([92, 117] + low)
    case Spoiled(bytes) => [92, 117] + bytes
  }

  predicate GoodUnit(u: Unit) {
    match u
    case Raw(b) => b != 92
    case Short(letter) => letter in SHORT
    case Code(cp, digits) => (cp < 0xD800 || 0xE000 <= cp < 0x10000) && Writes(digits, cp)
    case Pair(cp, high, low) =>
      && 0x10000 <= cp <= 0x10FFFF
      && Writes(high, 0xD800 + (cp - 0x10000) / 0x400) && Writes(low, 0xDC00 + (cp - 0x10000) % 0x400)
    case Spoiled(bytes) => |bytes| == 4 && exists i :: 0 <= i < 4 && bytes[i] !in LOWER_HEX && bytes[i] !in UPPER_HEX
  }

  function UnitMeaning(u: Unit): Text
    requires GoodUnit(u)
  {
    match u
    case Raw(b) => [b]
    case Short(letter) => [SHORT[letter]]
    case Code(cp, _) => Utf8(cp)
    case Pair(cp, _, _) => Utf8(cp)
    case Spoiled(_) => [0]
  }

  predicate GoodUnits(us: seq<Unit>) { forall i :: 0 <= i < |us| ==> GoodUnit(us[i]) }

  function SpelledUnits(us: seq<Unit>): Text { if us == [] then [] else SpelledUnit(us[0]) + SpelledUnits(us[1..]) }

  function JoinedMeaning(us: seq<Unit>): Text
    requires GoodUnits(us)
  {
    if us == [] then [] else UnitMeaning(us[0]) + JoinedMeaning(us[1..])
  }

  /** Taken from the left, every backslash covers the byte after it, and no quote is left uncovered. */
  predicate Closed(body: Text) {
    if body == [] then true
    else if body[0] == 92 then |body| >= 2 && Closed(body[2..])
    else body[0] != 34 && Closed(body[1..])
  }

  /** A literal's body is its units. Because spoiled escapes can put the units out of step with the backslashes, the
      last may also be a backslash that takes the closing quote along. */
  predicate GoodString(body: Text, us: seq<Unit>) {
    && Closed(body) && GoodUnits(us)
    && (SpelledUnits(us) == body || (us != [] && us[|us| - 1] == Short(34) && SpelledUnits(us) == body + [34]))
  }

  // ---- numbers

  datatype Power = Power(mark: Byte, sign: Text, digits: Text)

  datatype Numeral = Numeral(minus: bool, whole: Text, fraction: Option<Text>, power: Option<Power>)

  predicate Digit(b: Byte) { b in [48, 49, 50, 51, 52, 53, 54, 55, 56, 57] }
  predicate AllDigit(t: Text) { forall i :: 0 <= i < |t| ==> Digit(t[i]) }

  predicate GoodPower(p: Power) {
    (p.mark == 69 || p.mark == 101) && p.sign in [[], [43], [45]] && p.digits != [] && AllDigit(p.digits)
  }

  predicate GoodNumeral(n: Numeral) {
    && AllDigit(n.whole) && (n.fraction.Some? ==> AllDigit(n.fraction.value))
    && (n.power.Some? ==> GoodPower(n.power.value))
    && (n.minus || n.whole != []) && (n.whole != [] || (n.fraction.Some? && n.fraction.value != []))
  }

  function SpelledFraction(f: Option<Text>): Text { if f.None? then [] else [46] + f.value }

  function SpelledPower(p: Option<Power>): Text {
    if p.None? then [] else [p.value.mark] + (p.value.sign + p.value.digits)
  }

  function SpelledNumeral(n: Numeral): Text {
    (if n.minus then [45] else []) + (n.whole + (SpelledFraction(n.fraction) + SpelledPower(n.power)))
  }

  /** What digits stand for. */
  function Stands(t: Text): nat
    requires AllDigit(t)
  {
    if t == [] then 0 else Stands(t[..|t| - 1]) * 10 + (t[|t| - 1] - 48)
  }

  /** Ten to the power of `e`. */
  function Ten(e: int): (r: real)
    ensures r > 0.0
    decreases if e >= 0 then e else -e
  {
    if e == 0 then 1.0 else if e > 0 then 10.0 * Ten(e - 1) else Ten(e + 1) / 10.0
  }

  function Exponent(p: Option<Power>): int
    requires p.Some? ==> GoodPower(p.value)
  {
    if p.None? then 0
    else
      var e: int := Stands(p.value.digits);
      if p.value.sign == [45] then -e else e
  }

  /** The size of a numeral, a whole number and a fraction of ten's power, cut to an integer. */
  function Size(n: Numeral): int
    requires GoodNumeral(n)
  {
    var f: Text := if n.fraction.None? then [] else n.fraction.value;
    ((Stands(n.whole) as real + Stands(f) as real / Ten(|f|)) * Ten(Exponent(n.power))).Floor
  }

  function NumeralMeaning(n: Numeral): Int32
    requires GoodNumeral(n)
  {
    var x := if n.minus then -Size(n) else Size(n);
    if x < -0x8000_0000 then -0x8000_0000 else if x > 0x7FFF_FFFF then 0x7FFF_FFFF else x
  }

  // ---- values

  /** A gap is bytes up to the space, among them tab, line feed and carriage return. */
  predicate Gap(t: Text) { forall i :: 0 <= i < |t| ==> t[i] <= 32 }

  datatype Doc =
    | WordDoc(word: Json)
    | NumberDoc(numeral: Numeral)
    | StringDoc(body: Text, units: seq<Unit>)
    | ArrayDoc(gap: Text, items: seq<Item>)
    | ObjectDoc(gap: Text, fields: seq<Field>)

  datatype Item = Item(before: Text, value: Doc, after: Text)

  datatype Field = Field(before: Text, body: Text, units: seq<Unit>, colon: Text, lead: Text, value: Doc, after: Text)

  function Word(v: Json): Text {
    match v
    case Null => [110, 117, 108, 108]
    case False => [102, 97, 108, 115, 101]
    case True => [116, 114, 117, 101]
    case _ => []
  }

  function Spelled(d: Doc): Text
    decreases d, 1
  {
    match d
    case WordDoc(v) => Word(v)
    case NumberDoc(n) => SpelledNumeral(n)
    case StringDoc(body, _) => SpelledString(body)
    case ArrayDoc(gap, items) => [91] + ((if items == [] then gap else SpelledItems(items)) + [93])
    case ObjectDoc(gap, fields) => [123] + ((if fields == [] then gap else SpelledFields(fields)) + [125])
  }

  function SpelledString(body: Text): Text { [34] + (body + [34]) }

  function SpelledItems(items: seq<Item>): Text
    decreases items, 0
  {
    if items == [] then []
    else
      items[0].before + (Spelled(items[0].value)
      + (items[0].after + if |items| == 1 then [] else [44] + SpelledItems(items[1..])))
  }

  function SpelledFields(fields: seq<Field>): Text
    decreases fields, 0
  {
    if fields == [] then []
    else
      SpelledKey(fields[0]) + (Spelled(fields[0].value)
      + (fields[0].after + if |fields| == 1 then [] else [44] + SpelledFields(fields[1..])))
  }

  /** Up to the value: a key and a colon, with gaps around both. */
  function SpelledKey(f: Field): Text { f.before + (SpelledString(f.body) + (f.colon + ([58] + f.lead))) }

  /** A number is at most 63 bytes long. */
  predicate Good(d: Doc)
    decreases d, 1
  {
    match d
    case WordDoc(v) => v.Null? || v.False? || v.True?
    case NumberDoc(n) => GoodNumeral(n) && |SpelledNumeral(n)| <= 63
    case StringDoc(body, us) => GoodString(body, us)
    case ArrayDoc(gap, items) => Gap(gap) && GoodItems(items)
    case ObjectDoc(gap, fields) => Gap(gap) && GoodFields(fields)
  }

  predicate GoodItems(items: seq<Item>)
    decreases items, 0
  {
    items == [] || (Gap(items[0].before) && Good(items[0].value) && Gap(items[0].after) && GoodItems(items[1..]))
  }

  predicate GoodFields(fields: seq<Field>)
    decreases fields, 0
  {
    fields == [] || (GoodKey(fields[0]) && Good(fields[0].value) && Gap(fields[0].after) && GoodFields(fields[1..]))
  }

  predicate GoodKey(f: Field) { Gap(f.before) && GoodString(f.body, f.units) && Gap(f.colon) && Gap(f.lead) }

  /** A string ends at its first NUL. */
  function StringMeaning(us: seq<Unit>): CString
    requires GoodUnits(us)
  {
    AsCString(JoinedMeaning(us))
  }

  function Meaning(d: Doc): Json
    requires Good(d)
    decreases d, 1
  {
    match d
    case WordDoc(v) => v
    case NumberDoc(n) => Num(NumeralMeaning(n))
    case StringDoc(_, us) => Str(StringMeaning(us))
    case ArrayDoc(_, items) => Arr(ItemsMeant(items))
    case ObjectDoc(_, fields) => Obj(FieldsMeant(fields))
  }

  function ItemsMeant(items: seq<Item>): seq<Json>
    requires GoodItems(items)
    decreases items, 0
  {
    if items == [] then [] else [Meaning(items[0].value)] + ItemsMeant(items[1..])
  }

  function FieldsMeant(fields: seq<Field>): seq<Member>
    requires GoodFields(fields)
    decreases fields, 0
  {
    if fields == [] then []
    else [Member(StringMeaning(fields[0].units), Meaning(fields[0].value))] + FieldsMeant(fields[1..])
  }
}
