/** JSON text as RFC 8259 defines it, apart from any writer or scanner: syntax trees, how a
    tree is spelled (sections 2 to 7) and which value it denotes. The scanner reads exactly
    the texts of this grammar and gives the value that they denote. */
module JsonGrammar {
  import opened Basics
  import opened JsonText

  /** Part of a string: a character of its own, a short escape, or four hexadecimal digits. */
  datatype Unit = Plain(c: char) | Short(letter: char) | Code(hex: string)

  datatype Syntax =
    | NullWord | TrueWord | FalseWord
    | Number(minus: bool, whole: string, fraction: string, exponent: string)
    | Text(units: seq<Unit>)
    | EmptyArray(space: string)
    | Array(elements: Elements)
    | EmptyObject(space: string)
    | Object(fields: Fields)

  datatype Elements = NoElement | Element(before: string, value: Syntax, after: string, rest: Elements)

  datatype Fields = NoField | Field(before: string, key: seq<Unit>, middle: string, between: string, value: Syntax,
    after: string, rest: Fields)

  // ---- Spelling ----

  function SpellUnit(u: Unit): string {
    match u
    case Plain(c) => [c]
    case Short(letter) => ['\\', letter]
    case Code(hex) => "\\u" + hex
  }

  function SpellUnits(units: seq<Unit>): string {
    if units == [] then "" else SpellUnit(units[0]) + SpellUnits(units[1..])
  }

  function Quoted(units: seq<Unit>): string {
    "\"" + SpellUnits(units) + "\""
  }

  function Spell(t: Syntax): string {
    match t
    case NullWord => "null"
    case TrueWord => "true"
    case FalseWord => "false"
    case Number(minus, whole, fraction, exponent) => (if minus then "-" else "") + whole + fraction + exponent
    case Text(units) => Quoted(units)
    case EmptyArray(space) => "[" + space + "]"
    case Array(elements) => "[" + SpellElements(elements) + "]"
    case EmptyObject(space) => "{" + space + "}"
    case Object(fields) => "{" + SpellFields(fields) + "}"
  }

  function SpellElements(e: Elements): string {
    match e
    case NoElement => ""
    case Element(before, value, after, rest) =>
      before + (Spell(value) + (after + (if rest.NoElement? then "" else "," + SpellElements(rest))))
  }

  function SpellFields(f: Fields): string {
    match f
    case NoField => ""
    case Field(before, key, middle, between, value, after, rest) =>
      before + (SpellField(key, middle, between, Spell(value)) + (after + (if rest.NoField? then "" else "," + SpellFields(rest))))
  }

  function SpellField(key: seq<Unit>, middle: string, between: string, value: string): string {
    Quoted(key) + (middle + (":" + (between + value)))
  }

  // ---- The grammar ----

  /** Space, horizontal tab, line feed, carriage return. */
  predicate IsBlank(s: string) {
    forall i :: 0 <= i < |s| ==> s[i] as int in {0x20, 0x09, 0x0A, 0x0D}
  }

  predicate IsDecimal(s: string) {
    s != "" && forall i :: 0 <= i < |s| ==> 0x30 <= s[i] as int <= 0x39
  }

  predicate IsWhole(s: string) {
    IsDecimal(s) && (s[0] == '0' ==> |s| == 1)
  }

  predicate IsFraction(s: string) {
    s == "" || (s[0] == '.' && IsDecimal(s[1..]))
  }

  predicate IsExponent(s: string) {
    s == "" || ((s[0] == 'e' || s[0] == 'E')
      && (IsDecimal(s[1..]) || (|s| > 1 && (s[1] == '+' || s[1] == '-') && IsDecimal(s[2..]))))
  }

  predicate IsHexadecimal(c: char) {
    0x30 <= c as int <= 0x39 || 0x41 <= c as int <= 0x46 || 0x61 <= c as int <= 0x66
  }

  predicate IsUnit(u: Unit) {
    match u
    case Plain(c) => c as int >= 0x20 && c as int != 0x22 && c as int != 0x5C
    case Short(letter) => letter in SHORT_ESCAPES
    case Code(hex) => |hex| == 4 && forall i :: 0 <= i < 4 ==> IsHexadecimal(hex[i])
  }

  predicate AreUnits(units: seq<Unit>) {
    forall i :: 0 <= i < |units| ==> IsUnit(units[i])
  }

  predicate WellFormed(t: Syntax) {
    match t
    case Number(_, whole, fraction, exponent) => IsWhole(whole) && IsFraction(fraction) && IsExponent(exponent)
    case Text(units) => AreUnits(units)
    case EmptyArray(space) => IsBlank(space)
    case Array(elements) => elements.Element? && ElementsFormed(elements)
    case EmptyObject(space) => IsBlank(space)
    case Object(fields) => fields.Field? && FieldsFormed(fields)
    case _ => true
  }

  predicate ElementsFormed(e: Elements) {
    match e
    case NoElement => true
    case Element(before, value, after, rest) =>
      IsBlank(before) && WellFormed(value) && IsBlank(after) && ElementsFormed(rest)
  }

  predicate FieldsFormed(f: Fields) {
    match f
    case NoField => true
    case Field(before, key, middle, between, value, after, rest) =>
      && IsBlank(before) && AreUnits(key) && IsBlank(middle) && IsBlank(between)
      && WellFormed(value) && IsBlank(after) && FieldsFormed(rest)
  }

  // ---- Meaning ----

  function Power(base: nat, n: nat): nat {
    if n == 0 then 1 else base * Power(base, n - 1)
  }

  /** Decimal digits by place value, the most significant first. */
  function PlaceValue(s: string): int {
    if s == "" then 0 else (s[0] as int - 0x30) * Power(10, |s| - 1) + PlaceValue(s[1..])
  }

  function HexadecimalValue(c: char): int {
    if c as int <= 0x39 then c as int - 0x30
    else if c as int <= 0x46 then c as int - 0x41 + 10
    else c as int - 0x61 + 10
  }

  /** The code unit that four hexadecimal digits name. */
  function CodeUnit(hex: string): int
    requires |hex| == 4
  {
    0x1000 * HexadecimalValue(hex[0]) + 0x100 * HexadecimalValue(hex[1])
    + 0x10 * HexadecimalValue(hex[2]) + HexadecimalValue(hex[3])
  }

  /** Quotation mark, reverse solidus, solidus, backspace, form feed, line feed, carriage
      return, tab. */
  const SHORT_ESCAPES: map<char, int> :=
    map['"' := 0x22, '\\' := 0x5C, '/' := 0x2F, 'b' := 0x08, 'f' := 0x0C, 'n' := 0x0A, 'r' := 0x0D, 't' := 0x09]

  predicate IsHighSurrogate(n: int) { 0xD800 <= n < 0xDC00 }
  predicate IsLowSurrogate(n: int) { 0xDC00 <= n < 0xE000 }

  function Supplementary(high: int, low: int): char
    requires IsHighSurrogate(high) && IsLowSurrogate(low)
  {
    (0x10000 + (high - 0xD800) * 0x400 + (low - 0xDC00)) as char
  }

  function CodeOf(u: Unit): int
    requires u.Code? && IsUnit(u)
  {
    CodeUnit(u.hex)
  }

  /** The characters that the units stand for; none when a surrogate stands alone. */
  function UnitsMean(units: seq<Unit>): Option<string>
    requires AreUnits(units)
    decreases |units|
  {
    if units == [] then Some("")
    else match units[0]
      case Plain(c) => Then(c, UnitsMean(units[1..]))
      case Short(letter) => Then(SHORT_ESCAPES[letter] as char, UnitsMean(units[1..]))
      case Code(_) =>
        assert IsUnit(units[0]);
        var n := CodeOf(units[0]);
        assert 0 <= n < 0x10000;
        if !IsHighSurrogate(n) && !IsLowSurrogate(n) then Then(n as char, UnitsMean(units[1..]))
        else if IsHighSurrogate(n) && |units| > 1 && units[1].Code? && IsLowSurrogate(CodeOf(units[1]))
        then Then(Supplementary(n, CodeOf(units[1])), UnitsMean(units[2..]))
        else None
  }

  function Then(c: char, s: Option<string>): Option<string> {
    if s.None? then None else Some([c] + s.value)
  }

  /** Integers denote by place value, other numbers what `read` makes of their text; of a
      repeated key the last value counts. */
  function Meaning(t: Syntax, read: FloatReader): Option<Json>
    requires WellFormed(t)
  {
    match t
    case NullWord => Some(JNull)
    case TrueWord => Some(JBool(true))
    case FalseWord => Some(JBool(false))
    case Number(minus, whole, fraction, exponent) =>
      if fraction == "" && exponent == "" then Some(JInt(if minus then -PlaceValue(whole) else PlaceValue(whole)))
      else (match read(Spell(t)) case None => None case Some(text) => Some(JFloat(text)))
    case Text(units) => (match UnitsMean(units) case None => None case Some(s) => Some(JString(s)))
    case EmptyArray(_) => Some(JArray([]))
    case Array(elements) => (match ElementsMean(elements, read) case None => None case Some(items) => Some(JArray(items)))
    case EmptyObject(_) => Some(JObject(map[]))
    case Object(fields) => (match FieldsMean(fields, read) case None => None case Some(members) => Some(JObject(members)))
  }

  function ElementsMean(e: Elements, read: FloatReader): Option<seq<Json>>
    requires ElementsFormed(e)
  {
    match e
    case NoElement => Some([])
    case Element(_, value, _, rest) =>
      match Meaning(value, read)
      case None => None
      case Some(item) => (match ElementsMean(rest, read) case None => None case Some(items) => Some([item] + items))
  }

  function FieldsMean(f: Fields, read: FloatReader): Option<map<string, Json>>
    requires FieldsFormed(f)
  {
    match f
    case NoField => Some(map[])
    case Field(_, key, _, _, value, _, rest) =>
      match UnitsMean(key)
      case None => None
      case Some(name) =>
        match Meaning(value, read)
        case None => None
        case Some(item) =>
          match FieldsMean(rest, read)
          case None => None
          case Some(members) => Some(map[name := item] + members)
  }

  /** `t` spells a value of the grammar, and `v` is what it denotes. */
  ghost predicate Denotes(t: string, v: Json, read: FloatReader) {
    exists s: Syntax :: WellFormed(s) && Spell(s) == t && Meaning(s, read) == Some(v)
  }

  /** A whole JSON text: one value, white space around it. */
  ghost predicate IsTextOf(t: string, v: Json, read: FloatReader) {
    exists i, j :: 0 <= i <= j <= |t| && IsBlank(t[..i]) && Denotes(t[i..j], v, read) && IsBlank(t[j..])
  }
}
