/** JSON values as Python sees them and the compact text that `json.dumps` writes
    for them (sorted keys, no spaces, non-ASCII kept), with the scanner of
    `json.loads`; RFC 8259 sections 3 to 7. */
module JsonText {
  import opened Basics

  /** `JFloat` carries the shortest round-tripping text of the float, as `repr` gives it. */
  datatype Json =
    | JNull
    | JBool(b: bool)
    | JInt(i: int)
    | JFloat(text: string)
    | JString(s: string)
    | JArray(items: seq<Json>)
    | JObject(members: map<string, Json>)

  // ---- Text of scalars ----

  predicate IsDigit(c: char) { '0' <= c <= '9' }

  function DigitChar(d: int): char
    requires 0 <= d < 10
  {
    ('0' as int + d) as char
  }

  function DigitValue(c: char): int
    requires IsDigit(c)
  {
    c as int - '0' as int
  }

  function NatText(n: nat): string {
    if n < 10 then [DigitChar(n)] else NatText(n / 10) + [DigitChar(n % 10)]
  }

  function IntText(n: int): string {
    if n < 0 then "-" + NatText(-n) else NatText(n)
  }

  predicate AllDigits(s: string) {
    forall i :: 0 <= i < |s| ==> IsDigit(s[i])
  }

  function NatValue(s: string): nat
    requires AllDigits(s)
  {
    if s == "" then 0 else 10 * NatValue(s[..|s| - 1]) + DigitValue(s[|s| - 1])
  }

  predicate IsIntLiteral(s: string) {
    s != "" && (if s[0] == '-' then |s| > 1 && AllDigits(s[1..]) else AllDigits(s))
  }

  function IntValue(s: string): int
    requires IsIntLiteral(s)
  {
    if s[0] == '-' then 0 - NatValue(s[1..]) else NatValue(s)
  }

  function HexChar(d: int): char
    requires 0 <= d < 16
  {
    if d < 10 then DigitChar(d) else ('a' as int + d - 10) as char
  }

  function HexValue(c: char): int {
    if IsDigit(c) then DigitValue(c)
    else if 'a' <= c <= 'f' then c as int - 'a' as int + 10
    else if 'A' <= c <= 'F' then c as int - 'A' as int + 10
    else -1
  }

  /** Quotes, backslash and control characters are escaped; everything else is kept. */
  function EscapeChar(c: char): string {
    var n := c as int;
    if c == '"' then "\\\""
    else if c == '\\' then "\\\\"
    else if c == '\n' then "\\n"
    else if c == '\r' then "\\r"
    else if c == '\t' then "\\t"
    else if n == 8 then "\\b"
    else if n == 12 then "\\f"
    else if n < 32 then ['\\', 'u', '0', '0', HexChar(n / 16), HexChar(n % 16)]
    else [c]
  }

  function Escape(s: string): string {
    if s == "" then "" else EscapeChar(s[0]) + Escape(s[1..])
  }

  function Quote(s: string): string {
    "\"" + Escape(s) + "\""
  }

  // ---- Key order ----

  predicate StrLeq(a: string, b: string) {
    a == "" || (b != "" && (a[0] < b[0] || (a[0] == b[0] && StrLeq(a[1..], b[1..]))))
  }

  lemma {:induction false} StrLeqTotal(a: string, b: string)
    ensures StrLeq(a, b) || StrLeq(b, a)
    ensures StrLeq(a, b) && StrLeq(b, a) ==> a == b
  {
    if a != "" && b != "" && a[0] == b[0] {
      StrLeqTotal(a[1..], b[1..]);
      if StrLeq(a, b) && StrLeq(b, a) {
        assert a == [a[0]] + a[1..] && b == [b[0]] + b[1..];
      }
    }
  }

  lemma {:induction false} StrLeqTransitive(a: string, b: string, c: string)
    requires StrLeq(a, b) && StrLeq(b, c)
    ensures StrLeq(a, c)
  {
    if a != "" && a[0] == b[0] && b[0] == c[0] { StrLeqTransitive(a[1..], b[1..], c[1..]); }
  }

  predicate IsLeast(k: string, keys: set<string>) {
    k in keys && forall j :: j in keys ==> StrLeq(k, j)
  }

  lemma {:induction false} LeastExists(keys: set<string>)
    requires keys != {}
    ensures exists k :: IsLeast(k, keys)
    decreases |keys|
  {
    var k :| k in keys;
    var rest := keys - {k};
    StrLeqTotal(k, k);
    if rest == {} {
      assert forall j :: j in keys ==> j == k || j in rest;
      assert IsLeast(k, keys);
    } else {
      LeastExists(rest);
      var m :| IsLeast(m, rest);
      StrLeqTotal(k, m);
      if StrLeq(k, m) {
        forall j | j in keys ensures StrLeq(k, j) {
          if j != k {
            assert j in rest;
            StrLeqTransitive(k, m, j);
          }
        }
        assert IsLeast(k, keys);
      } else {
        forall j | j in keys ensures StrLeq(m, j) {
          if j != k { assert j in rest; }
        }
        assert IsLeast(m, keys);
      }
    }
  }

  lemma {:induction false} LeastIsUnique(a: string, b: string, keys: set<string>)
    requires IsLeast(a, keys) && IsLeast(b, keys)
    ensures a == b
  {
    StrLeqTotal(a, b);
  }

  function Least(keys: set<string>): (k: string)
    requires keys != {}
    ensures IsLeast(k, keys)
  {
    LeastExists(keys);
    assert forall a, b :: IsLeast(a, keys) && IsLeast(b, keys) ==> a == b by {
      forall a, b | IsLeast(a, keys) && IsLeast(b, keys) ensures a == b { LeastIsUnique(a, b, keys); }
    }
    var k :| IsLeast(k, keys);
    k
  }

  function SortedKeys(keys: set<string>): (ks: seq<string>)
    ensures forall k :: k in ks <==> k in keys
    decreases |keys|
  {
    if keys == {} then [] else
      var k := Least(keys);
      assert keys == (keys - {k}) + {k};
      [k] + SortedKeys(keys - {k})
  }

  predicate StrictlyAscending(ks: seq<string>) {
    forall i, j :: 0 <= i < j < |ks| ==> StrLeq(ks[i], ks[j]) && ks[i] != ks[j]
  }

  /** `sort_keys`: strictly ascending, hence without repetition. */
  lemma {:induction false} SortedKeysAscend(keys: set<string>)
    ensures StrictlyAscending(SortedKeys(keys))
    decreases |keys|
  {
    if keys != {} {
      var k := Least(keys);
      assert keys == (keys - {k}) + {k};
      SortedKeysAscend(keys - {k});
      PrependLeast(k, SortedKeys(keys - {k}));
    }
  }

  lemma {:induction false} PrependLeast(k: string, rest: seq<string>)
    requires StrictlyAscending(rest) && forall x :: x in rest ==> StrLeq(k, x) && x != k
    ensures StrictlyAscending([k] + rest)
  {
    var ks := [k] + rest;
    forall i, j | 0 <= i < j < |ks| ensures StrLeq(ks[i], ks[j]) && ks[i] != ks[j] {
      assert ks[j] == rest[j - 1];
      assert i > 0 ==> ks[i] == rest[i - 1];
    }
  }

  // ---- The writer ----

  function Encode(v: Json): string
    decreases v, 1, 0
  {
    match v
    case JNull => "null"
    case JBool(b) => if b then "true" else "false"
    case JInt(i) => IntText(i)
    case JFloat(text) => text
    case JString(s) => Quote(s)
    case JArray(items) => "[" + EncodeItems(v, 0) + "]"
    case JObject(members) => "{" + EncodeMembers(v, SortedKeys(members.Keys)) + "}"
  }

  function EncodeItems(v: Json, from: nat): string
    requires v.JArray? && from <= |v.items|
    decreases v, 0, |v.items| - from
  {
    if from == |v.items| then ""
    else Encode(v.items[from]) + (if from + 1 == |v.items| then "" else "," + EncodeItems(v, from + 1))
  }

  function EncodeMembers(v: Json, keys: seq<string>): string
    requires v.JObject? && forall k :: k in keys ==> k in v.members
    decreases v, 0, |keys|
  {
    if keys == [] then ""
    else
      Quote(keys[0]) + ":" + Encode(v.members[keys[0]])
      + (if |keys| == 1 then "" else "," + EncodeMembers(v, keys[1..]))
  }

  // ---- The scanner ----

  datatype Parsed<+T> = Failed | Parsed(value: T, rest: string)

  /** What `float` makes of a literal, as its canonical text; none when not finite. */
  type FloatReader = string -> Option<string>

  predicate IsSpace(c: char) { c == ' ' || c == '\t' || c == '\n' || c == '\r' }

  function SkipSpace(s: string): (r: string)
    ensures |r| <= |s|
  {
    if s != "" && IsSpace(s[0]) then SkipSpace(s[1..]) else s
  }

  function DigitRun(s: string, i: nat): (j: nat)
    requires i <= |s|
    ensures i <= j <= |s| && AllDigits(s[i..j]) && (j == |s| || !IsDigit(s[j]))
    decreases |s| - i
  {
    if i < |s| && IsDigit(s[i]) then DigitRun(s, i + 1) else i
  }

  function FractionEnd(s: string, i: nat): (j: nat)
    requires i <= |s|
    ensures i <= j <= |s|
  {
    if i + 1 < |s| && s[i] == '.' && IsDigit(s[i + 1]) then DigitRun(s, i + 1) else i
  }

  function ExponentEnd(s: string, i: nat): (j: nat)
    requires i <= |s|
    ensures i <= j <= |s|
  {
    if i < |s| && (s[i] == 'e' || s[i] == 'E') then
      var p := if i + 1 < |s| && (s[i + 1] == '+' || s[i + 1] == '-') then i + 2 else i + 1;
      if p < |s| && IsDigit(s[p]) then DigitRun(s, p) else i
    else i
  }

  function IntegerEnd(s: string): (j: nat)
    ensures j <= |s|
  {
    var i := if s != "" && s[0] == '-' then 1 else 0;
    if i < |s| && IsDigit(s[i]) then (if s[i] == '0' then i + 1 else DigitRun(s, i)) else 0
  }

  function NumberEnd(s: string): (j: nat)
    ensures IntegerEnd(s) <= j <= |s|
  {
    var i := IntegerEnd(s);
    if i == 0 then 0 else ExponentEnd(s, FractionEnd(s, i))
  }

  function ParseNumber(s: string, read: FloatReader): (p: Parsed<Json>)
    ensures p.Parsed? ==> |p.rest| < |s|
  {
    var end := NumberEnd(s);
    var text := s[..end];
    if IntegerEnd(s) == 0 then Failed
    else if end == IntegerEnd(s) then (if IsIntLiteral(text) then Parsed(JInt(IntValue(text)), s[end..]) else Failed)
    else match read(text)
      case None => Failed
      case Some(canonical) => Parsed(JFloat(canonical), s[end..])
  }

  predicate IsHex4(s: string) {
    |s| >= 4 && forall i :: 0 <= i < 4 ==> HexValue(s[i]) >= 0
  }

  function Hex4(s: string): int
    requires IsHex4(s)
  {
    ((HexValue(s[0]) * 16 + HexValue(s[1])) * 16 + HexValue(s[2])) * 16 + HexValue(s[3])
  }

  function Prepend(c: char, p: Parsed<string>): Parsed<string> {
    match p
    case Failed => Failed
    case Parsed(value, rest) => Parsed([c] + value, rest)
  }

  function SimpleEscape(c: char): Option<char> {
    if c == '"' then Some('"')
    else if c == '\\' then Some('\\')
    else if c == '/' then Some('/')
    else if c == 'b' then Some(8 as char)
    else if c == 'f' then Some(12 as char)
    else if c == 'n' then Some('\n')
    else if c == 'r' then Some('\r')
    else if c == 't' then Some('\t')
    else None
  }

  /** The rest of a string after its opening quote. A lone surrogate escape has no
      UTF-8 encoding, so the decoder refuses it later; here it already fails. */
  function ParseChars(s: string): (p: Parsed<string>)
    ensures p.Parsed? ==> |p.rest| < |s|
  {
    if s == "" then Failed
    else if s[0] == '"' then Parsed("", s[1..])
    else if s[0] as int < 32 then Failed
    else if s[0] != '\\' then Prepend(s[0], ParseChars(s[1..]))
    else if |s| < 2 then Failed
    else if s[1] == 'u' then
      if !IsHex4(s[2..]) then Failed
      else
        var n := Hex4(s[2..]);
        if !(0xD800 <= n < 0xE000) then Prepend(n as char, ParseChars(s[6..]))
        else if n < 0xDC00 && |s| >= 12 && s[6] == '\\' && s[7] == 'u' && IsHex4(s[8..])
                && 0xDC00 <= Hex4(s[8..]) < 0xE000
        then Prepend((0x10000 + (n - 0xD800) * 0x400 + (Hex4(s[8..]) - 0xDC00)) as char, ParseChars(s[12..]))
        else Failed
    else match SimpleEscape(s[1])
      case None => Failed
      case Some(c) => Prepend(c, ParseChars(s[2..]))
  }

  predicate StartsWith(s: string, word: string) {
    word <= s
  }

  function ParseValue(s: string, read: FloatReader): (p: Parsed<Json>)
    ensures p.Parsed? ==> |p.rest| < |s|
    decreases |s|, 0
  {
    if s == "" then Failed
    else if s[0] == '"' then
      match ParseChars(s[1..])
      case Failed => Failed
      case Parsed(value, rest) => Parsed(JString(value), rest)
    else if s[0] == '{' then
      var t := SkipSpace(s[1..]);
      if t != "" && t[0] == '}' then Parsed(JObject(map[]), t[1..]) else ParseMembers(t, map[], read)
    else if s[0] == '[' then
      var t := SkipSpace(s[1..]);
      if t != "" && t[0] == ']' then Parsed(JArray([]), t[1..]) else ParseItems(t, [], read)
    else if StartsWith(s, "null") then Parsed(JNull, s[4..])
    else if StartsWith(s, "true") then Parsed(JBool(true), s[4..])
    else if StartsWith(s, "false") then Parsed(JBool(false), s[5..])
    else ParseNumber(s, read)
  }

  function ParseItems(s: string, items: seq<Json>, read: FloatReader): (p: Parsed<Json>)
    ensures p.Parsed? ==> |p.rest| < |s|
    decreases |s|, 1
  {
    match ParseValue(s, read)
    case Failed => Failed
    case Parsed(value, rest) =>
      var t := SkipSpace(rest);
      if t != "" && t[0] == ',' then ParseItems(SkipSpace(t[1..]), items + [value], read)
      else if t != "" && t[0] == ']' then Parsed(JArray(items + [value]), t[1..])
      else Failed
  }

  /** Members in order; a repeated key takes the last value, as a `dict` does. */
  function ParseMembers(s: string, members: map<string, Json>, read: FloatReader): (p: Parsed<Json>)
    ensures p.Parsed? ==> |p.rest| < |s|
    decreases |s|, 1
  {
    if s == "" || s[0] != '"' then Failed
    else match ParseChars(s[1..])
      case Failed => Failed
      case Parsed(key, afterKey) =>
        var t := SkipSpace(afterKey);
        if t == "" || t[0] != ':' then Failed
        else match ParseValue(SkipSpace(t[1..]), read)
          case Failed => Failed
          case Parsed(value, rest) =>
            var u := SkipSpace(rest);
            if u != "" && u[0] == ',' then ParseMembers(SkipSpace(u[1..]), members[key := value], read)
            else if u != "" && u[0] == '}' then Parsed(JObject(members[key := value]), u[1..])
            else Failed
  }

  /** `json.loads`: one value between optional spaces, and nothing after it. */
  function Loads(s: string, read: FloatReader): Option<Json> {
    match ParseValue(SkipSpace(s), read)
    case Failed => None
    case Parsed(value, rest) => if SkipSpace(rest) == "" then Some(value) else None
  }
}
