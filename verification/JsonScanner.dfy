/** The scanner reads exactly the JSON texts: what it yields is what the consumed text
    denotes, and every text of the grammar is read as what it denotes. */
module JsonScanner {
  import opened Basics
  import opened JsonText
  import opened JsonGrammar

  // ---- Spaces ----

  lemma {:induction false} SpacesSkipped(s: string) returns (space: string)
    ensures IsBlank(space) && s == space + SkipSpace(s)
    ensures SkipSpace(s) == "" || !IsSpace(SkipSpace(s)[0])
  {
    if s != "" && IsSpace(s[0]) {
      var more := SpacesSkipped(s[1..]);
      space := [s[0]] + more;
    } else {
      space := "";
    }
  }

  lemma {:induction false} BlankIsSkipped(space: string, rest: string)
    requires IsBlank(space) && (rest == "" || !IsSpace(rest[0]))
    ensures SkipSpace(space + rest) == rest
  {
    if space == "" {
      assert space + rest == rest;
    } else {
      assert (space + rest)[1..] == space[1..] + rest;
      BlankIsSkipped(space[1..], rest);
    }
  }

  // ---- Numbers ----

  /** The next character could not go on with a number. */
  predicate Stops(s: string) {
    s == "" || !(IsDigit(s[0]) || s[0] == '.' || s[0] == 'e' || s[0] == 'E')
  }

  lemma {:induction false} DigitsAreDecimal(s: string)
    ensures AllDigits(s) && s != "" <==> IsDecimal(s)
  {
  }

  lemma {:induction false} PlaceValueOfMore(s: string, c: char)
    ensures PlaceValue(s + [c]) == 10 * PlaceValue(s) + (c as int - 0x30)
  {
    var all := s + [c];
    if s == "" {
      assert all[1..] == "" && Power(10, 0) == 1;
    } else {
      assert all[1..] == s[1..] + [c] && all[0] == s[0];
      PlaceValueOfMore(s[1..], c);
    }
  }

  /** Reading digits from the left is their place value. */
  lemma {:induction false} DigitsByPlace(s: string)
    requires AllDigits(s)
    ensures NatValue(s) == PlaceValue(s)
  {
    if s != "" {
      DigitsByPlace(s[..|s| - 1]);
      PlaceValueOfMore(s[..|s| - 1], s[|s| - 1]);
      assert s == s[..|s| - 1] + [s[|s| - 1]];
    }
  }

  lemma {:induction false} RunEnds(s: string, i: nat, j: nat)
    requires i <= j <= |s| && AllDigits(s[i..j]) && (j == |s| || !IsDigit(s[j]))
    ensures DigitRun(s, i) == j
    decreases j - i
  {
    if i < j {
      assert s[i] == s[i..j][0];
      assert s[i + 1..j] == s[i..j][1..];
      RunEnds(s, i + 1, j);
    }
  }

  /** The three parts of a number at fixed positions: where the scanner sees them end. */
  lemma {:induction false} PartsEnd(s: string, i: nat, j: nat, k: nat, l: nat)
    requires i < j <= k <= l <= |s| && i == (if s[0] == '-' then 1 else 0)
    requires IsWhole(s[i..j]) && IsFraction(s[j..k]) && IsExponent(s[k..l]) && Stops(s[l..])
    ensures IntegerEnd(s) == j && FractionEnd(s, j) == k && ExponentEnd(s, k) == l
  {
    assert s[l..] != "" ==> s[l] == s[l..][0];
    WholeEnds(s, i, j, k, l);
    FractionEnds(s, j, k, l);
    ExponentEnds(s, k, l);
  }

  lemma {:induction false} WholeEnds(s: string, i: nat, j: nat, k: nat, l: nat)
    requires i < j <= k <= l <= |s| && i == (if s[0] == '-' then 1 else 0)
    requires IsWhole(s[i..j]) && IsFraction(s[j..k]) && IsExponent(s[k..l]) && (l == |s| || !IsDigit(s[l]))
    ensures IntegerEnd(s) == j
  {
    assert s[i] == s[i..j][0];
    if j < k { assert s[j] == s[j..k][0]; }
    if k < l { assert s[k] == s[k..l][0]; }
    RunEnds(s, i, j);
  }

  lemma {:induction false} FractionEnds(s: string, j: nat, k: nat, l: nat)
    requires j <= k <= l <= |s| && IsFraction(s[j..k]) && IsExponent(s[k..l])
    requires l == |s| || !(IsDigit(s[l]) || s[l] == '.')
    ensures FractionEnd(s, j) == k
  {
    if k < l { assert s[k] == s[k..l][0]; }
    if j < k {
      assert s[j] == s[j..k][0] && s[j..k][1..] == s[j + 1..k];
      assert s[j + 1] == s[j + 1..k][0];
      RunEnds(s, j + 1, k);
    }
  }

  lemma {:induction false} ExponentEnds(s: string, k: nat, l: nat)
    requires k <= l <= |s| && IsExponent(s[k..l])
    requires l == |s| || !(IsDigit(s[l]) || s[l] == 'e' || s[l] == 'E')
    ensures ExponentEnd(s, k) == l
  {
    if k < l {
      var e := s[k..l];
      assert s[k] == e[0] && e[1..] == s[k + 1..l];
      if IsDecimal(e[1..]) {
        assert s[k + 1] == e[1..][0];
        RunEnds(s, k + 1, l);
      } else {
        assert s[k + 1] == e[1] && e[2..] == s[k + 2..l];
        assert s[k + 2] == e[2..][0];
        RunEnds(s, k + 2, l);
      }
    }
  }

  lemma {:induction false} WholeIsSpelled(s: string) returns (i: nat)
    requires IntegerEnd(s) != 0
    ensures i < IntegerEnd(s) && i == (if s[0] == '-' then 1 else 0) && IsWhole(s[i..IntegerEnd(s)])
  {
    i := if s[0] == '-' then 1 else 0;
    assert s[i..IntegerEnd(s)][0] == s[i];
  }

  lemma {:induction false} FractionIsSpelled(s: string, j: nat)
    requires j <= |s|
    ensures j <= FractionEnd(s, j) && IsFraction(s[j..FractionEnd(s, j)])
  {
    var k := FractionEnd(s, j);
    if j < k {
      assert s[j..k][1..] == s[j + 1..k];
      assert k > j + 1;
    }
  }

  lemma {:induction false} ExponentIsSpelled(s: string, k: nat)
    requires k <= |s|
    ensures k <= ExponentEnd(s, k) && IsExponent(s[k..ExponentEnd(s, k)])
  {
    var l := ExponentEnd(s, k);
    if k < l {
      var p := if s[k + 1] == '+' || s[k + 1] == '-' then k + 2 else k + 1;
      assert s[k..l][p - k..] == s[p..l];
      assert l > p;
    }
  }

  lemma {:induction false} NumberIsDenoted(s: string, read: FloatReader) returns (t: Syntax)
    requires ParseNumber(s, read).Parsed?
    ensures t.Number? && WellFormed(t) && s == Spell(t) + ParseNumber(s, read).rest
    ensures Meaning(t, read) == Some(ParseNumber(s, read).value)
  {
    var i := WholeIsSpelled(s);
    var j := IntegerEnd(s);
    var k := FractionEnd(s, j);
    var l := ExponentEnd(s, k);
    FractionIsSpelled(s, j);
    ExponentIsSpelled(s, k);
    t := NumberOf(s, i, j, k, l);
    IntegerMeans(s, i, j);
    assert s[..l] + s[l..] == s;
  }

  lemma {:induction false} NumberOf(s: string, i: nat, j: nat, k: nat, l: nat) returns (t: Syntax)
    requires i < j <= k <= l <= |s| && i == (if s[0] == '-' then 1 else 0)
    requires IsWhole(s[i..j]) && IsFraction(s[j..k]) && IsExponent(s[k..l])
    ensures t == Number(s[0] == '-', s[i..j], s[j..k], s[k..l]) && WellFormed(t) && Spell(t) == s[..l]
    ensures j == l <==> t.fraction == "" && t.exponent == ""
  {
    t := Number(s[0] == '-', s[i..j], s[j..k], s[k..l]);
    assert s[..i] == if s[0] == '-' then "-" else "";
    FourParts(s, i, j, k, l);
  }

  lemma {:induction false} FourParts(s: string, i: nat, j: nat, k: nat, l: nat)
    requires i <= j <= k <= l <= |s|
    ensures s[..l] == s[..i] + s[i..j] + s[j..k] + s[k..l] && s == s[..l] + s[l..]
  {
  }

  /** The value of an integer literal. */
  lemma {:induction false} IntegerMeans(s: string, i: nat, j: nat)
    requires i < j <= |s| && i == (if s[0] == '-' then 1 else 0) && IsWhole(s[i..j])
    ensures IsIntLiteral(s[..j])
    ensures IntValue(s[..j]) == if s[0] == '-' then -PlaceValue(s[i..j]) else PlaceValue(s[i..j])
  {
    DigitsByPlace(s[i..j]);
    assert s[..j][0] == s[0];
    if i == 1 {
      assert s[..j][1..] == s[1..j];
    } else {
      assert s[i..j] == s[..j];
    }
  }

  lemma {:induction false} PartsOf(t: Syntax, rest: string) returns (i: nat, j: nat, k: nat, l: nat)
    requires t.Number? && WellFormed(t)
    ensures var s := Spell(t) + rest;
      && i < j <= k <= l <= |s| && i == (if s[0] == '-' then 1 else 0) && (s[0] == '-' <==> t.minus)
      && s[i..j] == t.whole && s[j..k] == t.fraction && s[k..l] == t.exponent && s[..l] == Spell(t) && s[l..] == rest
  {
    var s := Spell(t) + rest;
    var sign := if t.minus then "-" else "";
    i, j := |sign|, |sign| + |t.whole|;
    k := j + |t.fraction|;
    l := k + |t.exponent|;
    assert s[0] == if t.minus then '-' else t.whole[0];
  }

  lemma {:induction false} NumberIsRead(t: Syntax, rest: string, read: FloatReader)
    requires t.Number? && WellFormed(t) && Meaning(t, read).Some? && Stops(rest)
    ensures ParseNumber(Spell(t) + rest, read) == Parsed(Meaning(t, read).value, rest)
  {
    var s := Spell(t) + rest;
    var i, j, k, l := PartsOf(t, rest);
    PartsEnd(s, i, j, k, l);
    IntegerMeans(s, i, j);
    assert j == l <==> t.fraction == "" && t.exponent == "";
  }

  // ---- Strings ----

  lemma {:induction false} HexadecimalAgrees(c: char)
    ensures IsHexadecimal(c) <==> HexValue(c) >= 0
    ensures IsHexadecimal(c) ==> HexValue(c) == HexadecimalValue(c) && HexValue(c) < 16
  {
  }

  lemma {:induction false} CodeAgrees(s: string)
    requires |s| >= 4
    ensures IsHex4(s) <==> IsUnit(Code(s[..4]))
    ensures IsHex4(s) ==> Hex4(s) == CodeUnit(s[..4]) && 0 <= Hex4(s) < 0x10000
  {
    HexadecimalAgrees(s[0]);
    HexadecimalAgrees(s[1]);
    HexadecimalAgrees(s[2]);
    HexadecimalAgrees(s[3]);
    FourHexadecimals(s[..4]);
    assert IsHex4(s) <==> HexValue(s[0]) >= 0 && HexValue(s[1]) >= 0 && HexValue(s[2]) >= 0 && HexValue(s[3]) >= 0;
    if IsHex4(s) { CodeInRange(HexValue(s[0]), HexValue(s[1]), HexValue(s[2]), HexValue(s[3])); }
  }

  lemma {:induction false} FourHexadecimals(hex: string)
    requires |hex| == 4
    ensures IsUnit(Code(hex))
       <==> IsHexadecimal(hex[0]) && IsHexadecimal(hex[1]) && IsHexadecimal(hex[2]) && IsHexadecimal(hex[3])
  {
  }

  lemma {:induction false} CodeInRange(a: int, b: int, c: int, d: int)
    requires 0 <= a < 16 && 0 <= b < 16 && 0 <= c < 16 && 0 <= d < 16
    ensures ((a * 16 + b) * 16 + c) * 16 + d == 0x1000 * a + 0x100 * b + 0x10 * c + d
    ensures 0 <= 0x1000 * a + 0x100 * b + 0x10 * c + d < 0x10000
  {
  }

  lemma {:induction false} ShortAgrees(c: char)
    ensures SimpleEscape(c).Some? <==> IsUnit(Short(c))
    ensures SimpleEscape(c).Some? ==> SimpleEscape(c).value == SHORT_ESCAPES[c] as char
  {
  }

  // One unit, or a pair of codes, before others: spelling and meaning.

  lemma {:induction false} UnitGoesBefore(u: Unit, more: seq<Unit>, s: string, tail: string, end: string)
    requires IsUnit(u) && AreUnits(more) && s == SpellUnit(u) + tail && tail == SpellUnits(more) + "\"" + end
    ensures AreUnits([u] + more) && s == SpellUnits([u] + more) + "\"" + end
  {
    assert ([u] + more)[1..] == more;
    Glue(SpellUnit(u), SpellUnits(more), end);
  }

  lemma {:induction false} Glue(a: string, b: string, end: string)
    ensures a + (b + "\"" + end) == a + b + "\"" + end
  {
  }

  lemma {:induction false} PlainMeans(c: char, more: seq<Unit>)
    requires IsUnit(Plain(c)) && AreUnits(more)
    ensures AreUnits([Plain(c)] + more) && UnitsMean([Plain(c)] + more) == Then(c, UnitsMean(more))
  {
    assert ([Plain(c)] + more)[1..] == more;
  }

  lemma {:induction false} ShortMeans(c: char, more: seq<Unit>)
    requires IsUnit(Short(c)) && AreUnits(more)
    ensures AreUnits([Short(c)] + more) && UnitsMean([Short(c)] + more) == Then(SHORT_ESCAPES[c] as char, UnitsMean(more))
  {
    assert ([Short(c)] + more)[1..] == more;
  }

  lemma {:induction false} CodeMeans(u: Unit, more: seq<Unit>)
    requires u.Code? && IsUnit(u) && AreUnits(more) && !(0xD800 <= CodeUnit(u.hex) < 0xE000)
    ensures 0 <= CodeUnit(u.hex) < 0x10000
    ensures AreUnits([u] + more) && UnitsMean([u] + more) == Then(CodeUnit(u.hex) as char, UnitsMean(more))
  {
    CodeAgrees(u.hex);
    assert u.hex[..4] == u.hex;
    assert ([u] + more)[1..] == more;
  }

  lemma {:induction false} PairMeans(u: Unit, v: Unit, more: seq<Unit>)
    requires u.Code? && v.Code? && IsUnit(u) && IsUnit(v) && AreUnits(more)
    requires IsHighSurrogate(CodeUnit(u.hex)) && IsLowSurrogate(CodeUnit(v.hex))
    ensures AreUnits([u, v] + more)
    ensures UnitsMean([u, v] + more) == Then(Supplementary(CodeUnit(u.hex), CodeUnit(v.hex)), UnitsMean(more))
  {
    assert ([u, v] + more)[2..] == more;
  }

  // The scanner at one unit.

  lemma {:induction false} PlainIsRead(c: char, tail: string)
    requires IsUnit(Plain(c))
    ensures ParseChars(SpellUnit(Plain(c)) + tail) == Prepend(c, ParseChars(tail))
  {
    assert ([c] + tail)[1..] == tail;
  }

  lemma {:induction false} ShortIsRead(c: char, tail: string)
    requires IsUnit(Short(c))
    ensures ParseChars(SpellUnit(Short(c)) + tail) == Prepend(SHORT_ESCAPES[c] as char, ParseChars(tail))
  {
    ShortAgrees(c);
    assert (['\\', c] + tail)[2..] == tail;
  }

  lemma {:induction false} CodeIsNext(u: Unit, tail: string)
    requires u.Code? && IsUnit(u)
    ensures var s := SpellUnit(u) + tail;
      |s| >= 6 && s[0] == '\\' && s[1] == 'u' && IsHex4(s[2..]) && Hex4(s[2..]) == CodeUnit(u.hex) && s[6..] == tail
  {
    var s := SpellUnit(u) + tail;
    assert s[2..][..4] == u.hex;
    CodeAgrees(s[2..]);
  }

  lemma {:induction false} CodeIsRead(u: Unit, tail: string)
    requires u.Code? && IsUnit(u) && !(0xD800 <= CodeUnit(u.hex) < 0xE000)
    ensures 0 <= CodeUnit(u.hex) < 0x10000
    ensures ParseChars(SpellUnit(u) + tail) == Prepend(CodeUnit(u.hex) as char, ParseChars(tail))
  {
    CodeIsNext(u, tail);
    CodeMeans(u, []);
  }

  lemma {:induction false} PairIsRead(u: Unit, v: Unit, tail: string)
    requires u.Code? && v.Code? && IsUnit(u) && IsUnit(v)
    requires IsHighSurrogate(CodeUnit(u.hex)) && IsLowSurrogate(CodeUnit(v.hex))
    ensures ParseChars(SpellUnit(u) + (SpellUnit(v) + tail))
         == Prepend(Supplementary(CodeUnit(u.hex), CodeUnit(v.hex)), ParseChars(tail))
  {
    var inner := SpellUnit(v) + tail;
    var s := SpellUnit(u) + inner;
    CodeIsNext(u, inner);
    CodeIsNext(v, tail);
    assert s[8..] == inner[2..] && s[12..] == inner[6..] && s[6] == inner[0] && s[7] == inner[1];
  }

  /** Where a code escape can go on. */
  lemma {:induction false} CodeCases(s: string)
    requires ParseChars(s).Parsed? && |s| >= 2 && s[0] == '\\' && s[1] == 'u'
    ensures IsHex4(s[2..])
    ensures 0xD800 <= Hex4(s[2..]) < 0xE000 ==>
      && Hex4(s[2..]) < 0xDC00 && |s| >= 12 && s[6] == '\\' && s[7] == 'u' && IsHex4(s[8..])
      && 0xDC00 <= Hex4(s[8..]) < 0xE000
  {
  }

  lemma {:induction false} UnitAtHead(s: string) returns (u: Unit)
    requires |s| >= 2 && s[0] == '\\' && s[1] == 'u' && IsHex4(s[2..])
    ensures u.Code? && IsUnit(u) && CodeUnit(u.hex) == Hex4(s[2..]) && |s| >= 6 && s == SpellUnit(u) + s[6..]
  {
    CodeAgrees(s[2..]);
    u := Code(s[2..][..4]);
  }

  /** The first unit of what the scanner reads, or the first pair: the meaning of the rest
      goes after it. */
  lemma {:induction false} FirstUnits(s: string) returns (head: seq<Unit>, tail: string, c: char)
    requires ParseChars(s).Parsed? && s[0] != '"'
    ensures (|head| == 1 || |head| == 2) && |tail| < |s| && AreUnits(head)
    ensures ParseChars(s) == Prepend(c, ParseChars(tail))
    ensures s == (if |head| == 1 then SpellUnit(head[0]) + tail else SpellUnit(head[0]) + (SpellUnit(head[1]) + tail))
    ensures forall more: seq<Unit> :: AreUnits(more) ==>
      AreUnits(head + more) && UnitsMean(head + more) == Then(c, UnitsMean(more))
  {
    if s[0] != '\\' {
      head, tail, c := [Plain(s[0])], s[1..], s[0];
      forall more: seq<Unit> | AreUnits(more) ensures AreUnits(head + more) && UnitsMean(head + more) == Then(c, UnitsMean(more)) {
        PlainMeans(c, more);
      }
    } else if s[1] != 'u' {
      ShortAgrees(s[1]);
      head, tail, c := [Short(s[1])], s[2..], SHORT_ESCAPES[s[1]] as char;
      forall more: seq<Unit> | AreUnits(more) ensures AreUnits(head + more) && UnitsMean(head + more) == Then(c, UnitsMean(more)) {
        ShortMeans(s[1], more);
      }
    } else {
      head, tail, c := FirstCodes(s);
    }
  }

  lemma {:induction false} FirstCodes(s: string) returns (head: seq<Unit>, tail: string, c: char)
    requires ParseChars(s).Parsed? && |s| >= 2 && s[0] == '\\' && s[1] == 'u'
    ensures (|head| == 1 || |head| == 2) && |tail| < |s| && AreUnits(head)
    ensures ParseChars(s) == Prepend(c, ParseChars(tail))
    ensures s == (if |head| == 1 then SpellUnit(head[0]) + tail else SpellUnit(head[0]) + (SpellUnit(head[1]) + tail))
    ensures forall more: seq<Unit> :: AreUnits(more) ==>
      AreUnits(head + more) && UnitsMean(head + more) == Then(c, UnitsMean(more))
  {
    CodeCases(s);
    var u := UnitAtHead(s);
    if !(0xD800 <= CodeUnit(u.hex) < 0xE000) {
      CodeIsRead(u, s[6..]);
      head, tail, c := [u], s[6..], CodeUnit(u.hex) as char;
      forall more: seq<Unit> | AreUnits(more) ensures AreUnits(head + more) && UnitsMean(head + more) == Then(c, UnitsMean(more)) {
        CodeMeans(u, more);
      }
    } else {
      assert s[6..][2..] == s[8..];
      var v := UnitAtHead(s[6..]);
      head, tail, c := [u, v], s[6..][6..], Supplementary(CodeUnit(u.hex), CodeUnit(v.hex));
      PairIsRead(u, v, tail);
      forall more: seq<Unit> | AreUnits(more) ensures AreUnits(head + more) && UnitsMean(head + more) == Then(c, UnitsMean(more)) {
        PairMeans(u, v, more);
      }
    }
  }

  /** The units of a string that the scanner reads up to its closing quote. */
  lemma {:induction false} CharsAreDenoted(s: string) returns (units: seq<Unit>)
    requires ParseChars(s).Parsed?
    ensures AreUnits(units) && s == SpellUnits(units) + "\"" + ParseChars(s).rest
    ensures UnitsMean(units) == Some(ParseChars(s).value)
    decreases |s|
  {
    if s[0] == '"' {
      units := [];
    } else {
      var head, tail, c := FirstUnits(s);
      var more := CharsAreDenoted(tail);
      units := head + more;
      UnitsGoBefore(head, more, s, tail, ParseChars(tail).rest);
    }
  }

  lemma {:induction false} UnitsGoBefore(head: seq<Unit>, more: seq<Unit>, s: string, tail: string, end: string)
    requires (|head| == 1 || |head| == 2) && AreUnits(head) && AreUnits(more)
    requires s == (if |head| == 1 then SpellUnit(head[0]) + tail else SpellUnit(head[0]) + (SpellUnit(head[1]) + tail))
    requires tail == SpellUnits(more) + "\"" + end
    ensures AreUnits(head + more) && s == SpellUnits(head + more) + "\"" + end
  {
    if |head| == 1 {
      UnitGoesBefore(head[0], more, s, tail, end);
      assert head == [head[0]];
    } else {
      UnitGoesBefore(head[1], more, SpellUnit(head[1]) + tail, tail, end);
      UnitGoesBefore(head[0], [head[1]] + more, s, SpellUnit(head[1]) + tail, end);
      assert head + more == [head[0]] + ([head[1]] + more);
    }
  }

  /** Every spelling of a string is read as what it means. */
  lemma {:induction false} UnitsAreRead(units: seq<Unit>, rest: string)
    requires AreUnits(units) && UnitsMean(units).Some?
    ensures ParseChars(SpellUnits(units) + "\"" + rest) == Parsed(UnitsMean(units).value, rest)
    decreases |units|
  {
    if units == [] {
      assert SpellUnits(units) + "\"" + rest == "\"" + rest;
    } else {
      var u, more := units[0], units[1..];
      assert IsUnit(u) && [u] + more == units;
      Glue(SpellUnit(u), SpellUnits(more), rest);
      var tail := SpellUnits(more) + "\"" + rest;
      match u {
        case Plain(c) =>
          PlainMeans(c, more);
          PlainIsRead(c, tail);
          UnitsAreRead(more, rest);
        case Short(letter) =>
          ShortMeans(letter, more);
          ShortIsRead(letter, tail);
          UnitsAreRead(more, rest);
        case Code(_) =>
          if !(0xD800 <= CodeUnit(u.hex) < 0xE000) {
            CodeMeans(u, more);
            CodeIsRead(u, tail);
            UnitsAreRead(more, rest);
          } else {
            SurrogatesAreRead(units, rest);
          }
      }
    }
  }

  lemma {:induction false} SurrogatesAreRead(units: seq<Unit>, rest: string)
    requires AreUnits(units) && UnitsMean(units).Some?
    requires units != [] && units[0].Code? && 0xD800 <= CodeUnit(units[0].hex) < 0xE000
    ensures ParseChars(SpellUnits(units) + "\"" + rest) == Parsed(UnitsMean(units).value, rest)
    decreases |units|, 0
  {
    var u, v, last := units[0], units[1], units[2..];
    assert IsUnit(u) && IsUnit(v) && AreUnits(last);
    var tail := SpellUnits(last) + "\"" + rest;
    assert units == [u, v] + last;
    PairMeans(u, v, last);
    UnitsAreRead(last, rest);
    PairIsRead(u, v, tail);
    UnitGoesBefore(v, last, SpellUnit(v) + tail, tail, rest);
    UnitGoesBefore(u, [v] + last, SpellUnit(u) + (SpellUnit(v) + tail), SpellUnit(v) + tail, rest);
    assert units == [u] + ([v] + last);
  }

  // ---- Values: what is read is denoted ----

  lemma {:induction false} ValueIsDenoted(s: string, read: FloatReader) returns (t: Syntax)
    requires ParseValue(s, read).Parsed?
    ensures WellFormed(t) && s == Spell(t) + ParseValue(s, read).rest
    ensures Meaning(t, read) == Some(ParseValue(s, read).value)
    decreases |s|, 1
  {
    if s[0] == '"' {
      t := TextIsDenoted(s, read);
    } else if s[0] == '{' {
      t := ObjectIsDenoted(s, read);
    } else if s[0] == '[' {
      t := ArrayIsDenoted(s, read);
    } else {
      t := WordOrNumberIsDenoted(s, read);
    }
  }

  lemma {:induction false} TextIsDenoted(s: string, read: FloatReader) returns (t: Syntax)
    requires s != "" && s[0] == '"' && ParseValue(s, read).Parsed?
    ensures WellFormed(t) && s == Spell(t) + ParseValue(s, read).rest
    ensures Meaning(t, read) == Some(ParseValue(s, read).value)
  {
    var units := CharsAreDenoted(s[1..]);
    t := Text(units);
    TextEnclosed(s, SpellUnits(units), ParseChars(s[1..]).rest);
  }

  lemma {:induction false} TextEnclosed(s: string, units: string, rest: string)
    requires s != "" && s[0] == '"' && s[1..] == units + "\"" + rest
    ensures s == "\"" + units + "\"" + rest
  {
    assert s == "\"" + s[1..];
  }

  lemma {:induction false} WordOrNumberIsDenoted(s: string, read: FloatReader) returns (t: Syntax)
    requires ParseValue(s, read).Parsed? && s[0] != '"' && s[0] != '{' && s[0] != '['
    ensures WellFormed(t) && s == Spell(t) + ParseValue(s, read).rest
    ensures Meaning(t, read) == Some(ParseValue(s, read).value)
  {
    if StartsWith(s, "null") {
      t := NullWord;
    } else if StartsWith(s, "true") {
      t := TrueWord;
    } else if StartsWith(s, "false") {
      t := FalseWord;
    } else {
      t := NumberIsDenoted(s, read);
    }
  }

  lemma {:induction false} Enclosed(open: string, space: string, body: string, close: string, end: string)
    ensures open + (space + (body + close + end)) == open + (space + body) + close + end
    ensures open + (space + (close + end)) == open + space + close + end
  {
  }

  /** The same elements, with other spaces before the first. */
  lemma {:induction false} ShiftElements(e: Elements, before: string, read: FloatReader) returns (shifted: Elements)
    requires e.Element? && e.before == "" && ElementsFormed(e) && IsBlank(before)
    ensures shifted.Element? && ElementsFormed(shifted) && SpellElements(shifted) == before + SpellElements(e)
    ensures ElementsMean(shifted, read) == ElementsMean(e, read)
  {
    shifted := Element(before, e.value, e.after, e.rest);
  }

  lemma {:induction false} ArrayIsDenoted(s: string, read: FloatReader) returns (t: Syntax)
    requires s != "" && s[0] == '[' && ParseValue(s, read).Parsed?
    ensures WellFormed(t) && s == Spell(t) + ParseValue(s, read).rest
    ensures Meaning(t, read) == Some(ParseValue(s, read).value)
    decreases |s|, 0
  {
    var space := SpacesSkipped(s[1..]);
    var u := SkipSpace(s[1..]);
    assert s == "[" + (space + u);
    if u != "" && u[0] == ']' {
      t := EmptyArray(space);
      Enclosed("[", space, "", "]", u[1..]);
      assert u == "]" + u[1..];
    } else {
      var e, items := ItemsAreDenoted(u, [], read);
      var end := ParseItems(u, [], read).rest;
      var shifted := ShiftElements(e, space, read);
      t := Array(shifted);
      Enclosed("[", space, SpellElements(e), "]", end);
      assert [] + items == items;
    }
  }

  /** The scanner after one item. */
  lemma {:induction false} AfterOneItem(s: string, done: seq<Json>, read: FloatReader) returns (item: Json, rest: string, u: string)
    requires ParseItems(s, done, read).Parsed?
    ensures ParseValue(s, read) == Parsed(item, rest) && u == SkipSpace(rest) && |u| > 0 && |u| < |s|
    ensures u[0] == ',' || u[0] == ']'
    ensures ParseItems(s, done, read)
         == if u[0] == ',' then ParseItems(SkipSpace(u[1..]), done + [item], read) else Parsed(JArray(done + [item]), u[1..])
  {
    item, rest := ParseValue(s, read).value, ParseValue(s, read).rest;
    u := SkipSpace(rest);
  }

  /** The text of one item and of those after it. */
  lemma {:induction false} JoinText(s: string, head: string, rest: string, after: string, u: string, before: string, w: string,
      next: string, close: string, end: string)
    requires s == head + rest && rest == after + u && u != "" && u[0] == ',' && u[1..] == before + w && w == next + close + end
    ensures s == "" + (head + (after + ("," + (before + next)))) + close + end
  {
    assert u == "," + u[1..];
  }

  lemma {:induction false} CloseText(s: string, head: string, rest: string, after: string, u: string, close: string)
    requires s == head + rest && rest == after + u && u != "" && [u[0]] == close
    ensures s == "" + (head + (after + "")) + close + u[1..]
  {
    assert u == close + u[1..];
  }

  /** One element before others. */
  lemma {:induction false} ElementGoesBefore(value: Syntax, item: Json, after: string, next: Elements, more: seq<Json>, read: FloatReader)
      returns (e: Elements)
    requires WellFormed(value) && Meaning(value, read) == Some(item) && IsBlank(after)
    requires next.Element? && ElementsFormed(next) && ElementsMean(next, read) == Some(more)
    ensures e.Element? && e.before == "" && ElementsFormed(e) && ElementsMean(e, read) == Some([item] + more)
    ensures e == Element("", value, after, next)
    ensures SpellElements(e) == "" + (Spell(value) + (after + ("," + SpellElements(next))))
  {
    e := Element("", value, after, next);
  }

  lemma {:induction false} ElementIsLast(value: Syntax, item: Json, after: string, read: FloatReader) returns (e: Elements)
    requires WellFormed(value) && Meaning(value, read) == Some(item) && IsBlank(after)
    ensures e.Element? && e.before == "" && ElementsFormed(e) && ElementsMean(e, read) == Some([item])
    ensures e == Element("", value, after, NoElement)
    ensures SpellElements(e) == "" + (Spell(value) + (after + ""))
  {
    e := Element("", value, after, NoElement);
    assert [item] + [] == [item];
  }

  /** The elements up to the closing bracket; spaces before the first were skipped. */
  lemma {:induction false} ItemsAreDenoted(s: string, done: seq<Json>, read: FloatReader) returns (e: Elements, items: seq<Json>)
    requires ParseItems(s, done, read).Parsed?
    ensures e.Element? && e.before == "" && ElementsFormed(e) && s == SpellElements(e) + "]" + ParseItems(s, done, read).rest
    ensures ElementsMean(e, read) == Some(items) && ParseItems(s, done, read).value == JArray(done + items)
    decreases |s|, 2
  {
    var item, rest, u := AfterOneItem(s, done, read);
    var value := ValueIsDenoted(s, read);
    var after := SpacesSkipped(rest);
    var end := ParseItems(s, done, read).rest;
    if u[0] == ',' {
      var before := SpacesSkipped(u[1..]);
      var next, more := ItemsAreDenoted(SkipSpace(u[1..]), done + [item], read);
      var shifted := ShiftElements(next, before, read);
      e := ElementGoesBefore(value, item, after, shifted, more, read);
      items := [item] + more;
      JoinText(s, Spell(value), rest, after, u, before, SkipSpace(u[1..]), SpellElements(next), "]", end);
      Regroup(done, [item], more);
    } else {
      e := ElementIsLast(value, item, after, read);
      items := [item];
      CloseText(s, Spell(value), rest, after, u, "]");
    }
  }

  lemma {:induction false} ShiftFields(f: Fields, before: string, read: FloatReader) returns (shifted: Fields)
    requires f.Field? && f.before == "" && FieldsFormed(f) && IsBlank(before)
    ensures shifted.Field? && FieldsFormed(shifted) && SpellFields(shifted) == before + SpellFields(f)
    ensures FieldsMean(shifted, read) == FieldsMean(f, read)
  {
    shifted := Field(before, f.key, f.middle, f.between, f.value, f.after, f.rest);
    ShiftedSpelling(f, before);
    assert FieldsMean(shifted, read) == FieldsMean(f, read);
  }

  lemma {:induction false} ShiftedSpelling(f: Fields, before: string)
    requires f.Field? && f.before == ""
    ensures SpellFields(Field(before, f.key, f.middle, f.between, f.value, f.after, f.rest)) == before + SpellFields(f)
  {
  }

  lemma {:induction false} ObjectIsDenoted(s: string, read: FloatReader) returns (t: Syntax)
    requires s != "" && s[0] == '{' && ParseValue(s, read).Parsed?
    ensures WellFormed(t) && s == Spell(t) + ParseValue(s, read).rest
    ensures Meaning(t, read) == Some(ParseValue(s, read).value)
    decreases |s|, 0
  {
    var space := SpacesSkipped(s[1..]);
    var u := SkipSpace(s[1..]);
    assert s == "{" + (space + u);
    ObjectOpens(s, read);
    if u != "" && u[0] == '}' {
      t := EmptyObjectOf(space, s, u, read);
    } else {
      var f, members := MembersAreDenoted(u, map[], read);
      t := ObjectOf(space, f, members, s, u, ParseMembers(u, map[], read).rest, read);
      NothingBefore(members);
    }
  }

  lemma {:induction false} NothingBefore(members: map<string, Json>)
    ensures map[] + members == members
  {
  }

  lemma {:induction false} EmptyObjectOf(space: string, s: string, u: string, read: FloatReader) returns (t: Syntax)
    requires IsBlank(space) && s == "{" + (space + u) && u != "" && u[0] == '}'
    ensures WellFormed(t) && s == Spell(t) + u[1..] && Meaning(t, read) == Some(JObject(map[]))
  {
    t := EmptyObject(space);
    Enclosed("{", space, "", "}", u[1..]);
    assert u == "}" + u[1..];
  }

  lemma {:induction false} ObjectOpens(s: string, read: FloatReader)
    requires s != "" && s[0] == '{'
    ensures var u := SkipSpace(s[1..]);
      ParseValue(s, read) == if u != "" && u[0] == '}' then Parsed(JObject(map[]), u[1..]) else ParseMembers(u, map[], read)
  {
  }

  lemma {:induction false} ObjectOf(space: string, f: Fields, members: map<string, Json>, s: string, u: string,
      end: string, read: FloatReader)
      returns (t: Syntax)
    requires f.Field? && f.before == "" && FieldsFormed(f) && FieldsMean(f, read) == Some(members) && IsBlank(space)
    requires s == "{" + (space + u) && u == SpellFields(f) + "}" + end
    ensures WellFormed(t) && s == Spell(t) + end && Meaning(t, read) == Some(JObject(members))
  {
    var shifted := ShiftFields(f, space, read);
    t := Object(shifted);
    Enclosed("{", space, SpellFields(f), "}", end);
  }

  /** The scanner after one key, and after its value. */
  lemma {:induction false} AfterOneKey(s: string, done: map<string, Json>, read: FloatReader) returns (key: string, t: string, v: string)
    requires ParseMembers(s, done, read).Parsed?
    ensures s != "" && s[0] == '"' && ParseChars(s[1..]).Parsed? && key == ParseChars(s[1..]).value
    ensures t == SkipSpace(ParseChars(s[1..]).rest) && t != "" && t[0] == ':' && v == SkipSpace(t[1..]) && |v| < |s|
    ensures ParseValue(v, read).Parsed?
  {
    key := ParseChars(s[1..]).value;
    t := SkipSpace(ParseChars(s[1..]).rest);
    v := SkipSpace(t[1..]);
  }

  lemma {:induction false} AfterOneMember(s: string, done: map<string, Json>, read: FloatReader, key: string, t: string, v: string)
      returns (item: Json, rest: string, u: string)
    requires ParseMembers(s, done, read).Parsed? && s != "" && s[0] == '"'
    requires ParseChars(s[1..]).Parsed? && key == ParseChars(s[1..]).value
    requires t == SkipSpace(ParseChars(s[1..]).rest) && t != "" && t[0] == ':' && v == SkipSpace(t[1..])
    ensures ParseValue(v, read) == Parsed(item, rest) && u == SkipSpace(rest) && u != "" && (u[0] == ',' || u[0] == '}')
    ensures |u| < |v|
    ensures ParseMembers(s, done, read)
         == if u[0] == ',' then ParseMembers(SkipSpace(u[1..]), done[key := item], read)
            else Parsed(JObject(done[key := item]), u[1..])
  {
    item, rest := ParseValue(v, read).value, ParseValue(v, read).rest;
    u := SkipSpace(rest);
  }

  lemma {:induction false} HeadIsRead(s: string, key: seq<Unit>, middle: string, between: string, value: Syntax,
      afterKey: string, t: string, v: string, rest: string)
    requires s == Quoted(key) + afterKey && afterKey == middle + t && t == ":" + (between + v) && v == Spell(value) + rest
    ensures s == SpellField(key, middle, between, Spell(value)) + rest
  {
  }

  /** One member before others: of a repeated key the later value stays. */
  lemma {:induction false} FieldGoesBefore(key: seq<Unit>, name: string, middle: string, between: string, value: Syntax, item: Json,
      after: string, next: Fields, more: map<string, Json>, read: FloatReader) returns (f: Fields)
    requires AreUnits(key) && UnitsMean(key) == Some(name) && IsBlank(middle) && IsBlank(between)
    requires WellFormed(value) && Meaning(value, read) == Some(item) && IsBlank(after)
    requires next.Field? && FieldsFormed(next) && FieldsMean(next, read) == Some(more)
    ensures f.Field? && f.before == "" && FieldsFormed(f) && FieldsMean(f, read) == Some(map[name := item] + more)
    ensures f == Field("", key, middle, between, value, after, next)
    ensures SpellFields(f) == "" + (SpellField(key, middle, between, Spell(value)) + (after + ("," + SpellFields(next))))
  {
    f := Field("", key, middle, between, value, after, next);
  }

  lemma {:induction false} FieldIsLast(key: seq<Unit>, name: string, middle: string, between: string, value: Syntax, item: Json,
      after: string, read: FloatReader) returns (f: Fields)
    requires AreUnits(key) && UnitsMean(key) == Some(name) && IsBlank(middle) && IsBlank(between)
    requires WellFormed(value) && Meaning(value, read) == Some(item) && IsBlank(after)
    ensures f.Field? && f.before == "" && FieldsFormed(f) && FieldsMean(f, read) == Some(map[name := item])
    ensures f == Field("", key, middle, between, value, after, NoField)
    ensures SpellFields(f) == "" + (SpellField(key, middle, between, Spell(value)) + (after + ""))
  {
    f := Field("", key, middle, between, value, after, NoField);
    assert map[name := item] + map[] == map[name := item];
  }

  /** Key, colon and value of one member. */
  lemma {:induction false} HeadIsDenoted(s: string, done: map<string, Json>, read: FloatReader)
      returns (key: seq<Unit>, name: string, middle: string, between: string, v: string)
    requires ParseMembers(s, done, read).Parsed?
    ensures AreUnits(key) && UnitsMean(key) == Some(name) && IsBlank(middle) && IsBlank(between) && |v| < |s|
    ensures s == Quoted(key) + (middle + (":" + (between + v)))
    ensures ParseValue(v, read).Parsed?
    ensures var item, u := ParseValue(v, read).value, SkipSpace(ParseValue(v, read).rest);
      && u != "" && (u[0] == ',' || u[0] == '}') && |u| < |v|
      && ParseMembers(s, done, read)
         == if u[0] == ',' then ParseMembers(SkipSpace(u[1..]), done[name := item], read)
            else Parsed(JObject(done[name := item]), u[1..])
  {
    var t;
    name, t, v := AfterOneKey(s, done, read);
    var item, rest, u := AfterOneMember(s, done, read, name, t, v);
    key := CharsAreDenoted(s[1..]);
    middle := SpacesSkipped(ParseChars(s[1..]).rest);
    between := SpacesSkipped(t[1..]);
    KeyText(s, SpellUnits(key), ParseChars(s[1..]).rest, middle, t, between, v);
  }

  lemma {:induction false} KeyText(s: string, key: string, afterKey: string, middle: string, t: string, between: string, v: string)
    requires s != "" && s[0] == '"' && s[1..] == key + "\"" + afterKey
    requires afterKey == middle + t && t != "" && t[0] == ':' && t[1..] == between + v
    ensures s == ("\"" + key + "\"") + (middle + (":" + (between + v)))
  {
    assert s == "\"" + s[1..] && t == ":" + t[1..];
  }

  lemma {:induction false} ValueGoesOn(s: string, key: string, middle: string, between: string, v: string, text: string, rest: string)
    requires s == key + (middle + (":" + (between + v))) && v == text + rest
    ensures s == (key + (middle + (":" + (between + text)))) + rest
  {
  }

  lemma {:induction false} MembersAreDenoted(s: string, done: map<string, Json>, read: FloatReader)
      returns (f: Fields, members: map<string, Json>)
    requires ParseMembers(s, done, read).Parsed?
    ensures f.Field? && f.before == "" && FieldsFormed(f) && s == SpellFields(f) + "}" + ParseMembers(s, done, read).rest
    ensures FieldsMean(f, read) == Some(members) && ParseMembers(s, done, read).value == JObject(done + members)
    decreases |s|, 2
  {
    var key, name, middle, between, v := HeadIsDenoted(s, done, read);
    var value := ValueIsDenoted(v, read);
    var item, rest := ParseValue(v, read).value, ParseValue(v, read).rest;
    var after := SpacesSkipped(rest);
    var u := SkipSpace(rest);
    var head := SpellField(key, middle, between, Spell(value));
    ValueGoesOn(s, Quoted(key), middle, between, v, Spell(value), rest);
    if u[0] == ',' {
      var before := SpacesSkipped(u[1..]);
      var w := SkipSpace(u[1..]);
      var next, more := MembersAreDenoted(w, done[name := item], read);
      var shifted := ShiftFields(next, before, read);
      f := FieldGoesBefore(key, name, middle, between, value, item, after, shifted, more, read);
      members := map[name := item] + more;
      JoinText(s, head, rest, after, u, before, w, SpellFields(next), "}", ParseMembers(s, done, read).rest);
      LaterWins(done, name, item, more);
    } else {
      f := FieldIsLast(key, name, middle, between, value, item, after, read);
      members := map[name := item];
      CloseText(s, head, rest, after, u, "}");
      LaterWins(done, name, item, map[]);
    }
  }

  lemma {:induction false} LaterWins(done: map<string, Json>, name: string, item: Json, more: map<string, Json>)
    ensures done + (map[name := item] + more) == done[name := item] + more
    ensures done + map[name := item] == done[name := item]
    ensures map[name := item] + map[] == map[name := item]
  {
  }

  // ---- Values: what is denoted is read ----

  lemma {:induction false} BlankEnds(c: char)
    ensures c in {',', ']', '}', ':', '"', '{', '['} ==> !IsSpace(c)
    ensures IsSpace(c) ==> Stops([c])
  {
  }

  /** A value starts with no space and no closing bracket. */
  lemma {:induction false} SpelledHead(t: Syntax)
    requires WellFormed(t)
    ensures Spell(t) != "" && !IsSpace(Spell(t)[0]) && Spell(t)[0] != ']' && Spell(t)[0] != '}'
    ensures t.Number? ==> Spell(t)[0] == '-' || IsDigit(Spell(t)[0])
  {
  }

  /** What follows a value and its spaces cannot go on with a number. */
  lemma {:induction false} SpacesStop(space: string, rest: string)
    requires IsBlank(space) && rest != "" && rest[0] in {',', ']', '}'}
    ensures Stops(space + rest) && SkipSpace(space + rest) == rest
  {
    BlankEnds(rest[0]);
    BlankIsSkipped(space, rest);
  }

  /** Every text of the grammar is read as what it denotes. */
  lemma {:induction false} SpelledIsRead(t: Syntax, rest: string, read: FloatReader)
    requires WellFormed(t) && Meaning(t, read).Some? && Stops(rest)
    ensures ParseValue(Spell(t) + rest, read) == Parsed(Meaning(t, read).value, rest)
    decreases t, 2
  {
    match t {
      case Number(_, _, _, _) =>
        NumberIsRead(t, rest, read);
        SpelledHead(t);
        NumberOpens(Spell(t) + rest, read);
      case Text(units) =>
        UnitsAreRead(units, rest);
        TextOpens(SpellUnits(units), rest, read);
      case Array(_) => ArrayIsRead(t, rest, read);
      case EmptyArray(space) => EmptyArrayIsRead(space, rest, read);
      case Object(_) => ObjectIsRead(t, rest, read);
      case EmptyObject(space) => EmptyObjectIsRead(space, rest, read);
      case _ => WordIsRead(t, rest, read);
    }
  }

  lemma {:induction false} NumberOpens(s: string, read: FloatReader)
    requires s != "" && (s[0] == '-' || IsDigit(s[0]))
    ensures ParseValue(s, read) == ParseNumber(s, read)
  {
  }

  lemma {:induction false} TextOpens(units: string, rest: string, read: FloatReader)
    requires ParseChars(units + "\"" + rest).Parsed?
    ensures ParseValue("\"" + units + "\"" + rest, read)
         == Parsed(JString(ParseChars(units + "\"" + rest).value), ParseChars(units + "\"" + rest).rest)
  {
    assert "\"" + units + "\"" + rest == "\"" + (units + "\"" + rest);
  }

  lemma {:induction false} WordIsRead(t: Syntax, rest: string, read: FloatReader)
    requires t.NullWord? || t.TrueWord? || t.FalseWord?
    ensures ParseValue(Spell(t) + rest, read) == Parsed(Meaning(t, read).value, rest)
  {
    var s := Spell(t) + rest;
    assert Spell(t) <= s && s[|Spell(t)|..] == rest;
  }

  lemma {:induction false} ArrayOpens(s: string, read: FloatReader)
    requires s != "" && s[0] == '['
    ensures var u := SkipSpace(s[1..]);
      ParseValue(s, read) == if u != "" && u[0] == ']' then Parsed(JArray([]), u[1..]) else ParseItems(u, [], read)
  {
  }

  lemma {:induction false} EmptyArrayIsRead(space: string, rest: string, read: FloatReader)
    requires IsBlank(space)
    ensures ParseValue(Spell(EmptyArray(space)) + rest, read) == Parsed(JArray([]), rest)
  {
    var s := Spell(EmptyArray(space)) + rest;
    assert s[1..] == space + ("]" + rest);
    BlankIsSkipped(space, "]" + rest);
    ArrayOpens(s, read);
  }

  lemma {:induction false} EmptyObjectIsRead(space: string, rest: string, read: FloatReader)
    requires IsBlank(space)
    ensures ParseValue(Spell(EmptyObject(space)) + rest, read) == Parsed(JObject(map[]), rest)
  {
    var s := Spell(EmptyObject(space)) + rest;
    assert s[1..] == space + ("}" + rest);
    BlankIsSkipped(space, "}" + rest);
    ObjectOpens(s, read);
  }

  /** The elements without the spaces before the first. */
  function ElementsBody(e: Elements): string
    requires e.Element?
  {
    Spell(e.value) + (e.after + (if e.rest.NoElement? then "" else "," + SpellElements(e.rest)))
  }

  lemma {:induction false} ArrayIsRead(t: Syntax, rest: string, read: FloatReader)
    requires t.Array? && WellFormed(t) && Meaning(t, read).Some?
    ensures ParseValue(Spell(t) + rest, read) == Parsed(Meaning(t, read).value, rest)
    decreases t, 1
  {
    var e := t.elements;
    var s, body := Spell(t) + rest, ElementsBody(e) + "]" + rest;
    AfterOpening("[", e.before, ElementsBody(e), "]", rest);
    SpelledHead(e.value);
    assert body[0] == Spell(e.value)[0];
    BlankIsSkipped(e.before, body);
    ArrayOpens(s, read);
    ElementsAreRead(e, [], rest, read);
    assert [] + ElementsMean(e, read).value == ElementsMean(e, read).value;
  }

  lemma {:induction false} AfterOpening(open: string, before: string, body: string, close: string, rest: string)
    requires |open| == 1
    ensures (open + (before + body) + close + rest)[1..] == before + (body + close + rest)
  {
    assert open + (before + body) + close + rest == open + (before + (body + close + rest));
  }

  /** What stands after an element and its spaces. */
  function AfterElement(e: Elements, rest: string): string
    requires e.Element?
  {
    if e.rest.NoElement? then "]" + rest else "," + (e.rest.before + (ElementsBody(e.rest) + "]" + rest))
  }

  lemma {:induction false} ElementsMeanStep(e: Elements, read: FloatReader) returns (item: Json, more: seq<Json>)
    requires e.Element? && ElementsFormed(e) && ElementsMean(e, read).Some?
    ensures IsBlank(e.after) && WellFormed(e.value) && Meaning(e.value, read) == Some(item) && ElementsFormed(e.rest)
    ensures ElementsMean(e.rest, read) == Some(more) && ElementsMean(e, read) == Some([item] + more)
    ensures e.rest.NoElement? ==> more == []
  {
    item, more := Meaning(e.value, read).value, ElementsMean(e.rest, read).value;
  }

  lemma {:induction false} ElementsAreRead(e: Elements, done: seq<Json>, rest: string, read: FloatReader)
    requires e.Element? && ElementsFormed(e) && ElementsMean(e, read).Some?
    ensures ParseItems(ElementsBody(e) + "]" + rest, done, read) == Parsed(JArray(done + ElementsMean(e, read).value), rest)
    decreases e, 0
  {
    var item, more := ElementsMeanStep(e, read);
    var tail := AfterElement(e, rest);
    SpacesStop(e.after, tail);
    SpelledIsRead(e.value, e.after + tail, read);
    Regroup(done, [item], more);
    if e.rest.NoElement? {
      LastElementIsRead(e, item, done, rest, read);
      assert done + [item] + [] == done + [item];
    } else {
      FirstElementIsRead(e, item, done, rest, read);
      ElementsAreRead(e.rest, done + [item], rest, read);
    }
  }

  lemma {:induction false} LastElementIsRead(e: Elements, item: Json, done: seq<Json>, rest: string, read: FloatReader)
    requires e.Element? && e.rest.NoElement? && SkipSpace(e.after + ("]" + rest)) == "]" + rest
    requires ParseValue(Spell(e.value) + (e.after + ("]" + rest)), read) == Parsed(item, e.after + ("]" + rest))
    ensures ParseItems(ElementsBody(e) + "]" + rest, done, read) == Parsed(JArray(done + [item]), rest)
  {
    var s, u := ElementsBody(e) + "]" + rest, "]" + rest;
    LastText(s, Spell(e.value), e.after, "]", rest);
    ItemsEnd(s, item, e.after + u, u, done, read);
    assert u[1..] == rest;
  }

  lemma {:induction false} FirstElementIsRead(e: Elements, item: Json, done: seq<Json>, rest: string, read: FloatReader)
    requires e.Element? && e.rest.Element? && IsBlank(e.rest.before) && WellFormed(e.rest.value)
    requires var tail := "," + (e.rest.before + (ElementsBody(e.rest) + "]" + rest));
      SkipSpace(e.after + tail) == tail && ParseValue(Spell(e.value) + (e.after + tail), read) == Parsed(item, e.after + tail)
    ensures ParseItems(ElementsBody(e) + "]" + rest, done, read) == ParseItems(ElementsBody(e.rest) + "]" + rest, done + [item], read)
  {
    var s, body := ElementsBody(e) + "]" + rest, ElementsBody(e.rest) + "]" + rest;
    var u := "," + (e.rest.before + body);
    NextText(s, Spell(e.value), e.after, e.rest.before, ElementsBody(e.rest), "]", rest);
    SpelledHead(e.rest.value);
    assert body[0] == Spell(e.rest.value)[0] && u[1..] == e.rest.before + body;
    BlankIsSkipped(e.rest.before, body);
    ItemsGoOn(s, item, e.after + u, u, body, done, read);
  }

  lemma {:induction false} LastText(s: string, value: string, after: string, close: string, rest: string)
    requires s == (value + (after + "")) + close + rest
    ensures s == value + (after + (close + rest))
  {
  }

  lemma {:induction false} NextText(s: string, value: string, after: string, before: string, next: string, close: string, rest: string)
    requires s == (value + (after + ("," + (before + next)))) + close + rest
    ensures s == value + (after + ("," + (before + (next + close + rest))))
  {
  }

  lemma {:induction false} ItemsEnd(s: string, item: Json, after: string, u: string, done: seq<Json>, read: FloatReader)
    requires ParseValue(s, read) == Parsed(item, after) && SkipSpace(after) == u && u != "" && u[0] == ']'
    ensures ParseItems(s, done, read) == Parsed(JArray(done + [item]), u[1..])
  {
  }

  lemma {:induction false} ItemsGoOn(s: string, item: Json, after: string, u: string, body: string, done: seq<Json>, read: FloatReader)
    requires ParseValue(s, read) == Parsed(item, after) && SkipSpace(after) == u && u != "" && u[0] == ','
    requires SkipSpace(u[1..]) == body
    ensures ParseItems(s, done, read) == ParseItems(body, done + [item], read)
  {
  }

  /** The members without the spaces before the first. */
  function FieldsBody(f: Fields): string
    requires f.Field?
  {
    SpellField(f.key, f.middle, f.between, Spell(f.value))
    + (f.after + (if f.rest.NoField? then "" else "," + SpellFields(f.rest)))
  }

  lemma {:induction false} ObjectIsRead(t: Syntax, rest: string, read: FloatReader)
    requires t.Object? && WellFormed(t) && Meaning(t, read).Some?
    ensures ParseValue(Spell(t) + rest, read) == Parsed(Meaning(t, read).value, rest)
    decreases t, 1
  {
    var f := t.fields;
    var s, body := Spell(t) + rest, FieldsBody(f) + "}" + rest;
    AfterOpening("{", f.before, FieldsBody(f), "}", rest);
    assert body[0] == '"';
    BlankIsSkipped(f.before, body);
    ObjectOpens(s, read);
    FieldsAreRead(f, map[], rest, read);
    NothingBefore(FieldsMean(f, read).value);
  }

  function AfterField(f: Fields, rest: string): string
    requires f.Field?
  {
    if f.rest.NoField? then "}" + rest else "," + (f.rest.before + (FieldsBody(f.rest) + "}" + rest))
  }

  lemma {:induction false} FieldsMeanStep(f: Fields, read: FloatReader) returns (name: string, item: Json, more: map<string, Json>)
    requires f.Field? && FieldsFormed(f) && FieldsMean(f, read).Some?
    ensures AreUnits(f.key) && UnitsMean(f.key) == Some(name)
    ensures IsBlank(f.after) && WellFormed(f.value) && Meaning(f.value, read) == Some(item) && FieldsFormed(f.rest)
    ensures FieldsMean(f.rest, read) == Some(more) && FieldsMean(f, read) == Some(map[name := item] + more)
    ensures f.rest.NoField? ==> more == map[]
  {
    name, item, more := UnitsMean(f.key).value, Meaning(f.value, read).value, FieldsMean(f.rest, read).value;
  }

  lemma {:induction false} FieldsAreRead(f: Fields, done: map<string, Json>, rest: string, read: FloatReader)
    requires f.Field? && FieldsFormed(f) && FieldsMean(f, read).Some?
    ensures ParseMembers(FieldsBody(f) + "}" + rest, done, read) == Parsed(JObject(done + FieldsMean(f, read).value), rest)
    decreases f, 0
  {
    var name, item, more := FieldsMeanStep(f, read);
    var tail := AfterField(f, rest);
    SpacesStop(f.after, tail);
    SpelledIsRead(f.value, f.after + tail, read);
    LaterWins(done, name, item, more);
    if f.rest.NoField? {
      LastFieldIsRead(f, item, done, rest, read);
    } else {
      FirstFieldIsRead(f, item, done, rest, read);
      FieldsAreRead(f.rest, done[name := item], rest, read);
    }
  }

  lemma {:induction false} LastFieldIsRead(f: Fields, item: Json, done: map<string, Json>, rest: string, read: FloatReader)
    requires f.Field? && f.rest.NoField? && FieldsFormed(f) && UnitsMean(f.key).Some?
    requires SkipSpace(f.after + ("}" + rest)) == "}" + rest
    requires ParseValue(Spell(f.value) + (f.after + ("}" + rest)), read) == Parsed(item, f.after + ("}" + rest))
    ensures ParseMembers(FieldsBody(f) + "}" + rest, done, read) == Parsed(JObject(done[UnitsMean(f.key).value := item]), rest)
  {
    var s, u := FieldsBody(f) + "}" + rest, "}" + rest;
    LastText(s, SpellField(f.key, f.middle, f.between, Spell(f.value)), f.after, "}", rest);
    HeadIsScanned(s, f, f.after + u, read);
    MembersEnd(s, UnitsMean(f.key).value, Spell(f.value) + (f.after + u), item, f.after + u, u, done, read);
    assert u[1..] == rest;
  }

  lemma {:induction false} FirstFieldIsRead(f: Fields, item: Json, done: map<string, Json>, rest: string, read: FloatReader)
    requires f.Field? && f.rest.Field? && FieldsFormed(f) && UnitsMean(f.key).Some?
    requires var tail := "," + (f.rest.before + (FieldsBody(f.rest) + "}" + rest));
      SkipSpace(f.after + tail) == tail && ParseValue(Spell(f.value) + (f.after + tail), read) == Parsed(item, f.after + tail)
    ensures ParseMembers(FieldsBody(f) + "}" + rest, done, read)
         == ParseMembers(FieldsBody(f.rest) + "}" + rest, done[UnitsMean(f.key).value := item], read)
  {
    var s, body := FieldsBody(f) + "}" + rest, FieldsBody(f.rest) + "}" + rest;
    var u := "," + (f.rest.before + body);
    NextText(s, SpellField(f.key, f.middle, f.between, Spell(f.value)), f.after, f.rest.before, FieldsBody(f.rest), "}", rest);
    HeadIsScanned(s, f, f.after + u, read);
    assert body[0] == '"' && u[1..] == f.rest.before + body;
    BlankIsSkipped(f.rest.before, body);
    MembersGoOn(s, UnitsMean(f.key).value, Spell(f.value) + (f.after + u), item, f.after + u, u, body, done, read);
  }

  /** Key and colon are behind: the scanner stands at the value `v`. */
  predicate AtValue(s: string, name: string, v: string) {
    && s != "" && s[0] == '"' && ParseChars(s[1..]).Parsed? && ParseChars(s[1..]).value == name
    && var t := SkipSpace(ParseChars(s[1..]).rest); t != "" && t[0] == ':' && SkipSpace(t[1..]) == v
  }

  lemma {:induction false} HeadIsScanned(s: string, f: Fields, tail: string, read: FloatReader)
    requires f.Field? && FieldsFormed(f) && UnitsMean(f.key).Some?
    requires s == SpellField(f.key, f.middle, f.between, Spell(f.value)) + tail
    ensures AtValue(s, UnitsMean(f.key).value, Spell(f.value) + tail)
  {
    var v := Spell(f.value) + tail;
    var t := ":" + (f.between + v);
    KeyIsFirst(s, SpellUnits(f.key), f.middle, f.between, Spell(f.value), tail);
    UnitsAreRead(f.key, f.middle + t);
    BlankEnds(':');
    BlankIsSkipped(f.middle, t);
    SpelledHead(f.value);
    assert v[0] == Spell(f.value)[0] && t[1..] == f.between + v;
    BlankIsSkipped(f.between, v);
  }

  lemma {:induction false} KeyIsFirst(s: string, key: string, middle: string, between: string, value: string, tail: string)
    requires s == "\"" + key + "\"" + (middle + (":" + (between + value))) + tail
    ensures s != "" && s[0] == '"' && s[1..] == key + "\"" + (middle + (":" + (between + (value + tail))))
  {
    assert s == "\"" + (key + "\"" + (middle + (":" + (between + (value + tail)))));
  }

  lemma {:induction false} MembersEnd(s: string, name: string, v: string, item: Json, after: string, u: string,
      done: map<string, Json>, read: FloatReader)
    requires AtValue(s, name, v) && ParseValue(v, read) == Parsed(item, after) && SkipSpace(after) == u && u != "" && u[0] == '}'
    ensures ParseMembers(s, done, read) == Parsed(JObject(done[name := item]), u[1..])
  {
  }

  lemma {:induction false} MembersGoOn(s: string, name: string, v: string, item: Json, after: string, u: string, body: string,
      done: map<string, Json>, read: FloatReader)
    requires AtValue(s, name, v) && ParseValue(v, read) == Parsed(item, after) && SkipSpace(after) == u && u != "" && u[0] == ','
    requires SkipSpace(u[1..]) == body
    ensures ParseMembers(s, done, read) == ParseMembers(body, done[name := item], read)
  {
  }

  // ---- The scanner ----

  /** What the scanner yields is what the text that it consumed denotes. */
  lemma {:induction false} ConsumedIsDenoted(s: string, read: FloatReader)
    requires ParseValue(s, read).Parsed?
    ensures var rest := ParseValue(s, read).rest;
      rest <= s[|s| - |rest|..] && Denotes(s[..|s| - |rest|], ParseValue(s, read).value, read)
  {
    var t := ValueIsDenoted(s, read);
    assert s[..|s| - |ParseValue(s, read).rest|] == Spell(t);
  }

  /** `json.loads` accepts exactly the JSON texts and gives the value that they denote: a
      text denotes one value at most. */
  lemma {:induction false} LoadsExactly(s: string, v: Json, read: FloatReader)
    ensures Loads(s, read) == Some(v) <==> IsTextOf(s, v, read)
  {
    if Loads(s, read) == Some(v) { LoadedIsText(s, v, read); }
    if IsTextOf(s, v, read) {
      var i, j :| 0 <= i <= j <= |s| && IsBlank(s[..i]) && Denotes(s[i..j], v, read) && IsBlank(s[j..]);
      TextIsLoaded(s, v, i, j, read);
    }
  }

  lemma {:induction false} LoadedIsText(s: string, v: Json, read: FloatReader)
    requires Loads(s, read) == Some(v)
    ensures IsTextOf(s, v, read)
  {
    var before := SpacesSkipped(s);
    var t := ValueIsDenoted(SkipSpace(s), read);
    var rest := ParseValue(SkipSpace(s), read).rest;
    var after := SpacesSkipped(rest);
    var i, j := |before|, |before| + |Spell(t)|;
    assert s == before + (Spell(t) + rest);
    assert s[..i] == before && s[i..j] == Spell(t) && s[j..] == rest && rest == after;
  }

  lemma {:induction false} TextIsLoaded(s: string, v: Json, i: nat, j: nat, read: FloatReader)
    requires i <= j <= |s| && IsBlank(s[..i]) && Denotes(s[i..j], v, read) && IsBlank(s[j..])
    ensures Loads(s, read) == Some(v)
  {
    var t: Syntax :| WellFormed(t) && Spell(t) == s[i..j] && Meaning(t, read) == Some(v);
    ThreeParts(s, i, j);
    SyntaxIsLoaded(s[..i], t, s[j..], v, read);
  }

  lemma {:induction false} ThreeParts(s: string, i: nat, j: nat)
    requires i <= j <= |s|
    ensures s == s[..i] + (s[i..j] + s[j..])
  {
  }

  lemma {:induction false} SyntaxIsLoaded(before: string, t: Syntax, after: string, v: Json, read: FloatReader)
    requires IsBlank(before) && WellFormed(t) && Meaning(t, read) == Some(v) && IsBlank(after)
    ensures Loads(before + (Spell(t) + after), read) == Some(v)
  {
    SpelledHead(t);
    HeadOf(Spell(t), after);
    BlankIsSkipped(before, Spell(t) + after);
    BlankStops(after);
    SpelledIsRead(t, after, read);
  }

  lemma {:induction false} HeadOf(a: string, b: string)
    requires a != ""
    ensures (a + b)[0] == a[0]
  {
  }

  lemma {:induction false} BlankStops(space: string)
    requires IsBlank(space)
    ensures Stops(space) && SkipSpace(space) == ""
  {
    BlankIsSkipped(space, "");
    assert space + "" == space;
  }
}
