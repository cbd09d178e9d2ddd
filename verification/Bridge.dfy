/** Whole-material conversion to binary64 and the proof that no row was dropped or
    changed (`polygon_completed_daily_production_bridge.py`). */
module Bridge {
  import opened Basics
  import opened JsonText
  import opened CalendarDates
  import F = Binary64

  type Double = F.Double

  /** The exact value of a source text that is its own canonical numeric text. */
  type Reader = string -> Option<real>

  datatype Field = Open | High | Low | Close | Volume

  const FIELDS: seq<Field> := [Open, High, Low, Close, Volume]

  // ---- One number ----

  function FloatOf(x: real): Double
    requires x == 0.0 || F.InRange(x)
  {
    if x == 0.0 then F.POSITIVE_ZERO else F.Encode(x)
  }

  function ConvertNumeric(exact: Reader, source: string, field: Field): Option<Double> {
    match exact(source)
    case None => None
    case Some(x) =>
      if x != 0.0 && !F.InRange(x) then None
      else
        var result := FloatOf(x);
        if x != 0.0 && (result.field == 0 || result.negative != (x < 0.0)) then None
        else if x == 0.0 && field != Volume then None
        else Some(result)
  }

  /** What is accepted, and as what: a zero volume as positive zero, and every text in
      the normal range as its correctly rounded value. The last rejection never fires. */
  lemma {:induction false} ConvertsExactly(exact: Reader, source: string, field: Field)
    ensures ConvertNumeric(exact, source, field).Some?
      <==> exact(source).Some? && ((exact(source).value == 0.0 && field == Volume) || F.InRange(exact(source).value))
    ensures ConvertNumeric(exact, source, field).Some? ==>
        ConvertNumeric(exact, source, field).value
          == if exact(source).value == 0.0 then F.POSITIVE_ZERO else F.Encode(exact(source).value)
  {
    F.ScaleSign(1.0, F.MIN_EXPONENT);
    if exact(source).Some? && F.InRange(exact(source).value) {
      F.RangeCheckSuffices(exact(source).value);
    }
  }

  /** Every text whose exact value is that of a positive normal encoding converts to that
      encoding, in all five fields. */
  lemma {:induction false} EveryDoubleConverts(exact: Reader, source: string, field: Field, d: Double)
    requires !d.negative && 1 <= d.field <= 2046 && d.fraction < 0x10_0000_0000_0000 && exact(source) == Some(d.Value())
    ensures ConvertNumeric(exact, source, field) == Some(d)
  {
    F.EveryNormalIsExact(d);
    F.RelativeError(d.Value());
    ConvertsExactly(exact, source, field);
  }

  /** A text converts to something nonzero exactly when its value lies between the least
      normal and the greatest finite value, and to zero exactly when it is a zero volume. */
  lemma {:induction false} AcceptsExactly(exact: Reader, source: string, field: Field)
    ensures ConvertNumeric(exact, source, field).Some? && ConvertNumeric(exact, source, field).value.field != 0 <==>
      && exact(source).Some?
      && F.Double(false, 1, 0).Value() <= exact(source).value <= F.Double(false, 2046, 0xF_FFFF_FFFF_FFFF).Value()
    ensures ConvertNumeric(exact, source, field).Some? && ConvertNumeric(exact, source, field).value.field == 0 <==>
      exact(source) == Some(0.0) && field == Volume
    ensures ConvertNumeric(exact, source, field).Some? && ConvertNumeric(exact, source, field).value.field == 0 ==>
      ConvertNumeric(exact, source, field).value == F.Double(false, 0, 0)
  {
    ConvertsExactly(exact, source, field);
    if exact(source).Some? {
      F.RangeExactly(exact(source).value);
      if F.InRange(exact(source).value) {
        F.RangeCheckSuffices(exact(source).value);
        F.ScaleSign(1.0, F.MIN_EXPONENT);
      }
    }
  }

  predicate IsZero(d: Double) {
    d.field == 0 && d.fraction == 0
  }

  /** A converted number is finite, and when it is zero it is positive zero. */
  lemma {:induction false} ConvertedIsFinite(exact: Reader, source: string, field: Field)
    requires ConvertNumeric(exact, source, field).Some?
    ensures ConvertNumeric(exact, source, field).value.Finite()
    ensures IsZero(ConvertNumeric(exact, source, field).value)
        ==> ConvertNumeric(exact, source, field).value == F.POSITIVE_ZERO
  {
    ConvertsExactly(exact, source, field);
    if exact(source).value != 0.0 { F.RangeCheckSuffices(exact(source).value); }
  }

  /** Source order survives, so a low never ends above its high. */
  lemma {:induction false} ConversionKeepsOrder(exact: Reader, low: string, high: string, f: Field, g: Field)
    requires ConvertNumeric(exact, low, f).Some? && ConvertNumeric(exact, high, g).Some?
    requires exact(low).value <= exact(high).value
    ensures ConvertNumeric(exact, low, f).value.AtMost(ConvertNumeric(exact, high, g).value)
    ensures ConvertNumeric(exact, low, f).value.Value() <= ConvertNumeric(exact, high, g).value.Value()
  {
    ConvertsExactly(exact, low, f);
    ConvertsExactly(exact, high, g);
    F.ScaleSign(1.0, F.MIN_EXPONENT);
    var x, y := exact(low).value, exact(high).value;
    if y != 0.0 {
      F.RangeCheckSuffices(y);
      if x == 0.0 {
        F.OrderMatchesValue(F.POSITIVE_ZERO, F.Encode(y));
      } else {
        F.RangeCheckSuffices(x);
        F.EncodeIsMonotone(x, y);
        F.OrderMatchesValue(F.Encode(x), F.Encode(y));
      }
    }
  }

  // ---- One date ----

  const NANOSECONDS_PER_DAY := 86_400_000_000_000
  const EPOCH_DAY := 719163                    // 1970-01-01

  /** Nanoseconds since the epoch at midnight UTC. */
  function Midnight(d: Date): int {
    (Ordinal(d) - EPOCH_DAY) * NANOSECONDS_PER_DAY
  }

  function SessionTimestamp(day: string): Option<int> {
    var parsed := ParseIso(day);
    if parsed.None? || !StrLeq("1677-09-22", day) || !StrLeq(day, "2262-04-11") then None
    else Some(Midnight(parsed.value))
  }

  lemma {:induction false} FirstDay()
    ensures Valid(Date(1677, 9, 22)) && IsoText(Date(1677, 9, 22)) == "1677-09-22"
    ensures Ordinal(Date(1677, 9, 22)) == 612412
  {
    FirstDayText();
    FirstDayCount();
  }

  lemma {:induction false} FirstDayText()
    ensures IsoText(Date(1677, 9, 22)) == "1677-09-22"
  {
    assert Pad(1677, 4) == "1677";
    assert Pad(9, 2) == "09";
    assert Pad(22, 2) == "22";
  }

  lemma {:induction false} FirstDayCount()
    ensures DaysBeforeMonth(1677, 9) == 243
  {
    assert DaysBeforeMonth(1677, 5) == 120;
  }

  lemma {:induction false} LastDay()
    ensures Valid(Date(2262, 4, 11)) && IsoText(Date(2262, 4, 11)) == "2262-04-11"
    ensures Ordinal(Date(2262, 4, 11)) == 825914
  {
    LastDayText();
    LastDayCount();
  }

  lemma {:induction false} LastDayText()
    ensures IsoText(Date(2262, 4, 11)) == "2262-04-11"
  {
    assert Pad(2262, 4) == "2262";
    assert Pad(4, 2) == "04";
    assert Pad(11, 2) == "11";
  }

  lemma {:induction false} LastDayCount()
    ensures DaysBeforeMonth(2262, 4) == 90
  {
  }

  /** The approved range is exactly the dates whose midnight a 64-bit count of
      nanoseconds can hold (its least value is taken by the missing-value marker). */
  lemma {:induction false} DateRangeIsExact(day: string)
    ensures SessionTimestamp(day).Some?
      <==> ParseIso(day).Some? && -0x8000_0000_0000_0000 < Midnight(ParseIso(day).value) < 0x8000_0000_0000_0000
  {
    FirstDay();
    LastDay();
    if ParseIso(day).Some? {
      FormatParses(day);
      TextOrderIsDayOrder(Date(1677, 9, 22), ParseIso(day).value);
      TextOrderIsDayOrder(ParseIso(day).value, Date(2262, 4, 11));
    }
  }

  // ---- The whole material ----

  datatype SourceRow = SourceRow(day: string, values: seq<string>)

  datatype ConvertedRow = ConvertedRow(day: string, timestamp: int, source: seq<string>, values: seq<Double>)

  predicate RowConverts(exact: Reader, row: SourceRow)
    requires |row.values| == 5
  {
    SessionTimestamp(row.day).Some?
    && forall f :: 0 <= f < 5 ==> ConvertNumeric(exact, row.values[f], FIELDS[f]).Some?
  }

  function ConvertRow(exact: Reader, row: SourceRow): ConvertedRow
    requires |row.values| == 5 && RowConverts(exact, row)
  {
    ConvertedRow(row.day, SessionTimestamp(row.day).value, row.values,
      seq(5, f requires 0 <= f < 5 => ConvertNumeric(exact, row.values[f], FIELDS[f]).value))
  }

  predicate WellFormed(rows: seq<SourceRow>) {
    forall i :: 0 <= i < |rows| ==> |rows[i].values| == 5
  }

  /** `_convert_material`: all rows, or nothing. */
  function ConvertMaterial(exact: Reader, rows: seq<SourceRow>): (converted: Option<seq<ConvertedRow>>)
    requires WellFormed(rows)
    ensures converted.Some? <==> forall i :: 0 <= i < |rows| ==> RowConverts(exact, rows[i])
    ensures converted.Some? ==>
      (|converted.value| == |rows| && forall i :: 0 <= i < |rows| ==> converted.value[i] == ConvertRow(exact, rows[i]))
  {
    if rows == [] then Some([])
    else if !RowConverts(exact, rows[0]) then None
    else
      assert forall i :: 1 <= i < |rows| ==> rows[i] == rows[1..][i - 1];
      match ConvertMaterial(exact, rows[1..])
      case None => None
      case Some(rest) => Some([ConvertRow(exact, rows[0])] + rest)
  }

  /** A text that converts: in the range of normal values, or zero where that is allowed. */
  predicate Converts(exact: Reader, source: string, mayBeZero: bool) {
    && exact(source).Some?
    && (F.Double(false, 1, 0).Value() <= exact(source).value <= F.Double(false, 2046, 0xF_FFFF_FFFF_FFFF).Value()
        || (mayBeZero && exact(source).value == 0.0))
  }

  lemma {:induction false} ConvertsField(exact: Reader, source: string, field: Field)
    ensures ConvertNumeric(exact, source, field).Some? <==> Converts(exact, source, field == Volume)
  {
    AcceptsExactly(exact, source, field);
  }

  /** A day from 22 September 1677 to 11 April 2262, by its nanoseconds. */
  predicate DayFits(day: string) {
    && ParseIso(day).Some?
    && -0x8000_0000_0000_0000 < (Ordinal(ParseIso(day).value) - 719163) * 86_400_000_000_000 < 0x8000_0000_0000_0000
  }

  /** Open, high, low, close and volume, in that order; only a volume may be zero. */
  predicate FieldsConvert(exact: Reader, values: seq<string>)
    requires |values| == 5
  {
    && Converts(exact, values[0], false) && Converts(exact, values[1], false)
    && Converts(exact, values[2], false) && Converts(exact, values[3], false)
    && Converts(exact, values[4], true)
  }

  lemma {:induction false} RowConvertsExactly(exact: Reader, row: SourceRow)
    requires |row.values| == 5
    ensures RowConverts(exact, row) <==> DayFits(row.day) && FieldsConvert(exact, row.values)
  {
    DateRangeIsExact(row.day);
    AllFieldsConvert(exact, row.values);
    FieldsInOrder(exact, row.values);
  }

  lemma {:induction false} AllFieldsConvert(exact: Reader, values: seq<string>)
    requires |values| == 5
    ensures (forall f :: 0 <= f < 5 ==> ConvertNumeric(exact, values[f], FIELDS[f]).Some?)
      <==> forall f :: 0 <= f < 5 ==> Converts(exact, values[f], f == 4)
  {
    forall f | 0 <= f < 5
      ensures ConvertNumeric(exact, values[f], FIELDS[f]).Some? <==> Converts(exact, values[f], f == 4)
    {
      ConvertsField(exact, values[f], FIELDS[f]);
    }
  }

  lemma {:induction false} FieldsInOrder(exact: Reader, values: seq<string>)
    requires |values| == 5
    ensures FieldsConvert(exact, values) <==> forall f :: 0 <= f < 5 ==> Converts(exact, values[f], f == 4)
  {
    AllFive((f: nat) => f < 5 && Converts(exact, values[f], f == 4));
  }

  lemma {:induction false} AllFive(accepted: nat -> bool)
    ensures (forall f: nat :: f < 5 ==> accepted(f))
      <==> accepted(0) && accepted(1) && accepted(2) && accepted(3) && accepted(4)
  {
  }

  /** What a converted row holds: the source row, its midnight, and five numbers. */
  lemma {:induction false} ConvertedRowHolds(exact: Reader, row: SourceRow)
    requires |row.values| == 5 && RowConverts(exact, row)
    ensures var c := ConvertRow(exact, row);
      && c.day == row.day && c.source == row.values && |c.values| == 5
      && c.timestamp == (Ordinal(ParseIso(row.day).value) - 719163) * 86_400_000_000_000
      && forall f :: 0 <= f < 5 ==>
           Some(c.values[f]) == ConvertNumeric(exact, row.values[f], if f == 4 then Volume else Open)
  {
    forall f | 0 <= f < 5
      ensures ConvertNumeric(exact, row.values[f], FIELDS[f])
           == ConvertNumeric(exact, row.values[f], if f == 4 then Volume else Open)
    {
      assert ConvertNumeric(exact, row.values[f], FIELDS[f]).Some?;
    }
  }

  // ---- The final target ----

  /** One row as the public iterator gives it and as the owned columns hold it. */
  datatype TargetRow = TargetRow(symbol: string, timestamp: int, utc: bool, values: seq<Double>, provider: string)
  datatype StoredRow = StoredRow(symbol: string, timestamp: int, values: seq<Double>, provider: string)

  datatype Target = Target(rows: seq<TargetRow>, frame: seq<StoredRow>, approvedLayout: bool, sameContext: bool)

  datatype ProofRow = ProofRow(ordinal: nat, day: string, source: seq<string>, timestamp: int,
    expectedBits: seq<Double>, targetBits: seq<Double>)

  /** `_binary64` on a row: fails on infinities and NaN; both zeros read as positive zero. */
  function Bits(values: seq<Double>): Option<seq<Double>> {
    if forall f :: 0 <= f < |values| ==> values[f].Finite() then
      Some(seq(|values|, f requires 0 <= f < |values| => if IsZero(values[f]) then F.POSITIVE_ZERO else values[f]))
    else None
  }

  predicate NegativeZero(d: Double) {
    IsZero(d) && d.negative
  }

  predicate ZerosPositive(values: seq<Double>) {
    forall f :: 0 <= f < |values| ==> !NegativeZero(values[f])
  }

  /** The comparison of one ordinal. */
  predicate RowMatches(symbol: string, source: SourceRow, converted: ConvertedRow, target: TargetRow, stored: StoredRow) {
    && SessionTimestamp(source.day).Some? && Bits(converted.values).Some?
    && var timestamp := SessionTimestamp(source.day).value; var expected := Bits(converted.values);
      && converted.source == source.values && converted.day == source.day && converted.timestamp == timestamp
      && target.symbol == symbol && target.provider == "polygon" && target.utc && target.timestamp == timestamp
      && Bits(target.values) == expected
      && stored.timestamp == timestamp && Bits(stored.values) == expected
      && stored.symbol == target.symbol && stored.provider == target.provider
      && ZerosPositive(target.values) && ZerosPositive(stored.values)
  }

  /** The text of the date that begins at `timestamp`. */
  predicate DayBegins(day: string, timestamp: int) {
    ParseIso(day).Some? && Midnight(ParseIso(day).value) == timestamp
  }

  /** The dates of the final rows, in order, are those that the qualification recorded: equal
      row-date fingerprints, SHA-256 modelled as injective. */
  predicate SameDates(dates: seq<string>, rows: seq<TargetRow>) {
    |dates| == |rows| && forall i :: 0 <= i < |rows| ==> DayBegins(dates[i], rows[i].timestamp)
  }

  /** `_prove`: compares the original rows with the final public rows and storage, one
      ordinal after the other, collecting the proof; `dates` are the recorded row dates. */
  method Prove(symbol: string, original: seq<SourceRow>, expected: seq<ConvertedRow>, target: Target, dates: seq<string>)
    returns (proof: Option<seq<ProofRow>>)
    ensures proof.Some? <==>
        && 0 < |original| == |expected| == |target.rows| == |target.frame|
        && target.approvedLayout && target.sameContext && SameDates(dates, target.rows)
        && forall i :: 0 <= i < |original| ==>
          RowMatches(symbol, original[i], expected[i], target.rows[i], target.frame[i])
    ensures proof.Some? ==> |proof.value| == |original|
    ensures proof.Some? ==> forall i :: 0 <= i < |original| ==>
        && proof.value[i].ordinal == i && proof.value[i].day == original[i].day
        && proof.value[i].source == original[i].values && proof.value[i].timestamp == target.rows[i].timestamp
        && Some(proof.value[i].expectedBits) == Bits(expected[i].values)
        && Some(proof.value[i].targetBits) == Bits(target.rows[i].values)
  {
    if |original| == 0 || |original| != |target.rows| || |original| != |expected| {
      return None;
    }
    if |target.frame| != |original| || !target.approvedLayout || !target.sameContext {
      return None;
    }
    var proofRows: seq<ProofRow> := [];
    for i := 0 to |original|
      invariant |proofRows| == i
      invariant forall j :: 0 <= j < i ==>
        RowMatches(symbol, original[j], expected[j], target.rows[j], target.frame[j])
      invariant forall j :: 0 <= j < i ==>
        && proofRows[j].ordinal == j && proofRows[j].day == original[j].day
        && proofRows[j].source == original[j].values && proofRows[j].timestamp == target.rows[j].timestamp
        && Some(proofRows[j].expectedBits) == Bits(expected[j].values)
        && Some(proofRows[j].targetBits) == Bits(target.rows[j].values)
    {
      if !RowMatches(symbol, original[i], expected[i], target.rows[i], target.frame[i]) {
        return None;
      }
      proofRows := proofRows + [ProofRow(i, original[i].day, original[i].values, target.rows[i].timestamp,
        Bits(expected[i].values).value, Bits(target.rows[i].values).value)];
    }
    if !SameDates(dates, target.rows) {
      return None;
    }
    proof := Some(proofRows);
  }

  // ---- No row dropped, none changed ----

  ghost predicate Proved(symbol: string, original: seq<SourceRow>, expected: seq<ConvertedRow>, target: Target, dates: seq<string>) {
    && 0 < |original| == |expected| == |target.rows| == |target.frame|
    && target.approvedLayout && target.sameContext && SameDates(dates, target.rows)
    && forall i :: 0 <= i < |original| ==>
      RowMatches(symbol, original[i], expected[i], target.rows[i], target.frame[i])
  }

  lemma {:induction false} EqualBits(values: seq<Double>, wanted: seq<Double>)
    requires Bits(values) == Bits(wanted) && Bits(wanted).Some? && ZerosPositive(values) && ZerosPositive(wanted)
    ensures values == wanted
  {
    assert |values| == |Bits(values).value| == |wanted|;
    forall f | 0 <= f < |values| ensures values[f] == wanted[f] {
      assert Bits(values).value[f] == Bits(wanted).value[f];
      assert !NegativeZero(values[f]) && !NegativeZero(wanted[f]);
    }
  }

  lemma {:induction false} ConvertedBits(exact: Reader, row: SourceRow)
    requires |row.values| == 5 && RowConverts(exact, row)
    ensures ZerosPositive(ConvertRow(exact, row).values) && Bits(ConvertRow(exact, row).values) == Some(ConvertRow(exact, row).values)
  {
    var values := ConvertRow(exact, row).values;
    forall f | 0 <= f < 5
      ensures values[f].Finite() && !NegativeZero(values[f]) && (IsZero(values[f]) ==> values[f] == F.POSITIVE_ZERO)
    {
      ConvertedIsFinite(exact, row.values[f], FIELDS[f]);
    }
    assert Bits(values).value == values;
  }

  /** Public row and owned storage both hold the conversion of one source row, bit for bit. */
  predicate HoldsConversion(exact: Reader, symbol: string, source: SourceRow, target: TargetRow, stored: StoredRow)
    requires |source.values| == 5 && RowConverts(exact, source)
  {
    && target == TargetRow(symbol, ConvertRow(exact, source).timestamp, true, ConvertRow(exact, source).values, "polygon")
    && stored == StoredRow(symbol, ConvertRow(exact, source).timestamp, ConvertRow(exact, source).values, "polygon")
  }

  lemma {:induction false} RowMatchesExactly(exact: Reader, symbol: string, source: SourceRow, target: TargetRow, stored: StoredRow)
    requires |source.values| == 5 && RowConverts(exact, source)
    ensures RowMatches(symbol, source, ConvertRow(exact, source), target, stored)
      <==> HoldsConversion(exact, symbol, source, target, stored)
  {
    var converted := ConvertRow(exact, source);
    ConvertedBits(exact, source);
    if RowMatches(symbol, source, converted, target, stored) {
      EqualBits(target.values, converted.values);
      EqualBits(stored.values, converted.values);
    }
  }

  /** `actual` repeats `expected`, number by number; a zero, of either sign, as positive zero. */
  predicate SameNumbers(expected: seq<Double>, actual: seq<Double>) {
    && |expected| == |actual|
    && forall f :: 0 <= f < |expected| ==>
         && expected[f].field != 2047
         && if expected[f].field == 0 && expected[f].fraction == 0 then actual[f] == F.Double(false, 0, 0)
            else actual[f] == expected[f]
  }

  /** Eleven bits of exponent and 52 of fraction. */
  predicate IsEncoding(d: Double) {
    d.field <= 2047 && d.fraction < 0x10_0000_0000_0000
  }

  predicate AreEncodings(values: seq<Double>) {
    forall f :: 0 <= f < |values| ==> IsEncoding(values[f])
  }

  lemma {:induction false} SameBits(expected: seq<Double>, actual: seq<Double>)
    requires AreEncodings(expected) && AreEncodings(actual)
    ensures Bits(expected).Some? && Bits(actual) == Bits(expected) && ZerosPositive(actual) <==> SameNumbers(expected, actual)
  {
    if Bits(expected).Some? && Bits(actual) == Bits(expected) && ZerosPositive(actual) {
      assert |Bits(actual).value| == |Bits(expected).value|;
      forall f | 0 <= f < |expected|
        ensures if IsZero(expected[f]) then actual[f] == F.POSITIVE_ZERO else actual[f] == expected[f]
      {
        assert Bits(actual).value[f] == Bits(expected).value[f] && !NegativeZero(actual[f]);
      }
    }
    if SameNumbers(expected, actual) {
      forall f | 0 <= f < |expected| ensures expected[f].Finite() && actual[f].Finite() {
        assert IsEncoding(expected[f]);
      }
      assert Bits(actual).value == Bits(expected).value;
    }
  }

  /** The comparison of one ordinal, field by field: whatever was altered in the expected
      row, in the target or in the storage is noticed. */
  lemma {:induction false} RowComparedExactly(symbol: string, source: SourceRow, converted: ConvertedRow,
      target: TargetRow, stored: StoredRow)
    requires AreEncodings(converted.values) && AreEncodings(target.values) && AreEncodings(stored.values)
    ensures RowMatches(symbol, source, converted, target, stored) <==>
      && converted.day == source.day && converted.source == source.values
      && DayFits(source.day)
      && converted.timestamp == (Ordinal(ParseIso(source.day).value) - 719163) * 86_400_000_000_000
      && target.timestamp == converted.timestamp && stored.timestamp == converted.timestamp && target.utc
      && target.symbol == symbol && stored.symbol == symbol
      && target.provider == "polygon" && stored.provider == "polygon"
      && SameNumbers(converted.values, target.values) && SameNumbers(converted.values, stored.values)
  {
    DateRangeIsExact(source.day);
    SameBits(converted.values, target.values);
    SameBits(converted.values, stored.values);
  }

  lemma {:induction false} OneDayBegins(a: string, b: string, timestamp: int)
    requires DayBegins(a, timestamp) && DayBegins(b, timestamp)
    ensures a == b
  {
    FormatParses(a);
    FormatParses(b);
    OrdinalOrder(ParseIso(a).value, ParseIso(b).value);
  }

  predicate AllHold(exact: Reader, symbol: string, original: seq<SourceRow>, target: Target)
    requires WellFormed(original) && ConvertMaterial(exact, original).Some?
  {
    && 0 < |original| == |target.rows| == |target.frame|
    && forall i :: 0 <= i < |original| ==>
         HoldsConversion(exact, symbol, original[i], target.rows[i], target.frame[i])
  }

  /** The recorded dates are then those of the source rows. */
  lemma {:induction false} DatesAreTheSources(exact: Reader, symbol: string, original: seq<SourceRow>, target: Target, dates: seq<string>)
    requires WellFormed(original) && ConvertMaterial(exact, original).Some? && AllHold(exact, symbol, original, target)
    ensures SameDates(dates, target.rows) <==> |dates| == |original| && forall i :: 0 <= i < |original| ==> dates[i] == original[i].day
  {
    forall i | 0 <= i < |original| ensures DayBegins(original[i].day, target.rows[i].timestamp) {
      assert HoldsConversion(exact, symbol, original[i], target.rows[i], target.frame[i]);
    }
    if SameDates(dates, target.rows) {
      forall i | 0 <= i < |original| ensures dates[i] == original[i].day {
        OneDayBegins(dates[i], original[i].day, target.rows[i].timestamp);
      }
    }
  }

  /** The bridge succeeds exactly when there are as many target rows as source rows, every
      ordinal holds the conversion of that source row, and the recorded dates are those of
      the source: no row is dropped, added, reordered or changed. */
  lemma {:induction false} NoDropExactly(exact: Reader, symbol: string, original: seq<SourceRow>, target: Target, dates: seq<string>)
    requires WellFormed(original) && ConvertMaterial(exact, original).Some?
    ensures Proved(symbol, original, ConvertMaterial(exact, original).value, target, dates) <==>
      && AllHold(exact, symbol, original, target) && target.approvedLayout && target.sameContext
      && |dates| == |original| && forall i :: 0 <= i < |original| ==> dates[i] == original[i].day
  {
    var expected := ConvertMaterial(exact, original).value;
    if AllHold(exact, symbol, original, target) { DatesAreTheSources(exact, symbol, original, target, dates); }
    if 0 < |original| == |target.rows| == |target.frame| {
      forall i | 0 <= i < |original|
        ensures RowMatches(symbol, original[i], expected[i], target.rows[i], target.frame[i])
          <==> HoldsConversion(exact, symbol, original[i], target.rows[i], target.frame[i])
      {
        RowMatchesExactly(exact, symbol, original[i], target.rows[i], target.frame[i]);
      }
    }
  }

  /** A bar whose low is at most its high in the source keeps that order in storage. */
  lemma {:induction false} StoredBarsKeepOrder(exact: Reader, symbol: string, original: seq<SourceRow>,
      target: Target, dates: seq<string>, i: nat)
    requires WellFormed(original) && ConvertMaterial(exact, original).Some?
    requires Proved(symbol, original, ConvertMaterial(exact, original).value, target, dates) && i < |original|
    requires exact(original[i].values[2]).value <= exact(original[i].values[1]).value
    ensures |target.frame[i].values| == 5
    ensures target.frame[i].values[2].Value() <= target.frame[i].values[1].Value()
  {
    NoDropExactly(exact, symbol, original, target, dates);
    assert HoldsConversion(exact, symbol, original[i], target.rows[i], target.frame[i]);
    assert RowConverts(exact, original[i]);
    ConversionKeepsOrder(exact, original[i].values[2], original[i].values[1], Low, High);
  }
}
