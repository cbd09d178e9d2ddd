/** Conversion of an exact decimal to binary64, rounding to nearest with ties to
    even (section 4.3.1 of IEEE 754-2019), over exact reals. */
module Binary64 {
  const HIDDEN := 0x10_0000_0000_0000          // 2^52, the implicit significand bit
  const MIN_EXPONENT := -1022
  const MAX_EXPONENT := 1023
  const BIAS := 1023

  /** `x` times two to the power `k`. */
  function Scale(x: real, k: int): real
    decreases if k < 0 then -k else k
  {
    if k == 0 then x else if k > 0 then 2.0 * Scale(x, k - 1) else Scale(x, k + 1) / 2.0
  }

  function Pow2(e: int): real {
    Scale(1.0, e)
  }

  function Distance(x: real, y: real): real {
    if x < y then y - x else x - y
  }

  // ---- Scaling facts ----

  lemma {:induction false} ScaleDifference(x: real, y: real, k: int)
    ensures Scale(x - y, k) == Scale(x, k) - Scale(y, k)
    decreases if k < 0 then -k else k
  {
    if k > 0 { ScaleDifference(x, y, k - 1); } else if k < 0 { ScaleDifference(x, y, k + 1); }
  }

  lemma {:induction false} ScaleSign(x: real, k: int)
    ensures x > 0.0 <==> Scale(x, k) > 0.0
    ensures x == 0.0 <==> Scale(x, k) == 0.0
    decreases if k < 0 then -k else k
  {
    if k > 0 { ScaleSign(x, k - 1); } else if k < 0 { ScaleSign(x, k + 1); }
  }

  lemma {:induction false} ScaleOrder(x: real, y: real, k: int)
    ensures x < y <==> Scale(x, k) < Scale(y, k)
    ensures x == y <==> Scale(x, k) == Scale(y, k)
    ensures Distance(Scale(x, k), Scale(y, k)) == Scale(Distance(x, y), k)
  {
    ScaleDifference(x, y, k);
    ScaleDifference(y, x, k);
    ScaleSign(x - y, k);
    ScaleSign(y - x, k);
  }

  lemma {:induction false} ScaleStep(x: real, k: int)
    ensures Scale(x, k + 1) == 2.0 * Scale(x, k)
  {
  }

  lemma {:induction false} ScaleSum(x: real, j: int, k: int)
    ensures Scale(Scale(x, j), k) == Scale(x, j + k)
    decreases if k < 0 then -k else k
  {
    if k > 0 {
      ScaleSum(x, j, k - 1);
      ScaleStep(x, j + k - 1);
    } else if k < 0 {
      ScaleSum(x, j, k + 1);
      ScaleStep(x, j + k);
    }
  }

  lemma {:induction false} Pow2Monotone(d: int, e: int)
    requires d <= e
    ensures Pow2(d) <= Pow2(e)
    decreases e - d
  {
    if d < e {
      Pow2Monotone(d, e - 1);
      ScaleSign(1.0, e - 1);
      ScaleStep(1.0, e - 1);
    }
  }

  function Power(k: nat): int {
    if k == 0 then 1 else 2 * Power(k - 1)
  }

  lemma {:induction false} ScaleOfInt(n: int, k: nat)
    ensures Scale(n as real, k) == (n * Power(k)) as real
  {
    if k > 0 { ScaleOfInt(n, k - 1); }
  }

  lemma {:induction false} HiddenIsPower()
    ensures Scale(1.0, 52) == HIDDEN as real && Scale(1.0, 53) == (2 * HIDDEN) as real
  {
    assert Power(13) == 0x2000;
    assert Power(26) == 0x400_0000;
    ScaleOfInt(1, 26);
    ScaleSum(1.0, 26, 26);
    ScaleOfInt(0x400_0000, 26);
    ScaleStep(1.0, 52);
  }

  /** The grid of a binade starts at 2^52 units and ends at 2^53. */
  lemma {:induction false} GridEnds(e: int)
    ensures Scale(HIDDEN as real, e - 52) == Pow2(e)
    ensures Scale((2 * HIDDEN) as real, e - 52) == Pow2(e + 1)
  {
    HiddenIsPower();
    ScaleSum(1.0, 52, e - 52);
    ScaleSum(1.0, 53, e - 52);
  }

  // ---- The format ----

  /** The three fields of an encoding: sign bit, 11-bit exponent field, 52-bit fraction. */
  datatype Double = Double(negative: bool, field: nat, fraction: nat) {
    predicate Finite() {
      field < 0x7FF && fraction < HIDDEN
    }

    predicate Normal() {
      Finite() && field != 0
    }

    function Magnitude(): real {
      if field == 0 then Scale(fraction as real, -1074) else Scale((HIDDEN + fraction) as real, field - 1075)
    }

    function Value(): real {
      if negative then -Magnitude() else Magnitude()
    }

    /** The order of the encodings of two positive values, read as integers. */
    predicate AtMost(other: Double) {
      field < other.field || (field == other.field && fraction <= other.fraction)
    }
  }

  const POSITIVE_ZERO := Double(false, 0, 0)

  const MINIMUM_NORMAL: real := Pow2(MIN_EXPONENT)
  const MAXIMUM_FINITE: real := Scale((2 * HIDDEN - 1) as real, MAX_EXPONENT - 52)

  // ---- Rounding ----

  function RoundHalfEven(q: real): int {
    var below := q.Floor;
    var part := q - below as real;
    if part < 0.5 then below else if part > 0.5 then below + 1 else if below % 2 == 0 then below else below + 1
  }

  /** The binade of `x`, searched downwards. */
  function Exponent(x: real, from: int): (e: int)
    requires from >= MIN_EXPONENT && x >= Pow2(MIN_EXPONENT) && x < Pow2(from + 1)
    ensures MIN_EXPONENT <= e <= from && Pow2(e) <= x < Pow2(e + 1)
    decreases from - MIN_EXPONENT
  {
    if Pow2(from) <= x then from else Exponent(x, from - 1)
  }

  predicate InRange(x: real) {
    MINIMUM_NORMAL <= x <= MAXIMUM_FINITE
  }

  lemma {:induction false} RangeIsBelowOverflow()
    ensures MAXIMUM_FINITE < Pow2(MAX_EXPONENT + 1)
  {
    GridEnds(MAX_EXPONENT);
    ScaleOrder((2 * HIDDEN - 1) as real, (2 * HIDDEN) as real, MAX_EXPONENT - 52);
  }

  /** The exponent of the power of two at or just below `x`. */
  function Binade(x: real): (e: int)
    requires InRange(x)
    ensures MIN_EXPONENT <= e <= MAX_EXPONENT && Pow2(e) <= x < Pow2(e + 1)
  {
    RangeIsBelowOverflow();
    Exponent(x, MAX_EXPONENT)
  }

  function Significand(x: real): int
    requires InRange(x)
  {
    RoundHalfEven(Scale(x, 52 - Binade(x)))
  }

  /** A significand rounded up to 2^53 carries into the exponent field. */
  function Pack(e: int, n: int): Double
    requires MIN_EXPONENT <= e && HIDDEN <= n
  {
    if n < 2 * HIDDEN then Double(false, e + BIAS, n - HIDDEN) else Double(false, e + BIAS + 1, 0)
  }

  /** `float(decimal)` for a value in the approved range. */
  function Encode(x: real): Double
    requires InRange(x)
  {
    SignificandBounds(x);
    Pack(Binade(x), Significand(x))
  }

  lemma {:induction false} RoundIsNearest(q: real, k: int)
    ensures Distance(q, RoundHalfEven(q) as real) <= Distance(q, k as real)
    ensures Distance(q, RoundHalfEven(q) as real) <= 0.5
    ensures Distance(q, RoundHalfEven(q) as real) == Distance(q, k as real) && k != RoundHalfEven(q)
        ==> RoundHalfEven(q) % 2 == 0
  {
    var below := q.Floor;
    assert below as real <= q < (below + 1) as real;
    if k <= below {
      assert k as real <= below as real;
    } else {
      assert k as real >= (below + 1) as real;
    }
  }

  lemma {:induction false} RoundIsMonotone(q: real, r: real)
    requires q <= r
    ensures RoundHalfEven(q) <= RoundHalfEven(r)
  {
  }

  /** In its binade the scaled value lies between 2^52 and 2^53. */
  lemma {:induction false} ScaledBounds(x: real, e: int)
    requires Pow2(e) <= x < Pow2(e + 1)
    ensures HIDDEN as real <= Scale(x, 52 - e) < (2 * HIDDEN) as real
    ensures Scale(Scale(x, 52 - e), e - 52) == x
  {
    ScaleSum(x, 52 - e, e - 52);
    GridEnds(e);
    ScaleOrder(Scale(x, 52 - e), HIDDEN as real, e - 52);
    ScaleOrder(Scale(x, 52 - e), (2 * HIDDEN) as real, e - 52);
  }

  lemma {:induction false} SignificandBounds(x: real)
    requires InRange(x)
    ensures HIDDEN <= Significand(x) <= 2 * HIDDEN
    ensures Binade(x) == MAX_EXPONENT ==> Significand(x) < 2 * HIDDEN
  {
    var e := Binade(x);
    ScaledBounds(x, e);
    RoundIsMonotone(HIDDEN as real, Scale(x, 52 - e));
    RoundIsMonotone(Scale(x, 52 - e), (2 * HIDDEN) as real);
    if e == MAX_EXPONENT {
      ScaleOrder((2 * HIDDEN - 1) as real, Scale(x, 52 - e), e - 52);
      RoundIsMonotone(Scale(x, 52 - e), (2 * HIDDEN - 1) as real);
    }
  }

  lemma {:induction false} PackDenotes(e: int, n: int)
    requires MIN_EXPONENT <= e <= MAX_EXPONENT && HIDDEN <= n <= 2 * HIDDEN
    requires e == MAX_EXPONENT ==> n < 2 * HIDDEN
    ensures var d := Pack(e, n); d.Normal() && !d.negative && d.Value() == Scale(n as real, e - 52)
    ensures Pack(e, n).fraction % 2 == n % 2
  {
    if n == 2 * HIDDEN {
      GridEnds(e);
      GridEnds(e + 1);
    }
  }

  /** The encoding denotes the rounded significand in the binade of `x`. */
  lemma {:induction false} EncodeDenotes(x: real)
    requires InRange(x)
    ensures Encode(x).Normal() && !Encode(x).negative
    ensures Encode(x).Value() == Scale(Significand(x) as real, Binade(x) - 52)
    ensures Encode(x).fraction % 2 == Significand(x) % 2
  {
    SignificandBounds(x);
    PackDenotes(Binade(x), Significand(x));
  }

  // ---- The conversion laws ----

  /** Once the range check has passed, the later exponent and sign rejection can
      never fire. */
  lemma {:induction false} RangeCheckSuffices(x: real)
    requires InRange(x)
    ensures Encode(x).Finite() && 1 <= Encode(x).field <= 2046 && !Encode(x).negative
  {
    EncodeDenotes(x);
  }

  /** The result is positive and within 2^-53 of `x`, relatively. */
  lemma {:induction false} RelativeError(x: real)
    requires InRange(x)
    ensures Encode(x).Value() > 0.0
    ensures Distance(x, Encode(x).Value()) <= Scale(x, -53)
  {
    EncodeDenotes(x);
    ErrorInBinade(x, Binade(x));
  }

  lemma {:induction false} ErrorInBinade(x: real, e: int)
    requires Pow2(e) <= x < Pow2(e + 1)
    ensures var r := Scale(RoundHalfEven(Scale(x, 52 - e)) as real, e - 52);
      r > 0.0 && Distance(x, r) <= Scale(x, -53)
  {
    var q := Scale(x, 52 - e);
    var n := RoundHalfEven(q);
    ScaledBounds(x, e);
    RoundIsNearest(q, n);
    ScaleSign(n as real, e - 52);
    ScaleOrder(q, n as real, e - 52);
    ScaleOrder(0.5, Distance(q, n as real), e - 52);
    HalfUnit(e);
    ScaleOrder(x, Pow2(e), -53);
  }

  lemma {:induction false} HalfUnit(e: int)
    ensures Scale(0.5, e - 52) == Scale(Pow2(e), -53)
  {
    ScaleSum(1.0, e, -53);
    assert Scale(1.0, -1) == 0.5;
    ScaleSum(1.0, -1, e - 52);
  }

  lemma {:induction false} MagnitudeBySlot(d: Double)
    requires d.Finite()
    ensures d.field == 0 ==> 0.0 <= d.Magnitude() < Pow2(MIN_EXPONENT)
    ensures d.field > 0 ==> Pow2(d.field - BIAS) <= d.Magnitude() < Pow2(d.field - BIAS + 1)
  {
    var e := if d.field == 0 then MIN_EXPONENT else d.field - BIAS;
    GridEnds(e);
    ScaleSign(d.fraction as real, e - 52);
    ScaleOrder(d.fraction as real, HIDDEN as real, e - 52);
    ScaleOrder((HIDDEN + d.fraction) as real, (2 * HIDDEN) as real, e - 52);
    ScaleOrder((HIDDEN + d.fraction) as real, HIDDEN as real, e - 52);
  }

  /** The grid point of the binade that is closest to a finite value. */
  function GridPoint(d: Double, e: int): int {
    if d.field < e + BIAS then HIDDEN else if d.field > e + BIAS then 2 * HIDDEN else HIDDEN + d.fraction
  }

  /** Seen from a binade, a finite value lies below it, at or above its end, or on its grid. */
  lemma {:induction false} MagnitudePosition(d: Double, e: int)
    requires d.Finite() && MIN_EXPONENT <= e <= MAX_EXPONENT
    ensures var point := Scale(GridPoint(d, e) as real, e - 52);
      && 0.0 <= d.Magnitude()
      && (d.field < e + BIAS ==> d.Magnitude() < point == Pow2(e))
      && (d.field > e + BIAS ==> d.Magnitude() >= point == Pow2(e + 1))
      && (d.field == e + BIAS ==> d.Magnitude() == point)
  {
    MagnitudeBySlot(d);
    GridEnds(e);
    if d.field == 0 {
      Pow2Monotone(MIN_EXPONENT, e);
    } else {
      ScaleSign(1.0, d.field - BIAS);
      if d.field < e + BIAS { Pow2Monotone(d.field - BIAS + 1, e); }
      if d.field > e + BIAS { Pow2Monotone(e + 1, d.field - BIAS); }
    }
  }

  /** No finite binary64 value is closer, and of two equally close ones the even is taken. */
  lemma {:induction false} EncodeIsNearest(x: real, other: Double)
    requires InRange(x) && other.Finite()
    ensures var r := Encode(x);
      && Distance(x, r.Value()) <= Distance(x, other.Value())
      && (Distance(x, r.Value()) == Distance(x, other.Value()) && other.Value() != r.Value() ==> r.fraction % 2 == 0)
  {
    EncodeDenotes(x);
    NearestInBinade(x, Binade(x), other);
  }

  lemma {:induction false} NearestInBinade(x: real, e: int, other: Double)
    requires Pow2(e) <= x < Pow2(e + 1) && MIN_EXPONENT <= e <= MAX_EXPONENT && other.Finite()
    ensures var n := RoundHalfEven(Scale(x, 52 - e)); var r := Scale(n as real, e - 52);
      && Distance(x, r) <= Distance(x, other.Value())
      && (Distance(x, r) == Distance(x, other.Value()) && other.Value() != r ==> n % 2 == 0)
  {
    var q, k := Scale(x, 52 - e), GridPoint(other, e);
    var n := RoundHalfEven(q);
    ScaledBounds(x, e);
    MagnitudePosition(other, e);
    ScaleSign(1.0, e);
    RoundIsNearest(q, k);
    ScaleOrder(q, n as real, e - 52);
    ScaleOrder(q, k as real, e - 52);
    ScaleOrder(n as real, k as real, e - 52);
    ScaleOrder(Distance(q, n as real), Distance(q, k as real), e - 52);
  }

  /** Source order survives the conversion. */
  lemma {:induction false} EncodeIsMonotone(x: real, y: real)
    requires InRange(x) && InRange(y) && x <= y
    ensures Encode(x).AtMost(Encode(y))
  {
    var e, m := Parts(x);
    var f, n := Parts(y);
    PartsAreOrdered(x, y);
    PackIsMonotone(e, f, m, n);
  }

  lemma {:induction false} Parts(x: real) returns (e: int, n: int)
    requires InRange(x)
    ensures e == Binade(x) && n == Significand(x) && MIN_EXPONENT <= e && HIDDEN <= n <= 2 * HIDDEN
    ensures Encode(x) == Pack(e, n)
  {
    SignificandBounds(x);
    e, n := Binade(x), Significand(x);
  }

  lemma {:induction false} PartsAreOrdered(x: real, y: real)
    requires InRange(x) && InRange(y) && x <= y
    ensures Binade(x) <= Binade(y)
    ensures Binade(x) == Binade(y) ==> Significand(x) <= Significand(y)
  {
    BinadeIsMonotone(x, y);
    if Binade(x) == Binade(y) { SignificandIsMonotone(x, y, Binade(x)); }
  }

  lemma {:induction false} BinadeIsMonotone(x: real, y: real)
    requires InRange(x) && InRange(y) && x <= y
    ensures Binade(x) <= Binade(y)
  {
    if Binade(x) > Binade(y) { Pow2Monotone(Binade(y) + 1, Binade(x)); }
  }

  lemma {:induction false} SignificandIsMonotone(x: real, y: real, e: int)
    requires x <= y
    ensures RoundHalfEven(Scale(x, 52 - e)) <= RoundHalfEven(Scale(y, 52 - e))
  {
    ScaleOrder(y, x, 52 - e);
    RoundIsMonotone(Scale(x, 52 - e), Scale(y, 52 - e));
  }

  lemma {:induction false} PackIsMonotone(e: int, f: int, m: int, n: int)
    requires MIN_EXPONENT <= e <= f && HIDDEN <= m <= 2 * HIDDEN && HIDDEN <= n <= 2 * HIDDEN
    requires e == f ==> m <= n
    ensures Pack(e, m).AtMost(Pack(f, n))
  {
  }

  /** Encodings in that order denote values in that order. */
  lemma {:induction false} OrderMatchesValue(c: Double, d: Double)
    requires c.Finite() && d.Normal() && !c.negative && !d.negative
    ensures c.AtMost(d) <==> c.Value() <= d.Value()
  {
    var e := d.field - BIAS;
    MagnitudePosition(c, e);
    MagnitudeBySlot(d);
    ScaleOrder((HIDDEN + d.fraction) as real, (HIDDEN + c.fraction) as real, e - 52);
  }

  // ---- The format and the range, field by field ----

  /** The value of a normal encoding as the standard defines it: an implicit one, 52 bits of
      fraction, and the exponent field less 1023. */
  lemma {:induction false} NormalValue(d: Double)
    requires d.Normal()
    ensures d.Magnitude() == Scale(1.0 + d.fraction as real / 4503599627370496.0, d.field - 1023)
    ensures d.Value() == if d.negative then -d.Magnitude() else d.Magnitude()
  {
    var m := 1.0 + d.fraction as real / 4503599627370496.0;
    ScaleSum(m, 52, d.field - 1075);
    ScaleByHidden(m);
  }

  /** Without the implicit one when the exponent field is zero; a zero fraction is zero. */
  lemma {:induction false} SubnormalValue(d: Double)
    requires d.Finite() && d.field == 0
    ensures d.Magnitude() == Scale(d.fraction as real / 4503599627370496.0, -1022)
    ensures d.Value() == 0.0 <==> d.fraction == 0
  {
    var m := d.fraction as real / 4503599627370496.0;
    ScaleSum(m, 52, -1074);
    ScaleByHidden(m);
    ScaleSign(d.fraction as real, -1074);
  }

  /** Scaling is multiplying by a power of two: once per step, up and down. */
  lemma {:induction false} ScaleIsPowers(x: real, k: int)
    ensures Scale(x, 0) == x && Scale(x, k + 1) == Scale(x, k) + Scale(x, k)
  {
    ScaleStep(x, k);
  }

  lemma {:induction false} ScaleByHidden(m: real)
    ensures Scale(m, 52) == m * 4503599627370496.0
  {
    ScaleByThirteen(m);
    ScaleSum(m, 13, 13);
    ScaleByThirteen(m * 8192.0);
    ScaleSum(m, 26, 13);
    ScaleByThirteen(m * 67108864.0);
    ScaleSum(m, 39, 13);
    ScaleByThirteen(m * 549755813888.0);
  }

  lemma {:induction false} ScaleByThirteen(m: real)
    ensures Scale(m, 13) == m * 8192.0
  {
    assert Scale(m, 6) == m * 64.0;
    assert Scale(m, 13) == m * 8192.0;
  }

  /** The approved range lies between the values of the least normal and the greatest finite
      encoding, ends included. */
  lemma {:induction false} RangeExactly(x: real)
    ensures InRange(x) <==> Double(false, 1, 0).Value() <= x <= Double(false, 2046, 0xF_FFFF_FFFF_FFFF).Value()
  {
    GridEnds(MIN_EXPONENT);
    assert (HIDDEN + 0xF_FFFF_FFFF_FFFF) as real == (2 * HIDDEN - 1) as real;
  }

  /** Every normal value is in range and converts to itself. */
  lemma {:induction false} EveryNormalIsExact(d: Double)
    requires !d.negative && 1 <= d.field <= 2046 && d.fraction < 0x10_0000_0000_0000
    ensures InRange(d.Value()) && Encode(d.Value()) == d
  {
    var x := d.Value();
    OrderMatchesValue(Double(false, 1, 0), d);
    OrderMatchesValue(d, Double(false, 2046, 0xF_FFFF_FFFF_FFFF));
    RangeExactly(x);
    EncodeDenotes(x);
    EncodeIsNearest(x, d);
    assert Encode(x).Value() == x;
    OrderMatchesValue(d, Encode(x));
    OrderMatchesValue(Encode(x), d);
  }
}
