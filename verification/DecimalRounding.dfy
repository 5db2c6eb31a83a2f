/** What both decimal decoders emit into a `Decimal(P, S)` column, and how it relates to correct
    rounding (crates/quickhouse-core/src/decode.rs, decimal.rs, decode_api.rs). */
module DecimalRounding {
  import opened Options
  import opened PowersOfTen
  import opened Digits
  import opened Decimal

  /** Arrow's `is_valid_decimal_precision`. */
  predicate FitsPrecision(v: int, precision: nat) {
    var limit: int := Pow10(precision);
    -limit < v < limit
  }

  /** The tail both `Decimal128` arms share: rescale to the column's scale, sign, check the precision;
      `None` is the NULL counted as a decimal overflow. */
  function EmitMantissa(negative: bool, magnitude: int, scale: int, precision: nat, toScale: int): Option<int>
    requires 0 <= magnitude <= I128_MAX
  {
    match RescaleMantissa(magnitude, scale, toScale)
    case None => None
    case Some(m) =>
      var signed := if negative then -m else m;
      if FitsPrecision(signed, precision) then Some(signed) else None
  }

  /** What a decoder emits for a digit string read with its point after `point` digits. */
  ghost function Decode(negative: bool, ds: seq<Digit>, point: int, precision: nat, toScale: int): Option<int> {
    match Keep(ds, point)
    case Overflow => None
    case Value(m, s) => EmitMantissa(negative, m, s, precision, toScale)
  }

  ghost function Sign(negative: bool, m: int): int {
    if negative then -m else m
  }

  /** `m` as a cell of precision `precision`, NULL when it needs more digits. */
  ghost function Cell(negative: bool, m: nat, precision: nat): Option<int> {
    if m < Pow10(precision) then Some(Sign(negative, m)) else None
  }

  /** The correct cell: the exact number rounded half away from zero at the column's scale. */
  ghost function Correct(negative: bool, x: Exact, precision: nat, toScale: int): Option<int> {
    Cell(negative, RoundAt(x, toScale), precision)
  }

  /** Whether an `i128` runs out before the digit that decides the rounding at `toScale`. */
  ghost predicate RunsOut(x: Exact, toScale: int) {
    FloorAt(x, toScale + 1) > I128_MAX
  }

  /** The emitted cell, as a function of the exact number alone: the correct one while the deciding
      digit fits an `i128`, and the number cut off at the column's scale when it does not. */
  ghost function Emitted(negative: bool, x: Exact, precision: nat, toScale: int): Option<int> {
    if RunsOut(x, toScale) then Cell(negative, FloorAt(x, toScale), precision)
    else Correct(negative, x, precision, toScale)
  }

  /** Columns a decimal override or a declared NUMERIC can name. */
  predicate ValidColumn(precision: nat, toScale: int) {
    1 <= precision <= 38 && 0 <= toScale <= 127
  }

  /** Point positions whose scale arithmetic stays inside `i32`, as both decoders' do. */
  predicate PointInRange(ds: seq<Digit>, point: int) {
    -0x4000_0000 <= point && |ds| - point <= I32_MAX
  }

  lemma PrecisionFitsI128(precision: nat)
    requires precision <= 38
    ensures Pow10(precision) <= I128_MAX - 10
    ensures 10 * Pow10(precision) <= 10 * (I128_MAX - 10)
  {
    Pow10Bounds();
    Pow10Monotone(precision, 38);
  }

  /** A mantissa that fits an `i128` is emitted as its correct rounding. */
  lemma EmitIsCorrect(negative: bool, magnitude: int, scale: int, precision: nat, toScale: int)
    requires 0 <= magnitude <= I128_MAX
    requires precision <= 38 && toScale - scale > I32_MIN
    ensures EmitMantissa(negative, magnitude, scale, precision, toScale)
         == Correct(negative, Exact(magnitude, scale), precision, toScale)
  {
    RescaleIsRounding(magnitude, scale, toScale);
    PrecisionFitsI128(precision);
  }

  /** Main result on decoding: every digit string that spells a number, cut wherever the accumulator
      had to cut it, is emitted as `Emitted` says, which looks at the number and not at the digits. */
  lemma {:induction false} DecodeIsEmitted(negative: bool, ds: seq<Digit>, point: int, precision: nat, toScale: int)
    requires ValidColumn(precision, toScale) && PointInRange(ds, point)
    ensures Decode(negative, ds, point, precision, toScale)
         == Emitted(negative, NumberOf(ds, point), precision, toScale)
  {
    var x := NumberOf(ds, point);
    var j := KeptLength(ds);
    FloorOfPrefix(ds, point, j);
    RoundFromFloor(x, toScale);
    FloorStep(x, toScale);
    if j == |ds| {
      assert ds[..j] == ds;
      EmitIsCorrect(negative, x.num, x.scale, precision, toScale);
      if RunsOut(x, toScale) && toScale + 1 <= x.scale {
        FloorMonotone(x, toScale + 1, x.scale);
      }
    } else {
      FloorOfPrefix(ds, point, j + 1);
      if j < point {
        FloorMonotone(x, j - point + 1, toScale);
        TooWide(negative, x, precision, toScale);
      } else {
        CutOffIsEmitted(negative, x, Val(ds[..j]), j - point, precision, toScale);
      }
    }
  }

  /** The same for a number cut off after place `k`, where one more digit would not fit. */
  lemma CutOffIsEmitted(negative: bool, x: Exact, m: nat, k: int, precision: nat, toScale: int)
    requires ValidColumn(precision, toScale) && k <= I32_MAX
    requires FloorAt(x, k) == m <= I128_MAX < FloorAt(x, k + 1)
    ensures EmitMantissa(negative, m, k, precision, toScale) == Emitted(negative, x, precision, toScale)
  {
    EmitIsCorrect(negative, m, k, precision, toScale);
    if toScale > k {
      FloorMonotone(x, k + 1, toScale);
      TooWide(negative, x, precision, toScale);
      WidenedPastPrecision(x, m, k, precision, toScale);
    } else if toScale == k {
      assert Pow10(0) == 1;
    } else {
      FloorMonotone(x, toScale + 1, k);
      TruncatedTailRoundsAlike(x, m, k, toScale);
    }
  }

  /** A number whose integer part at `toScale` is past an `i128` is NULL either way. */
  lemma TooWide(negative: bool, x: Exact, precision: nat, toScale: int)
    requires precision <= 38
    requires FloorAt(x, toScale) > I128_MAX
    ensures Emitted(negative, x, precision, toScale) == None
  {
    PrecisionFitsI128(precision);
    FloorMonotone(x, toScale, toScale + 1);
  }

  /** Widening a cut-off mantissa by even one digit passes every precision. */
  lemma WidenedPastPrecision(x: Exact, m: nat, k: int, precision: nat, toScale: int)
    requires precision <= 38 && k < toScale
    requires FloorAt(x, k) == m <= I128_MAX < FloorAt(x, k + 1)
    ensures RoundAt(Exact(m, k), toScale) >= Pow10(precision)
  {
    var y := Exact(m, k);
    FloorStep(x, k);
    FloorStep(y, k);
    assert FloorAt(y, k) == m by { assert Pow10(0) == 1; }
    FloorMonotone(y, k + 1, toScale);
    PrecisionFitsI128(precision);
  }

  /** Cutting digits off leaves the rounding at any scale above the cut as it was: the digit that decides it
      is still there. */
  lemma TruncatedTailRoundsAlike(x: Exact, m: nat, k: int, toScale: int)
    requires FloorAt(x, k) == m
    requires toScale < k
    ensures RoundAt(Exact(m, k), toScale) == RoundAt(x, toScale)
  {
    var y := Exact(m, k);
    assert FloorAt(y, k) == m by { assert Pow10(0) == 1; }
    FloorAgreeBelow(x, y, k, toScale + 1);
    RoundFromFloor(x, toScale);
    RoundFromFloor(y, toScale);
  }

  // ----- how far from correct -----

  /** The number ends past the accumulator exactly at the column's scale, and the first dropped digit
      would have rounded it up. Only a 38-digit column is affected. */
  ghost predicate CutsOffARoundUp(x: Exact, precision: nat, toScale: int) {
    RunsOut(x, toScale) && FloorAt(x, toScale) < Pow10(precision) && FloorAt(x, toScale + 1) % 10 >= 5
  }

  /** The decoders round correctly exactly when they do not cut off a round-up. */
  lemma {:induction false} CorrectIffNoRoundUpCutOff(negative: bool, x: Exact, precision: nat, toScale: int)
    requires ValidColumn(precision, toScale)
    ensures Emitted(negative, x, precision, toScale) == Correct(negative, x, precision, toScale)
       <==> !CutsOffARoundUp(x, precision, toScale)
  {
    RoundFromFloor(x, toScale);
    FloorStep(x, toScale);
    TenthRounds(FloorAt(x, toScale + 1));
  }

  lemma TenthRounds(n: nat)
    ensures (n + 5) / 10 == n / 10 + (if n % 10 >= 5 then 1 else 0)
  {
  }

  /** A cut-off needs all 38 digits of a `Decimal(38, S)`: every narrower column is always correct. */
  lemma {:induction false} CutOffNeedsFullPrecision(x: Exact, precision: nat, toScale: int)
    requires ValidColumn(precision, toScale)
    requires CutsOffARoundUp(x, precision, toScale)
    ensures precision == 38
  {
    FloorStep(x, toScale);
    if precision <= 37 {
      Pow10Bounds();
      Pow10Monotone(precision, 37);
    }
  }

  /** What is emitted is never more than one unit below the correct magnitude and never above it, and
      a NULL is never wrong. */
  lemma {:induction false} WithinOneUnit(negative: bool, x: Exact, precision: nat, toScale: int)
    requires ValidColumn(precision, toScale)
    ensures var e := Emitted(negative, x, precision, toScale);
            && (e == None ==> Correct(negative, x, precision, toScale) == None)
            && (e.Some? ==> exists m: nat :: e == Some(Sign(negative, m))
                                            && m <= RoundAt(x, toScale) <= m + 1)
  {
    RoundFromFloor(x, toScale);
    FloorStep(x, toScale);
    var e := Emitted(negative, x, precision, toScale);
    if e.Some? {
      var m := if RunsOut(x, toScale) then FloorAt(x, toScale) else RoundAt(x, toScale);
      assert e == Some(Sign(negative, m)) && m <= RoundAt(x, toScale) <= m + 1;
    }
  }

  /** The emitted cell depends on the number, not on its spelling. */
  lemma EmittedDependsOnNumber(negative: bool, x: Exact, y: Exact, precision: nat, toScale: int)
    requires SameNumber(x, y)
    ensures Emitted(negative, x, precision, toScale) == Emitted(negative, y, precision, toScale)
  {
    SameNumberSameFloor(x, y, toScale);
    SameNumberSameFloor(x, y, toScale + 1);
  }

  /** 2 followed by 37 zeros and a 5, as `2.00…05` in a `Decimal(38, 37)`: a half that is cut off. */
  lemma {:induction false} RoundUpCutOffExample()
    ensures CutsOffARoundUp(Exact(200000000000000000000000000000000000005, 38), 38, 37)
    ensures Emitted(false, Exact(200000000000000000000000000000000000005, 38), 38, 37)
         != Correct(false, Exact(200000000000000000000000000000000000005, 38), 38, 37)
  {
    var x := Exact(200000000000000000000000000000000000005, 38);
    assert Pow10(0) == 1 && Pow10(1) == 10;
    Pow10Bounds();
    CorrectIffNoRoundUpCutOff(false, x, 38, 37);
  }
}
