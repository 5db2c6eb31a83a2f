/** Exact decimal text and rescaling (crates/quickhouse-core/src/decimal.rs). */
module Decimal {
  import opened Options
  import opened PowersOfTen

  // ----- Rust's integer arithmetic -----

  predicate InI32(x: int) { I32_MIN <= x <= I32_MAX }

  predicate InI128(x: int) { -I128_MAX - 1 <= x <= I128_MAX }

  function Checked(x: int): Option<int> {
    if InI128(x) then Some(x) else None
  }

  function CheckedPow10(p: nat): Option<int> {
    Checked(Pow10(p))
  }

  lemma CheckedPow10Range(p: nat)
    ensures CheckedPow10(p).Some? <==> p <= 38
  {
    Pow10Bounds();
    if p <= 38 {
      Pow10Monotone(p, 38);
    } else {
      Pow10Monotone(39, p);
    }
  }

  /** Rust's `/`, which truncates toward zero. */
  function TruncDiv(a: int, b: int): int
    requires 0 < b
  {
    if a >= 0 then a / b else -((-a) / b)
  }

  // ----- rescaling -----

  /** Widen by `p` digits: exact, or `None` past an `i128`. */
  function Widen(magnitude: nat, p: nat): Option<int> {
    match CheckedPow10(p)
    case None => None
    case Some(factor) => Checked(magnitude * factor)
  }

  /** Narrow by `p` digits, rounding half away from zero. */
  function Narrow(magnitude: nat, p: nat): Option<int> {
    match CheckedPow10(p)
    case None => Some(0)
    case Some(divisor) => Some(HalfUp(magnitude, divisor))
  }

  /** Comparing with half the divisor never overflows, as doubling the remainder could. */
  function HalfUp(magnitude: nat, divisor: nat): int
    requires 0 < divisor
  {
    var quotient, remainder := magnitude / divisor, magnitude % divisor;
    if remainder >= divisor / 2 then quotient + 1 else quotient
  }

  /** Move a magnitude from one scale to another; `None` is arithmetic overflow. */
  function RescaleMantissa(magnitude: int, from: int, to: int): Option<int>
    requires 0 <= magnitude <= I128_MAX
  {
    if magnitude == 0 then Some(0)
    else if !InI32(to - from) then None
    else if to - from >= 0 then Widen(magnitude, to - from)
    else if !InI32(-(to - from)) then None
    else Narrow(magnitude, from - to)
  }

  function FitOrNone(exact: nat): Option<int> {
    if exact <= I128_MAX then Some(exact) else None
  }

  lemma WidenIsExact(magnitude: nat, p: nat)
    requires 0 < magnitude <= I128_MAX
    ensures Widen(magnitude, p) == FitOrNone(Times(magnitude, Pow10(p)))
  {
    CheckedPow10Range(p);
    var f := Pow10(p);
    if p > 38 {
      Pow10Bounds();
      Pow10Monotone(39, p);
      MulMonotone(1, magnitude, f);
    }
  }

  lemma NarrowRounds(magnitude: nat, p: nat)
    requires magnitude <= I128_MAX && 0 < p
    ensures Narrow(magnitude, p) == FitOrNone(RoundDiv(magnitude, Pow10(p)))
  {
    CheckedPow10Range(p);
    if p <= 38 {
      var half := 5 * Pow10(p - 1);
      assert Pow10(p) == 2 * half;
      HalfUpRounds(magnitude, half);
    } else {
      Pow10Bounds();
      Pow10Monotone(39, p);
      SmallRoundsToZero(magnitude, Pow10(p));
    }
  }

  lemma SmallRoundsToZero(n: nat, d: nat)
    requires 2 * n < d
    ensures RoundDiv(n, d) == 0
  {
    DivUnique(2 * n + d, 2 * d, 0);
  }

  /** Comparing the remainder with half the (even) divisor is rounding to nearest. */
  lemma HalfUpRounds(n: nat, half: nat)
    requires 0 < half
    ensures HalfUp(n, 2 * half) == RoundDiv(n, 2 * half) <= n
  {
    var d := 2 * half;
    var q, r := n / d, n % d;
    assert n == q * d + r;
    var t := HalfUp(n, d);
    assert d / 2 == half;
    assert t * (2 * d) == 2 * (t * d);
    assert (q + 1) * d == q * d + d;
    DivUnique(2 * n + d, 2 * d, t);
    MulMonotone(2, d, q);
  }

  /** Rescaling is rounding half away from zero, and fails exactly when that rounded number does not
      fit an `i128`, narrowing past 10^38 and widening past it included; or when a non-zero mantissa is
      narrowed by 2^31 digits or more, which the checked subtraction and negation refuse. */
  lemma {:induction false} RescaleIsRounding(magnitude: int, from: int, to: int)
    requires 0 <= magnitude <= I128_MAX
    ensures RescaleMantissa(magnitude, from, to)
         == if magnitude == 0 || to - from > I32_MIN then FitOrNone(RoundAt(Exact(magnitude, from), to)) else None
  {
    if magnitude == 0 {
      ZeroRoundsToZero(from, to);
    } else if to - from > I32_MAX {
      WidenIsExact(magnitude, to - from);
      CheckedPow10Range(to - from);
    } else if to >= from {
      WidenIsExact(magnitude, to - from);
    } else if to - from > I32_MIN {
      NarrowRounds(magnitude, from - to);
    }
  }

  lemma ZeroRoundsToZero(from: int, to: int)
    ensures RoundAt(Exact(0, from), to) == 0
  {
    if to < from {
      SmallRoundsToZero(0, Pow10(from - to));
    }
  }

  /** Narrowed past 10^38 every `i128` is nearest to zero. */
  lemma FarNarrowingIsZero(magnitude: nat, from: int, to: int)
    requires magnitude <= I128_MAX && from - to > 38
    ensures RoundAt(Exact(magnitude, from), to) == 0
  {
    Pow10Bounds();
    Pow10Monotone(39, from - to);
    SmallRoundsToZero(magnitude, Pow10(from - to));
  }

  lemma OnlyZeroIsZero(x: Exact, y: Exact)
    requires SameNumber(x, y)
    ensures x.num == 0 <==> y.num == 0
  {
    if x.scale <= y.scale {
      MulMonotone(1, Pow10(y.scale - x.scale), x.num);
    } else {
      MulMonotone(1, Pow10(x.scale - y.scale), y.num);
    }
  }

  /** Rescaling depends on the number only, not on which mantissa and scale spell it, exactly when both
      spellings or neither are narrowed by fewer than 2^31 digits: one that is not is refused, and the
      other rounds to zero. */
  lemma {:induction false} RescaleDependsOnNumber(m: int, s: int, m': int, s': int, to: int)
    requires 0 <= m <= I128_MAX && 0 <= m' <= I128_MAX
    requires SameNumber(Exact(m, s), Exact(m', s'))
    ensures RescaleMantissa(m, s, to) == RescaleMantissa(m', s', to)
       <==> m == 0 || (to - s > I32_MIN <==> to - s' > I32_MIN)
  {
    SameNumberSameFloor(Exact(m, s), Exact(m', s'), to);
    OnlyZeroIsZero(Exact(m, s), Exact(m', s'));
    RescaleIsRounding(m, s, to);
    RescaleIsRounding(m', s', to);
    if to - s <= I32_MIN {
      FarNarrowingIsZero(m, s, to);
    }
    if to - s' <= I32_MIN {
      FarNarrowingIsZero(m', s', to);
    }
  }

  /** 1 at the largest scale is refused at scale -1, where it rounds to zero. */
  lemma {:induction false} FarNarrowingExample()
    ensures RescaleMantissa(1, I32_MAX, -1) == None
    ensures RoundAt(Exact(1, I32_MAX), -1) == 0
  {
    RescaleIsRounding(1, I32_MAX, -1);
    FarNarrowingIsZero(1, I32_MAX, -1);
  }
}
