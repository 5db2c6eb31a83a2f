/** Cells, the keys rows are matched by, and how two cells are compared
    (crates/quickhouse-core/src/reconcile_values.rs). */
module ValueKeys {
  import opened Options
  import opened Bytes
  import opened PowersOfTen
  import opened Decimal

  /** A cell; a double is its bits. */
  datatype Cell = Null | Int(i: int) | Bool(b: bool) | Dec(m: int, s: int) | Raw(bytes: seq<Byte>) | Date(d: int)
                | Micros(us: int) | Double(bits: nat)

  datatype KeyValue = KInt(i: int) | KDecimal(m: int, s: int) | KBytes(bytes: seq<Byte>) | KDate(d: int)
                    | KMicros(us: int)

  // ----- keys -----

  /** A mantissa and scale with the trailing zeros of the fraction dropped. */
  function Reduce(m: int, s: int): (int, int)
    decreases if s > 0 then s else 0
  {
    if s > 0 && m % 10 == 0 then Reduce(m / 10, s - 1) else (m, s)
  }

  function DecimalKey(m: int, s: int): KeyValue {
    if s == 0 then KInt(m) else KDecimal(m, s)
  }

  /** `key_value`: none for a NULL or a double. */
  function KeyOf(c: Cell): Option<KeyValue> {
    match c
    case Int(i) => Some(KInt(i))
    case Bool(b) => Some(KInt(if b then 1 else 0))
    case Dec(m, s) => Some(DecimalKey(Reduce(m, s).0, Reduce(m, s).1))
    case Raw(bytes) => Some(KBytes(bytes))
    case Date(d) => Some(KDate(d))
    case Micros(us) => Some(KMicros(us))
    case Null => None
    case Double(_) => None
  }

  method KeyValueOf(c: Cell) returns (k: Option<KeyValue>)
    ensures k == KeyOf(c)
  {
    match c {
      case Int(i) => k := Some(KInt(i));
      case Bool(b) => k := Some(KInt(if b then 1 else 0));
      case Dec(m0, s0) =>
        var m, s := m0, s0;
        while s > 0 && m % 10 == 0
          invariant Reduce(m, s) == Reduce(m0, s0)
        {
          m := m / 10;
          s := s - 1;
        }
        k := Some(if s == 0 then KInt(m) else KDecimal(m, s));
      case Raw(bytes) => k := Some(KBytes(bytes));
      case Date(d) => k := Some(KDate(d));
      case Micros(us) => k := Some(KMicros(us));
      case Null => k := None;
      case Double(_) => k := None;
    }
  }

  // ----- the number a cell holds -----

  /** `m` followed by `k` zeros. */
  function Scaled(m: int, k: nat): int { m * Pow10(k) }

  /** Two mantissas at their scales are one number: at the larger scale they are the same integer. */
  predicate SameValue(m1: int, s1: int, m2: int, s2: int) {
    if s1 <= s2 then Scaled(m1, s2 - s1) == m2 else m1 == Scaled(m2, s1 - s2)
  }

  predicate Numeric(c: Cell) { c.Int? || c.Bool? || c.Dec? }

  /** The mantissa and scale of a numeric cell. */
  function Exactly(c: Cell): (int, int)
    requires Numeric(c)
  {
    match c
    case Int(i) => (i, 0)
    case Bool(b) => (if b then 1 else 0, 0)
    case Dec(m, s) => (m, s)
  }

  predicate SameNumber(a: Cell, b: Cell)
    requires Numeric(a) && Numeric(b)
  {
    SameValue(Exactly(a).0, Exactly(a).1, Exactly(b).0, Exactly(b).1)
  }

  lemma ScaledOnce(m: int, k: nat)
    ensures Scaled(m, k + 1) == 10 * Scaled(m, k) == Scaled(10 * m, k)
    ensures Scaled(m, 0) == m
  {
    var p := Pow10(k);
    assert Pow10(k + 1) == 10 * p;
    assert m * (10 * p) == 10 * (m * p) == (10 * m) * p;
  }

  lemma DropZero(m: int, s: int, m2: int, s2: int)
    requires m % 10 == 0
    ensures SameValue(m, s, m2, s2) <==> SameValue(m / 10, s - 1, m2, s2)
  {
    var q := m / 10;
    if s2 < s {
      ScaledOnce(m2, s - 1 - s2);
      ScaledOnce(q, 0);
    } else {
      ScaledOnce(q, s2 - s);
    }
  }

  lemma {:induction false} ReduceKeepsValue(m: int, s: int, m2: int, s2: int)
    ensures SameValue(m, s, m2, s2) <==> SameValue(Reduce(m, s).0, Reduce(m, s).1, m2, s2)
    decreases if s > 0 then s else 0
  {
    if s > 0 && m % 10 == 0 {
      DropZero(m, s, m2, s2);
      ReduceKeepsValue(m / 10, s - 1, m2, s2);
    }
  }

  lemma SameValueSymmetric(m1: int, s1: int, m2: int, s2: int)
    ensures SameValue(m1, s1, m2, s2) <==> SameValue(m2, s2, m1, s1)
  {
    ScaledOnce(m1, 0);
    ScaledOnce(m2, 0);
  }

  predicate Reduced(m: int, s: int) { s <= 0 || m % 10 != 0 }

  lemma {:induction false} ReduceReduces(m: int, s: int)
    ensures Reduced(Reduce(m, s).0, Reduce(m, s).1)
    ensures if s < 0 then Reduce(m, s) == (m, s) else Reduce(m, s).1 >= 0
    decreases if s > 0 then s else 0
  {
    if s > 0 && m % 10 == 0 {
      ReduceReduces(m / 10, s - 1);
    }
  }

  lemma ReducedIsUnique(m1: int, s1: int, m2: int, s2: int)
    requires Reduced(m1, s1) && Reduced(m2, s2) && s1 >= 0 && s2 >= 0 && SameValue(m1, s1, m2, s2)
    ensures m1 == m2 && s1 == s2
  {
    if s1 < s2 {
      ScaledIsRound(m1, s2 - s1);
    } else if s2 < s1 {
      ScaledIsRound(m2, s1 - s2);
    } else {
      ScaledOnce(m1, 0);
    }
  }

  lemma ScaledIsRound(m: int, k: nat)
    requires k > 0
    ensures Scaled(m, k) % 10 == 0
  {
    ScaledOnce(m, k - 1);
    TenTimesIsRound(Scaled(m, k - 1));
  }

  lemma TenTimesIsRound(x: int)
    ensures (10 * x) % 10 == 0
  {
  }

  /** Two numeric cells have the same key exactly when they are the same number, unless a scale is negative
      (its zeros are not written out), when they have to be the same mantissa and scale. */
  lemma {:induction false} SameKeyIff(a: Cell, b: Cell)
    requires Numeric(a) && Numeric(b)
    ensures KeyOf(a) == KeyOf(b) <==>
              SameNumber(a, b) && ((Exactly(a).1 >= 0 && Exactly(b).1 >= 0) || Exactly(a) == Exactly(b))
  {
    var (m1, s1) := Exactly(a);
    var (m2, s2) := Exactly(b);
    assert KeyOf(a) == Some(DecimalKey(Reduce(m1, s1).0, Reduce(m1, s1).1));
    assert KeyOf(b) == Some(DecimalKey(Reduce(m2, s2).0, Reduce(m2, s2).1));
    ReduceReduces(m1, s1);
    ReduceReduces(m2, s2);
    var (r1, t1) := Reduce(m1, s1);
    var (r2, t2) := Reduce(m2, s2);
    ReduceKeepsValue(m1, s1, m2, s2);
    SameValueSymmetric(r1, t1, m2, s2);
    ReduceKeepsValue(m2, s2, r1, t1);
    SameValueSymmetric(r2, t2, r1, t1);
    assert SameNumber(a, b) <==> SameValue(r1, t1, r2, t2);
    ScaledOnce(r1, 0);
    if s1 >= 0 && s2 >= 0 && SameNumber(a, b) {
      ReducedIsUnique(r1, t1, r2, t2);
    }
  }

  /** A negative scale: 1E1 and 10 are one number under two keys. */
  lemma {:induction false} NegativeScaleKeysDiffer()
    ensures SameNumber(Dec(1, -1), Int(10)) && KeyOf(Dec(1, -1)) != KeyOf(Int(10))
  {
    ScaledOnce(1, 0);
    assert Scaled(1, 1) == 10;
  }

  // ----- comparing two cells -----

  type Ticks = u: int | 0 < u witness 1

  datatype Rule = Exact | Float | Truth | BytesRule | DateRule | Instant(unit: Ticks)

  /** What doubles decide: whether two cells are within a tolerance as doubles, and whether a decimal
      difference is. */
  datatype Doubles = Doubles(within: (Cell, Cell, real) -> bool, small: (int, int, real) -> bool)

  function RescaleTo(m: int, up: nat): Option<int> {
    match CheckedPow10(up)
    case None => None
    case Some(p) => Checked(m * p)
  }

  function Max(a: int, b: int): int { if a > b then a else b }

  /** The difference of two decimals at the larger scale, if it fits an `i128` on the way. */
  function Difference(m1: int, s1: int, m2: int, s2: int): Option<int> {
    var scale := Max(s1, s2);
    match (RescaleTo(m1, scale - s1), RescaleTo(m2, scale - s2))
    case (Some(x), Some(y)) => Checked(x - y)
    case (_, _) => None
  }

  /** `decimals_within`. */
  function DecimalsWithin(doubles: Doubles, source: Cell, dest: Cell, tolerance: real): bool
    requires Numeric(source) && Numeric(dest)
  {
    var (m1, s1) := Exactly(source);
    var (m2, s2) := Exactly(dest);
    match Difference(m1, s1, m2, s2)
    case None => doubles.within(source, dest, tolerance)
    case Some(diff) => diff == 0 || (tolerance > 0.0 && doubles.small(diff, Max(s1, s2), tolerance))
  }

  /** With no tolerance two decimals are equal exactly when they are the same number, whenever their
      rescales and subtraction fit an `i128`. */
  lemma {:induction false} ZeroToleranceIsExact(doubles: Doubles, source: Cell, dest: Cell)
    requires Numeric(source) && Numeric(dest)
    requires Difference(Exactly(source).0, Exactly(source).1, Exactly(dest).0, Exactly(dest).1).Some?
    ensures DecimalsWithin(doubles, source, dest, 0.0) <==> SameNumber(source, dest)
  {
    var (m1, s1) := Exactly(source);
    var (m2, s2) := Exactly(dest);
    ScaledOnce(m1, 0);
    ScaledOnce(m2, 0);
    if s1 <= s2 {
      assert RescaleTo(m1, s2 - s1) == Checked(Scaled(m1, s2 - s1)) && RescaleTo(m2, 0) == Checked(Scaled(m2, 0));
    } else {
      assert RescaleTo(m2, s1 - s2) == Checked(Scaled(m2, s1 - s2)) && RescaleTo(m1, 0) == Checked(Scaled(m1, 0));
    }
  }

  function TruthOf(c: Cell): Option<bool> {
    match c
    case Int(i) => Some(i != 0)
    case Bool(b) => Some(b)
    case _ => None
  }

  const MICROS_PER_DAY: int := 86400000000

  /** An `i64` after wrapping. */
  function Wrap64(x: int): int {
    (x + 0x8000_0000_0000_0000) % 0x1_0000_0000_0000_0000 - 0x8000_0000_0000_0000
  }

  function DaysOf(c: Cell): Option<int> {
    match c
    case Date(d) => Some(d)
    case Micros(us) => Some(us / MICROS_PER_DAY)
    case _ => None
  }

  function MicrosOf(c: Cell): Option<int> {
    match c
    case Micros(us) => Some(us)
    case Date(d) => Some(Wrap64(d * MICROS_PER_DAY))
    case _ => None
  }

  /** `equal`, of two cells that are not NULL. */
  function Equal(doubles: Doubles, rule: Rule, source: Cell, dest: Cell, tolerance: real): bool {
    match rule
    case Exact => Numeric(source) && Numeric(dest) && DecimalsWithin(doubles, source, dest, tolerance)
    case Float => doubles.within(source, dest, tolerance)
    case Truth => TruthOf(source).Some? && TruthOf(source) == TruthOf(dest)
    case BytesRule => source.Raw? && source == dest
    case DateRule => DaysOf(source).Some? && DaysOf(source) == DaysOf(dest)
    case Instant(unit) =>
      MicrosOf(source).Some? && MicrosOf(dest).Some?
      && TruncDiv(MicrosOf(source).value, unit) == TruncDiv(MicrosOf(dest).value, unit)
  }

  datatype Outcome = Same | Mismatch | NullInDestOnly | NullInSourceOnly

  /** `classify`. */
  function Classify(doubles: Doubles, rule: Rule, source: Cell, dest: Cell, holdsDefault: bool, tolerance: real)
    : Outcome
  {
    if source.Null? && dest.Null? then Same
    else if source.Null? && holdsDefault then Same
    else if source.Null? then NullInSourceOnly
    else if dest.Null? then NullInDestOnly
    else if Equal(doubles, rule, source, dest, tolerance) then Same
    else if holdsDefault then NullInDestOnly
    else Mismatch
  }

  /** For an integer, decimal or boolean column with no tolerance: what a row counts as, of its values alone.
      A column's default is what a NULL is written as, so it stands for one on either side. */
  lemma {:induction false} ExactOutcome(doubles: Doubles, source: Cell, dest: Cell, holdsDefault: bool)
    requires source.Null? || Numeric(source)
    requires dest.Null? || Numeric(dest)
    requires Numeric(source) && Numeric(dest) ==>
               Difference(Exactly(source).0, Exactly(source).1, Exactly(dest).0, Exactly(dest).1).Some?
    ensures var outcome := Classify(doubles, Rule.Exact, source, dest, holdsDefault, 0.0);
            && (outcome == Same <==> if source.Null? then dest.Null? || holdsDefault
                                     else !dest.Null? && SameNumber(source, dest))
            && (outcome == NullInSourceOnly <==> source.Null? && !dest.Null? && !holdsDefault)
            && (outcome == NullInDestOnly <==>
                  !source.Null? && (dest.Null? || (holdsDefault && !SameNumber(source, dest))))
  {
    if !source.Null? && !dest.Null? {
      ZeroToleranceIsExact(doubles, source, dest);
    }
  }
}
