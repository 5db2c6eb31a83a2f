/** Decimal digit strings, and how much of one an `i128` accumulator can hold. */
module Digits {
  import opened PowersOfTen

  type Digit = d: int | 0 <= d < 10

  /** The number a digit string spells, most significant digit first. */
  function Val(ds: seq<Digit>): nat {
    if ds == [] then 0 else Val(ds[..|ds| - 1]) * 10 + ds[|ds| - 1]
  }

  /** `n` with `k` zeros written after it. */
  function Shift(n: nat, k: nat): nat {
    if k == 0 then n else 10 * Shift(n, k - 1)
  }

  lemma {:induction false} ShiftIsTimes(n: nat, k: nat)
    ensures Shift(n, k) == n * Pow10(k) == Times(n, Pow10(k))
    ensures Shift(n, k) >= n
  {
    if k > 0 {
      ShiftIsTimes(n, k - 1);
      TenTimes(n, Pow10(k - 1));
    }
  }

  lemma TenTimes(n: nat, p: nat)
    ensures n * (10 * p) == 10 * (n * p)
  {
  }

  lemma {:induction false} ValConcat(a: seq<Digit>, b: seq<Digit>)
    ensures Val(a + b) == Shift(Val(a), |b|) + Val(b)
    ensures Val(b) < Pow10(|b|)
  {
    if b == [] {
      assert a + b == a;
    } else {
      ValConcat(a, b[..|b| - 1]);
      assert (a + b)[..|a + b| - 1] == a + b[..|b| - 1];
    }
  }

  lemma ValSplit(ds: seq<Digit>, j: nat)
    requires j <= |ds|
    ensures Val(ds) == Shift(Val(ds[..j]), |ds| - j) + Val(ds[j..])
    ensures Val(ds[j..]) < Pow10(|ds| - j)
    ensures Val(ds[..j]) <= Val(ds)
  {
    assert ds == ds[..j] + ds[j..];
    ValConcat(ds[..j], ds[j..]);
    ShiftIsTimes(Val(ds[..j]), |ds| - j);
  }

  /** Prefixes of a digit string only grow. */
  lemma ValPrefixMonotone(ds: seq<Digit>, i: nat, j: nat)
    requires i <= j <= |ds|
    ensures Val(ds[..i]) <= Val(ds[..j])
  {
    assert ds[..j][..i] == ds[..i];
    ValSplit(ds[..j], i);
  }

  /** `j` digits are the most an `i128` holds. */
  ghost predicate LongestThatFits(ds: seq<Digit>, j: nat) {
    && j <= |ds|
    && Val(ds[..j]) <= I128_MAX
    && (j < |ds| ==> Val(ds[..j + 1]) > I128_MAX)
  }

  lemma LongestIsUnique(ds: seq<Digit>, i: nat, j: nat)
    requires LongestThatFits(ds, i) && LongestThatFits(ds, j)
    ensures i == j
  {
    if i < j {
      ValPrefixMonotone(ds, i + 1, j);
    } else if j < i {
      ValPrefixMonotone(ds, j + 1, i);
    }
  }

  ghost function KeptLength(ds: seq<Digit>): (j: nat)
    ensures LongestThatFits(ds, j)
  {
    if Val(ds) <= I128_MAX then assert ds[..|ds|] == ds; |ds|
    else
      var init := ds[..|ds| - 1];
      var j := KeptLength(init);
      assert ds[..j] == init[..j];
      assert j < |init| ==> ds[..j + 1] == init[..j + 1];
      assert ds[..|ds|] == ds;
      j
  }

  /** What an accumulator that drops the digits that do not fit is left with. */
  datatype Kept = Overflow | Value(magnitude: nat, scale: int)

  /** Read `ds` with its decimal point after the first `point` digits (`point` may lie outside
      `0..|ds|`): digits past an `i128` are dropped when they are fractional, and are an overflow
      when they are not. */
  ghost function Keep(ds: seq<Digit>, point: int): Kept {
    var j := KeptLength(ds);
    if j < |ds| && j < point then Overflow else Value(Val(ds[..j]), j - point)
  }

  /** A prefix inside the integer part that does not fit is an overflow. */
  lemma CutInIntegerPart(ds: seq<Digit>, point: int, k: nat)
    requires k <= |ds| && k <= point
    requires Val(ds[..k]) > I128_MAX
    ensures Keep(ds, point) == Overflow
  {
    var j := KeptLength(ds);
    if j >= k {
      ValPrefixMonotone(ds, k, j);
    }
  }

  /** Reading stops where the longest fitting prefix ends. */
  lemma KeepAt(ds: seq<Digit>, point: int, j: nat)
    requires LongestThatFits(ds, j)
    ensures Keep(ds, point) == if j < |ds| && j < point then Overflow else Value(Val(ds[..j]), j - point)
  {
    LongestIsUnique(ds, j, KeptLength(ds));
  }

  lemma KeepAll(ds: seq<Digit>, point: int)
    requires Val(ds) <= I128_MAX
    ensures Keep(ds, point) == Value(Val(ds), |ds| - point)
  {
    assert ds[..|ds|] == ds;
    KeepAt(ds, point, |ds|);
  }

  /** The exact number those digits spell. */
  ghost function NumberOf(ds: seq<Digit>, point: int): Exact {
    Exact(Val(ds), |ds| - point)
  }

  /** Keeping `j` digits is reading the number down to place `j - point`. */
  lemma FloorOfPrefix(ds: seq<Digit>, point: int, j: nat)
    requires j <= |ds|
    ensures FloorAt(NumberOf(ds, point), j - point) == Val(ds[..j])
  {
    ValSplit(ds, j);
    ShiftIsTimes(Val(ds[..j]), |ds| - j);
    if j < |ds| {
      DivUnique(Val(ds), Pow10(|ds| - j), Val(ds[..j]));
    } else {
      assert ds[..j] == ds;
      assert Pow10(0) == 1;
    }
  }
}
