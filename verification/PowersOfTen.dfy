/** Powers of ten, the `i128` range, and exact decimals as a numerator over a power of ten. */
module PowersOfTen {

  /** `i128::MAX`. */
  const I128_MAX: int := 170141183460469231731687303715884105727
  const I64_MAX: int := 0x7FFF_FFFF_FFFF_FFFF
  const I64_MIN: int := -0x8000_0000_0000_0000
  const I32_MAX: int := 2147483647
  const I32_MIN: int := -2147483648

  function Pow10(n: nat): (r: nat)
    ensures r >= 1
  {
    if n == 0 then 1 else 10 * Pow10(n - 1)
  }

  lemma {:induction false} Pow10Add(a: nat, b: nat)
    ensures Pow10(a + b) == Pow10(a) * Pow10(b)
  {
    if a != 0 {
      Pow10Add(a - 1, b);
      assert Pow10(a + b) == 10 * (Pow10(a - 1) * Pow10(b));
    }
  }

  lemma {:induction false} Pow10Monotone(a: nat, b: nat)
    requires a <= b
    ensures Pow10(a) <= Pow10(b)
    decreases b - a
  {
    if a < b {
      Pow10Monotone(a + 1, b);
    }
  }

  /** The only power-of-ten bounds the decoders rely on: 10^38 fits an `i128`, and 10^39 is past
      twice its range. */
  lemma Pow10Bounds()
    ensures Pow10(38) == 100000000000000000000000000000000000000
    ensures Pow10(38) <= I128_MAX - 10
    ensures 2 * I128_MAX < Pow10(39)
  {
    assert Pow10(10) == 10000000000;
    Pow10Add(10, 10);
    Pow10Add(20, 18);
    assert Pow10(8) == 100000000;
    Pow10Add(10, 8);
  }

  lemma MulMonotone(a: int, b: int, c: int)
    requires a <= b && 0 <= c
    ensures a * c <= b * c
  {
  }

  /** Floor division is the unique quotient. */
  lemma DivUnique(n: int, d: int, q: int)
    requires 0 < d
    requires q * d <= n < q * d + d
    ensures n / d == q
  {
    var k := n / d;
    assert n == k * d + n % d;
    if k > q {
      assert (q + 1) * d == q * d + d;
      MulMonotone(q + 1, k, d);
    } else if k < q {
      MulMonotone(k + 1, q, d);
    }
  }

  /** Dividing twice is dividing by the product. */
  lemma DivTwice(n: nat, a: nat, b: nat)
    requires 0 < a && 0 < b
    ensures 0 < a * b
    ensures n / a / b == n / (a * b)
  {
    var q := n / a;
    var k := q / b;
    assert n == q * a + n % a;
    assert q == k * b + q % b;
    calc {
      q * a;
      (k * b + q % b) * a;
      k * (a * b) + (q % b) * a;
    }
    MulMonotone(q % b + 1, b, a);
    assert (q % b + 1) * a == (q % b) * a + a;
    MulMonotone(1, a, b);
    DivUnique(n, a * b, k);
  }

  function Times(a: nat, b: nat): (r: nat)
  {
    MulMonotone(0, a, b);
    a * b
  }

  function Quotient(a: nat, b: nat): nat
    requires 0 < b
  {
    a / b
  }

  // ----- exact decimals -----

  /** The number `num / 10^scale`; a negative scale multiplies instead. */
  datatype Exact = Exact(num: nat, scale: int)

  /** Two spellings of one number. */
  ghost predicate SameNumber(x: Exact, y: Exact) {
    if x.scale <= y.scale then x.num * Pow10(y.scale - x.scale) == y.num
    else x.num == y.num * Pow10(x.scale - y.scale)
  }

  /** The largest integer not above `x * 10^places`. */
  function FloorAt(x: Exact, places: int): nat {
    if places >= x.scale then Times(x.num, Pow10(places - x.scale))
    else Quotient(x.num, Pow10(x.scale - places))
  }

  /** `n / d` to the nearest integer, a half going up (away from zero, for a magnitude). */
  function RoundDiv(n: nat, d: nat): (r: nat)
    requires 0 < d
  {
    (2 * n + d) / (2 * d)
  }

  /** `x * 10^places` to the nearest integer, halves away from zero. */
  function RoundAt(x: Exact, places: int): nat {
    if places >= x.scale then Times(x.num, Pow10(places - x.scale))
    else RoundDiv(x.num, Pow10(x.scale - places))
  }

  /** At its own scale a number is its numerator. */
  lemma AtOwnScale(num: nat, scale: int)
    ensures FloorAt(Exact(num, scale), scale) == num
    ensures RoundAt(Exact(num, scale), scale) == num
  {
    assert Pow10(0) == 1;
  }

  /** What `RoundDiv` computes is the nearest integer, and the upper one on a tie. */
  lemma {:induction false} RoundDivIsNearest(n: nat, d: nat)
    requires 0 < d
    ensures var r := RoundDiv(n, d);
            2 * n - d < 2 * (r * d) <= 2 * n + d
  {
    var r := RoundDiv(n, d);
    var t := 2 * n + d;
    assert t == r * (2 * d) + t % (2 * d);
    assert r * (2 * d) == 2 * (r * d);
  }

  /** Reading one digit fewer is dividing by ten. */
  lemma FloorStep(x: Exact, places: int)
    ensures FloorAt(x, places) == FloorAt(x, places + 1) / 10
  {
    if places >= x.scale {
      var p := Pow10(places - x.scale);
      assert FloorAt(x, places + 1) == x.num * (10 * p) == 10 * (x.num * p);
    } else if places + 1 == x.scale {
      assert Pow10(0) == 1;
      assert Pow10(1) == 10;
    } else {
      var p := Pow10(x.scale - places - 1);
      DivTwice(x.num, p, 10);
      assert Pow10(x.scale - places) == p * 10;
    }
  }

  lemma {:induction false} FloorMonotone(x: Exact, a: int, b: int)
    requires a <= b
    ensures FloorAt(x, a) <= FloorAt(x, b)
    decreases b - a
  {
    if a < b {
      FloorStep(x, a);
      FloorMonotone(x, a + 1, b);
    }
  }

  /** Two numbers that agree at one place agree at every coarser place. */
  lemma {:induction false} FloorAgreeBelow(x: Exact, y: Exact, top: int, places: int)
    requires places <= top
    requires FloorAt(x, top) == FloorAt(y, top)
    ensures FloorAt(x, places) == FloorAt(y, places)
    decreases top - places
  {
    if places < top {
      FloorAgreeBelow(x, y, top, places + 1);
      FloorStep(x, places);
      FloorStep(y, places);
    }
  }

  /** One extra floored digit decides the rounding. */
  lemma RoundFromFloor(x: Exact, places: int)
    ensures RoundAt(x, places) == (FloorAt(x, places + 1) + 5) / 10
  {
    if places >= x.scale {
      var p := Pow10(places - x.scale);
      assert FloorAt(x, places + 1) == x.num * (10 * p) == 10 * (x.num * p);
    } else {
      var p := Pow10(x.scale - places - 1);
      assert Pow10(x.scale - places) == 10 * p;
      assert FloorAt(x, places + 1) == x.num / p by {
        if places + 1 == x.scale { assert p == 1; }
      }
      RoundByTenth(x.num, p);
    }
  }

  lemma RoundByTenth(n: nat, p: nat)
    requires 0 < p
    ensures RoundDiv(n, 10 * p) == (n / p + 5) / 10
  {
    var q := n / p;
    var t := (q + 5) / 10;
    var r := n % p;
    assert n == q * p + r;
    var u := (q + 5) % 10;
    assert q == 10 * t + u - 5;
    calc {
      q * p;
      (10 * t + u - 5) * p;
      10 * (t * p) + (u - 5) * p;
    }
    assert (u - 5) * p == u * p - 5 * p;
    MulMonotone(u, 9, p);
    MulMonotone(0, u, p);
    assert t * (2 * (10 * p)) == 20 * (t * p);
    DivUnique(2 * n + 10 * p, 2 * (10 * p), t);
  }

  /** Spelling does not matter: equal numbers floor and round alike at every place. */
  lemma SameNumberSameFloor(x: Exact, y: Exact, places: int)
    requires SameNumber(x, y)
    ensures FloorAt(x, places) == FloorAt(y, places)
    ensures RoundAt(x, places) == RoundAt(y, places)
  {
    if x.scale <= y.scale {
      FloorOfWidened(x, y, places);
      FloorOfWidened(x, y, places + 1);
    } else {
      FloorOfWidened(y, x, places);
      FloorOfWidened(y, x, places + 1);
    }
    RoundFromFloor(x, places);
    RoundFromFloor(y, places);
  }

  lemma FloorOfWidened(x: Exact, y: Exact, places: int)
    requires x.scale <= y.scale
    requires y.num == x.num * Pow10(y.scale - x.scale)
    ensures FloorAt(x, places) == FloorAt(y, places)
  {
    var top := if places >= y.scale then places else y.scale;
    Pow10Add(y.scale - x.scale, top - y.scale);
    calc {
      FloorAt(y, top);
      x.num * Pow10(y.scale - x.scale) * Pow10(top - y.scale);
      x.num * (Pow10(y.scale - x.scale) * Pow10(top - y.scale));
      FloorAt(x, top);
    }
    FloorAgreeBelow(x, y, top, places);
  }
}
