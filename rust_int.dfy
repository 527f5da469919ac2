/**
 * The two pieces of Rust integer arithmetic that the bucket relies on: `/` on `i64`, which
 * truncates toward zero (unlike Dafny's Euclidean `/`), and `std::cmp::min`.
 * Integers are unbounded here; `i64` overflow is not modelled.
 */
module RustInt {

  function Abs(x: int): (r: nat)
    ensures r == x || r == -x
  {
    if x < 0 then -x else x
  }

  /** `std::cmp::min`: the smaller of the two, either one when equal. */
  function Min(a: int, b: int): (r: int)
    ensures r <= a && r <= b
    ensures r == a || r == b
  {
    if a <= b then a else b
  }

  /**
   * Rust's `a / b` on signed integers: the quotient truncated toward zero.
   * `q * b` is the multiple of `b` closest to `a` on the side of zero, so the
   * remainder `a - q * b` has the sign of `a` and is smaller than `|b|`.
   * The source panics when `b == 0`.
   */
  function Quot(a: int, b: int): (q: int)
    requires b != 0
    ensures a >= 0 ==> 0 <= q * b <= a && a - q * b < Abs(b)
    ensures a <= 0 ==> a <= q * b <= 0 && q * b - a < Abs(b)
  {
    var m := Abs(a) / Abs(b);
    var q := if (a < 0) == (b < 0) then m else -m;
    QuotMagnitude(a, b, m, q);
    q
  }

  /** The quotient of the magnitudes, signed, multiplies back to the truncated multiple. */
  lemma QuotMagnitude(a: int, b: int, m: int, q: int)
    requires b != 0
    requires m == Abs(a) / Abs(b)
    requires q == if (a < 0) == (b < 0) then m else -m
    ensures a >= 0 ==> 0 <= q * b <= a && a - q * b < Abs(b)
    ensures a <= 0 ==> a <= q * b <= 0 && q * b - a < Abs(b)
  {
    var mb := m * Abs(b);
    assert 0 <= Abs(a) - mb < Abs(b) && mb >= 0 by {
      EuclidBounds(Abs(a), Abs(b));
    }
    assert q * b == (if a < 0 then -mb else mb) by {
      SignedProduct(m, Abs(b), q, b);
    }
  }

  lemma EuclidBounds(x: nat, y: nat)
    requires y > 0
    ensures 0 <= x - (x / y) * y < y && (x / y) * y >= 0
  {
  }

  /** `q * b` is `m * |b|` up to the signs of `q` and `b`. */
  lemma SignedProduct(m: int, magB: int, q: int, b: int)
    requires q == m || q == -m
    requires magB == b || magB == -b
    ensures q * b == (if (q == m) == (magB == b) then m * magB else -(m * magB))
  {
  }

  /** The remainder conditions of `Quot` determine the quotient uniquely. */
  lemma QuotUnique(a: int, b: int, q: int)
    requires b != 0
    requires a >= 0 ==> 0 <= q * b <= a && a - q * b < Abs(b)
    requires a <= 0 ==> a <= q * b <= 0 && q * b - a < Abs(b)
    ensures q == Quot(a, b)
  {
    var q' := Quot(a, b);
    // q * b and q' * b lie in one interval shorter than |b|; as multiples of b they coincide.
    Distrib(q, q', b);
    assert Abs((q - q') * b) < Abs(b);
    NonZeroMultiple(q - q', b);
  }

  /** A non-zero multiple of `b` is at least as large as `b` in magnitude. */
  lemma NonZeroMultiple(d: int, b: int)
    ensures d != 0 ==> Abs(d * b) >= Abs(b)
  {
    AbsMul(d, b);
    if d != 0 {
      AtLeastOnce(Abs(d), Abs(b));
    }
  }

  lemma AtLeastOnce(x: int, y: nat)
    requires x >= 1
    ensures x * y >= y
  {
    assert x * y == (x - 1) * y + y;
  }

  lemma AbsMul(x: int, y: int)
    ensures Abs(x * y) == Abs(x) * Abs(y)
  {
    SignedProduct(Abs(x), Abs(y), x, y);
  }

  /** Multiplication distributes over addition and subtraction. */
  lemma Distrib(x: int, y: int, f: int)
    ensures (x + y) * f == x * f + y * f
    ensures (x - y) * f == x * f - y * f
  {
  }

  /** The sign of a multiple of a positive number. */
  lemma MulSign(k: int, b: int)
    requires b > 0
    ensures k >= 1 ==> k * b >= b
    ensures k == 0 ==> k * b == 0
    ensures k <= -1 ==> k * b <= -b
  {
    if k >= 1 {
      AtLeastOnce(k, b);
    } else if k <= -1 {
      AtLeastOnce(-k, b);
      assert (-k) * b == -(k * b);
    }
  }

  /** A dividend smaller in magnitude than the divisor truncates to zero. */
  lemma QuotOfSmall(a: int, b: int)
    requires b != 0
    requires Abs(a) < Abs(b)
    ensures Quot(a, b) == 0
  {
    QuotUnique(a, b, 0);
  }

  /** On a non-negative dividend and a positive divisor Rust's `/` agrees with Dafny's. */
  lemma QuotOfNonNegative(a: int, b: int)
    requires a >= 0 && b > 0
    ensures Quot(a, b) == a / b
  {
    QuotUnique(a, b, a / b);
  }

  /** For a positive divisor, truncating division is monotone in the dividend. */
  lemma QuotMonotone(a: int, a': int, b: int)
    requires b > 0 && a <= a'
    ensures Quot(a, b) <= Quot(a', b)
  {
    var q, q' := Quot(a, b), Quot(a', b);
    // Each multiple lies within b of its dividend on the side of zero, so q * b < q' * b + b.
    assert q * b - q' * b < b;
    Distrib(q, q', b);
    MulSign(q - q', b);
  }

  /** Removing whole multiples of a positive divisor from a non-negative dividend. */
  lemma QuotShift(a: int, k: int, b: int)
    requires b > 0 && 0 <= k * b <= a
    ensures Quot(a - k * b, b) == Quot(a, b) - k
  {
    var q := Quot(a, b);
    MulSign(k, b);
    assert k >= 0;
    QuotUnique(k * b, b, k);
    QuotMonotone(k * b, a, b);
    var d := q - k;
    MulSign(d, b);
    Distrib(q, k, b);
    QuotUnique(a - k * b, b, d);
  }
}
