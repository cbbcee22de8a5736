/** Natural powers of real numbers, and bounds on very high powers proved in few steps. */
module Powers {

  function Pow(x: real, n: nat): real {
    if n == 0 then 1.0 else Pow(x, n - 1) * x
  }

  lemma MulMonotone(x: real, y: real, z: real)
    requires x <= y && z >= 0.0
    ensures x * z <= y * z && z * x <= z * y
  {
  }

  lemma {:induction false} PowPositive(x: real, n: nat)
    requires x > 0.0
    ensures Pow(x, n) > 0.0
  {
    if n > 0 {
      PowPositive(x, n - 1);
    }
  }

  lemma {:induction false} PowAdd(x: real, m: nat, n: nat)
    ensures Pow(x, m + n) == Pow(x, m) * Pow(x, n)
  {
    if n > 0 {
      PowAdd(x, m, n - 1);
      assert Pow(x, m + n) == Pow(x, m + (n - 1)) * x;
      assert Pow(x, m) * Pow(x, n - 1) * x == Pow(x, m) * (Pow(x, n - 1) * x);
    }
  }

  lemma {:induction false} PowOfPow(x: real, m: nat, n: nat)
    ensures Pow(x, m * n) == Pow(Pow(x, m), n)
  {
    if n > 0 {
      PowOfPow(x, m, n - 1);
      PowAdd(x, m * (n - 1), m);
      assert m * n == m * (n - 1) + m;
    }
  }

  lemma {:induction false} PowOfProduct(x: real, y: real, n: nat)
    ensures Pow(x * y, n) == Pow(x, n) * Pow(y, n)
  {
    if n > 0 {
      PowOfProduct(x, y, n - 1);
      var a, b := Pow(x, n - 1), Pow(y, n - 1);
      assert (a * b) * (x * y) == (a * x) * (b * y);
    }
  }

  lemma {:induction false} PowMonotone(x: real, y: real, n: nat)
    requires 0.0 < x <= y
    ensures 0.0 < Pow(x, n) <= Pow(y, n)
  {
    if n > 0 {
      PowMonotone(x, y, n - 1);
      var a, b := Pow(x, n - 1), Pow(y, n - 1);
      assert a * x <= a * y;
      assert a * y <= b * y;
      assert a * x > 0.0;
    }
  }

  /** x^n >= 1 + n (x - 1). */
  lemma {:induction false} Bernoulli(x: real, n: nat)
    requires x > 0.0
    ensures Pow(x, n) >= 1.0 + n as real * (x - 1.0)
  {
    if n > 0 {
      Bernoulli(x, n - 1);
      BernoulliStep(x, Pow(x, n - 1), (n - 1) as real);
    }
  }

  lemma BernoulliStep(x: real, p: real, m: real)
    requires x > 0.0 && m >= 0.0 && p >= 1.0 + m * (x - 1.0)
    ensures p * x >= 1.0 + (m + 1.0) * (x - 1.0)
  {
    var d := x - 1.0;
    MulMonotone(1.0 + m * d, p, x);
    MulMonotone(0.0, d * d, m);
    assert (1.0 + m * d) * x == 1.0 + m * d + d + m * (d * d);
  }

  /** Powers of a number up to 1 fall with the exponent, those of a number from 1 rise. */
  lemma {:induction false} PowInExponent(x: real, m: nat, n: nat)
    requires x > 0.0 && m <= n
    ensures x <= 1.0 ==> Pow(x, n) <= Pow(x, m)
    ensures x >= 1.0 ==> Pow(x, m) <= Pow(x, n)
  {
    if m < n {
      PowInExponent(x, m, n - 1);
      PowPositive(x, n - 1);
      var a := Pow(x, n - 1);
      assert x <= 1.0 ==> a * x <= a * 1.0;
      assert x >= 1.0 ==> a * x >= a * 1.0;
    }
  }

  /** The first n powers of x are at least a. */
  ghost predicate StaysAbove(x: real, n: nat, a: real) {
    forall k: nat :: k <= n ==> Pow(x, k) >= a
  }

  /** From the n-th on, the powers of x are at least a. */
  ghost predicate GrowsAbove(x: real, n: nat, a: real) {
    forall k: nat :: k >= n ==> Pow(x, k) >= a
  }

  lemma {:induction false} StaysAboveStart(x: real, n: nat)
    requires 0.0 < x <= 1.0
    ensures StaysAbove(x, n, 1.0 + n as real * (x - 1.0))
  {
    forall k: nat | k <= n
      ensures Pow(x, k) >= 1.0 + n as real * (x - 1.0)
    {
      Bernoulli(x, k);
      MulMonotone(k as real, n as real, 1.0 - x);
    }
  }

  lemma GrowsAboveStart(x: real, n: nat)
    requires x >= 1.0
    ensures GrowsAbove(x, n, 1.0 + n as real * (x - 1.0))
  {
    forall k: nat | k >= n
      ensures Pow(x, k) >= 1.0 + n as real * (x - 1.0)
    {
      Bernoulli(x, k);
      MulMonotone(n as real, k as real, x - 1.0);
    }
  }

  /** A bound on n powers gives one on n * j powers. */
  lemma {:induction false} StaysAboveChunk(x: real, n: nat, a: real, j: nat, b: real)
    requires 0.0 < x <= 1.0 && a > 0.0 && StaysAbove(x, n, a) && b <= Pow(a, j)
    ensures StaysAbove(x, n * j, b)
  {
    PowOfPow(x, n, j);
    PowMonotone(a, Pow(x, n), j);
    forall k: nat | k <= n * j
      ensures Pow(x, k) >= b
    {
      PowInExponent(x, k, n * j);
    }
  }

  lemma {:induction false} GrowsAboveChunk(x: real, n: nat, a: real, j: nat, b: real)
    requires x >= 1.0 && a > 0.0 && GrowsAbove(x, n, a) && b <= Pow(a, j)
    ensures GrowsAbove(x, n * j, b)
  {
    PowOfPow(x, n, j);
    PowMonotone(a, Pow(x, n), j);
    forall k: nat | k >= n * j
      ensures Pow(x, k) >= b
    {
      PowInExponent(x, n * j, k);
    }
  }

  lemma ProductRises(p: real, q: real, f: real, g: real)
    requires 0.0 <= p <= q && 0.0 <= f <= g
    ensures p * f <= q * g
  {
    MulMonotone(f, g, p);
    MulMonotone(p, q, g);
  }

  /** A number whose product with y is at most 1 is small where y is large. */
  lemma BelowInverse(x: real, y: real, least: real, bound: real)
    requires x * y <= 1.0 && 0.0 < least <= y && bound >= 0.0 && bound * least > 1.0
    ensures x < bound
  {
    if x >= bound {
      ProductRises(bound, x, least, y);
    }
  }

  /** If x and y are at most inverse to each other, so are their powers. */
  lemma PowInverse(x: real, y: real, n: nat)
    requires 0.0 < x && 0.0 < y && x * y <= 1.0
    ensures Pow(x, n) * Pow(y, n) <= 1.0
  {
    PowOfProduct(x, y, n);
    PowMonotone(x * y, 1.0, n);
    PowOfOne(n);
  }

  lemma {:induction false} PowOfOne(n: nat)
    ensures Pow(1.0, n) == 1.0
  {
    if n > 0 {
      PowOfOne(n - 1);
    }
  }
}
