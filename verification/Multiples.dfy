/** Multiples and powers of two, on unbounded numbers. */
module Multiples {

  predicate PowerOfTwo(n: nat) {
    n == 1 || (n > 1 && n % 2 == 0 && PowerOfTwo(n / 2))
  }

  lemma {:induction false} PowersDivide(a: nat, b: nat)
    requires PowerOfTwo(a) && PowerOfTwo(b) && a <= b
    ensures b % a == 0
  {
    if a > 1 {
      PowersDivide(a / 2, b / 2);
      var q := b / 2 / (a / 2);
      assert b / 2 == (a / 2) * q;
      Associate(2, a / 2, q);
      MultipleOf(a, q);
    }
  }

  lemma TimesAtLeast(a: int, t: int)
    requires a >= 0 && t >= 1
    ensures a * t >= a
  {
    assert a * t == a * (t - 1) + a;
  }

  lemma MultipleOf(a: int, k: int)
    requires a > 0
    ensures (a * k) % a == 0
  {
    var q, r := (a * k) / a, (a * k) % a;
    assert a * k == a * q + r;
    Distribute(a, k, q);
    if k - q >= 1 {
      TimesAtLeast(a, k - q);
    } else if q - k >= 1 {
      TimesAtLeast(a, q - k);
    }
  }

  lemma Distribute(a: int, k: int, q: int)
    ensures a * (k - q) == a * k - a * q && a * (q - k) == a * q - a * k
  {
  }

  lemma Associate(a: int, q: int, k: int)
    ensures (a * q) * k == a * (q * k)
  {
  }

  lemma DividesThrough(a: nat, b: nat, n: nat)
    requires a > 0 && b > 0 && b % a == 0 && n % b == 0
    ensures n % a == 0
  {
    var q, k := b / a, n / b;
    assert b == a * q && n == b * k;
    Associate(a, q, k);
    MultipleOf(a, q * k);
  }

  /** r is the least multiple of `step` that is not below n. */
  predicate IsLeastMultiple(r: nat, step: nat, n: nat)
    requires step > 0
  {
    r % step == 0 && r >= n && forall m: nat | m % step == 0 && m >= n :: r <= m
  }

  /** Multiples of a step differ by at least the step. */
  lemma MultiplesApart(a: nat, b: nat, step: nat)
    requires step > 0 && a % step == 0 && b % step == 0 && a < b
    ensures a + step <= b
  {
    var i, j := a / step, b / step;
    assert a == step * i && b == step * j;
    Distribute(step, j, i);
    if j - i < 1 {
      TimesAtLeast(step, 1 - (j - i));
      Distribute(step, i, j);
    } else {
      TimesAtLeast(step, j - i);
    }
  }

  /** Scaling a least multiple scales the step and the number. */
  lemma ScaledLeast(r: nat, step: nat, n: nat, p: nat)
    requires p > 0 && step > 0 && IsLeastMultiple(r, step, n)
    ensures step * p > 0 && IsLeastMultiple(r * p, step * p, n * p)
  {
    var k := r / step;
    assert r == step * k;
    TimesAtLeast(step, p);
    Associate(step, p, k);
    Associate(step, k, p);
    assert r * p == (step * p) * k;
    MultipleOf(step * p, k);
    Ordered(n, r, p);
    forall m: nat | m % (step * p) == 0 && m >= n * p
      ensures r * p <= m
    {
      var j := m / (step * p);
      assert m == (step * p) * j;
      Associate(step, p, j);
      Associate(step, j, p);
      assert m == (step * j) * p;
      MultipleOf(step, j);
      if step * j < n {
        Ordered(step * j + 1, n, p);
      }
      Ordered(r, step * j, p);
    }
  }

  lemma Ordered(a: nat, b: nat, p: nat)
    requires a <= b
    ensures a * p <= b * p
  {
  }

  lemma AtMost(r: nat, step: nat, n: nat, m: nat)
    requires step > 0 && IsLeastMultiple(r, step, n) && m % step == 0 && m >= n
    ensures n <= r <= m && r % step == 0
  {
  }

  /** Among powers of two the least multiple is the larger of the two. */
  lemma LeastOfPowers(r: nat, step: nat, n: nat)
    requires PowerOfTwo(step) && PowerOfTwo(n) && IsLeastMultiple(r, step, n)
    ensures r == if n < step then step else n
  {
    hide IsLeastMultiple, PowerOfTwo;
    if n < step {
      AtMost(r, step, n, step);
      PositivePower(n);
      if r < step {
        MultiplesApart(0, r, step);
      }
    } else {
      PositivePower(step);
      PowersDivide(step, n);
      AtMost(r, step, n, n);
    }
  }

  lemma PositivePower(n: nat)
    requires PowerOfTwo(n)
    ensures n > 0
  {
  }

  lemma {:induction false} PowersMultiply(a: nat, b: nat)
    requires PowerOfTwo(a) && PowerOfTwo(b)
    ensures PowerOfTwo(a * b)
  {
    if a > 1 {
      PowersMultiply(a / 2, b);
      Associate(2, a / 2, b);
      assert a * b == 2 * (a / 2 * b);
    }
  }
}
