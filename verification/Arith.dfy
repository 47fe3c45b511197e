/** Division with remainder, as far as the models need it. */
module Arith {
  lemma MulAtLeast(d: int, n: int)
    requires d >= 1 && n >= 1
    ensures d * n >= n
  {
  }

  lemma SmallMultiple(z: int, n: int)
    requires n >= 1 && -n < z * n < n
    ensures z == 0
  {
    if z >= 1 {
      MulAtLeast(z, n);
    } else if z <= -1 {
      assert (-z) * n == -(z * n);
      MulAtLeast(-z, n);
    }
  }

  lemma Distribute(i: int, j: int, n: int)
    ensures (i - j) * n == i * n - j * n && (i + j) * n == i * n + j * n
  {
  }

  lemma DivModUnique(a: int, n: int, q: int, r: int)
    requires n >= 1 && a == q * n + r && 0 <= r < n
    ensures a / n == q && a % n == r
  {
    var q', r' := a / n, a % n;
    assert a == q' * n + r';
    Distribute(q, q', n);
    SmallMultiple(q - q', n);
  }

  lemma MultipleMod(i: int, n: int)
    requires n >= 1
    ensures (i * n) % n == 0 && (i * n) / n == i
  {
    DivModUnique(i * n, n, i, 0);
  }

  lemma OrderFactors(i: int, j: int, n: int)
    requires n >= 1 && i * n < j * n
    ensures i < j && (i + 1) * n <= j * n
  {
    Distribute(j, i, n);
    if j - i <= 0 {
      assert (i - j) * n >= 0;
      Distribute(i, j, n);
    } else {
      MulAtLeast(j - i, n);
      Distribute(i, 1, n);
    }
  }

  /** Multiples of n are at least n apart. */
  lemma NextMultiple(a: int, b: int, n: int)
    requires n >= 1 && a % n == 0 && b % n == 0
    ensures (a + n) % n == 0 && (a < b ==> a + n <= b)
  {
    var i, j := a / n, b / n;
    assert a == i * n && b == j * n;
    Distribute(i, 1, n);
    MultipleMod(i + 1, n);
    if a < b { OrderFactors(i, j, n); }
  }

  /** Adding a multiple of n does not change the remainder. */
  lemma ModShift(a: int, i: int, n: int)
    requires n >= 1
    ensures (a + i * n) % n == a % n
  {
    Distribute(a / n, i, n);
    DivModUnique(a + i * n, n, a / n + i, a % n);
  }

  /** A multiple of n is a multiple of 4 when n is. */
  lemma MultipleOfFour(a: int, n: int)
    requires n >= 1 && a % n == 0 && n % 4 == 0
    ensures a % 4 == 0
  {
    var k, j := a / n, n / 4;
    var m := k * j;
    assert a == k * n && n == 4 * j;
    assert a == 4 * m by { assert k * (4 * j) == 4 * (k * j); }
  }
}
