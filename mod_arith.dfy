/**
 * Congruence facts modulo a positive modulus, used to carry plaintext
 * equalities through the modular arithmetic of the encryption scheme.
 * Dafny's `%` is Euclidean, which coincides with GMP's `mpz_mod` (both
 * return a value in [0, m) for m > 0).
 */
module ModArith {

  /** The quotient and remainder of a division are unique. */
  lemma ModUnique(x: int, q: int, r: int, m: int)
    requires m > 0 && 0 <= r < m
    requires x == q * m + r
    ensures x % m == r
  {
    var q0, r0 := x / m, x % m;
    assert (q - q0) * m == r0 - r;
    if q > q0 {
      MulAtLeast(q - q0, m);
    } else if q < q0 {
      MulAtLeast(q0 - q, m);
    }
  }

  lemma {:induction false} MulAtLeast(d: int, m: int)
    requires d >= 1 && m > 0
    ensures d * m >= m
    decreases d
  {
    if d > 1 {
      MulAtLeast(d - 1, m);
      assert d * m == (d - 1) * m + m;
    }
  }

  lemma ModOfMod(x: int, m: int)
    requires m > 0
    ensures (x % m) % m == x % m
  {
    ModUnique(x % m, 0, x % m, m);
  }

  /** Adding a multiple of the modulus does not change the residue. */
  lemma ModShift(x: int, k: int, m: int)
    requires m > 0
    ensures (x + k * m) % m == x % m
  {
    assert x + k * m == (x / m + k) * m + x % m;
    ModUnique(x + k * m, x / m + k, x % m, m);
  }

  /** Congruent summands give congruent sums. */
  lemma AddCong(x: int, x': int, y: int, m: int)
    requires m > 0 && x % m == x' % m
    ensures (x + y) % m == (x' + y) % m
  {
    var k := x' / m - x / m;
    assert x' == x + k * m;
    ModShift(x + y, k, m);
  }

  /** Congruent factors give congruent products. */
  lemma MulCong(x: int, x': int, y: int, m: int)
    requires m > 0 && x % m == x' % m
    ensures (x * y) % m == (x' * y) % m
  {
    var k := x' / m - x / m;
    assert x' == x + k * m;
    assert x' * y == x * y + (k * y) * m;
    ModShift(x * y, k * y, m);
  }

  /** Reducing one summand before adding does not change the residue. */
  lemma ModAddLeft(x: int, y: int, m: int)
    requires m > 0
    ensures (x % m + y) % m == (x + y) % m
  {
    ModOfMod(x, m);
    AddCong(x % m, x, y, m);
  }

  /** Reducing both summands before adding does not change the residue. */
  lemma ModAddBoth(x: int, y: int, m: int)
    requires m > 0
    ensures (x % m + y % m) % m == (x + y) % m
  {
    ModAddLeft(x, y % m, m);
    ModAddLeft(y, x, m);
    assert x + y % m == y % m + x;
  }

  /** Reducing one factor before multiplying does not change the residue. */
  lemma ModMulLeft(x: int, y: int, m: int)
    requires m > 0
    ensures ((x % m) * y) % m == (x * y) % m
  {
    ModOfMod(x, m);
    MulCong(x % m, x, y, m);
  }

  /** Reducing both factors before multiplying does not change the residue. */
  lemma ModMulBoth(x: int, y: int, m: int)
    requires m > 0
    ensures ((x % m) * (y % m)) % m == (x * y) % m
  {
    ModMulLeft(x, y % m, m);
    assert x * (y % m) == (y % m) * x;
    ModMulLeft(y, x, m);
    assert y * x == x * y;
  }

  /** Reducing every factor of a triple product does not change the residue. */
  lemma ModMulThree(x: int, y: int, z: int, m: int)
    requires m > 0
    ensures ((x % m) * (y % m) * (z % m)) % m == (x * y * z) % m
  {
    ModMulBoth(x, y, m);
    MulCong((x % m) * (y % m), x * y, z % m, m);
    ModMulLeft(z, x * y, m);
    assert (z % m) * (x * y) == (x * y) * (z % m);
    assert z * (x * y) == x * y * z;
  }

  /** Replacing the factor `x` of one summand by a congruent `x'`. */
  lemma AddScaledCong(rest: int, c: int, x: int, x': int, m: int)
    requires m > 0 && x % m == x' % m
    ensures (rest + c * x) % m == (rest + c * x') % m
  {
    MulCong(x, x', c, m);
    assert x * c == c * x && x' * c == c * x';
    AddCong(c * x, c * x', rest, m);
    assert c * x + rest == rest + c * x;
    assert c * x' + rest == rest + c * x';
  }

  /** Reducing both operands of a difference does not change the residue. */
  lemma ModSubBoth(x: int, y: int, m: int)
    requires m > 0
    ensures (x % m - y % m) % m == (x - y) % m
  {
    ModAddLeft(x, -(y % m), m);
    ModOfMod(y, m);
    AddScaledCong(x, -1, y % m, y, m);
  }
}
