/** Integer arithmetic shared by the other modules: facts about `/` and
    `%` on non-negative numbers, powers, and the `modpow` of the big-integer
    library the RSA crate calls (`BigUint::modpow`). */
module Arith {

  // ---------------------------------------------------------------------
  // Quotients and remainders

  lemma MulAtLeast(m: int, k: int)
    requires m > 0 && k >= 1
    ensures m * k >= m
  {
    assert m * k == m * (k - 1) + m;
    assert m * (k - 1) >= 0;
  }

  lemma MulLe(a: int, u: int, v: int)
    requires a >= 0 && u <= v
    ensures a * u <= a * v
  {
    assert a * v - a * u == a * (v - u);
    assert a * (v - u) >= 0;
  }

  /** Quotient and remainder are determined by `x == m * q + r`, `0 <= r < m`. */
  lemma DivModUnique(x: int, m: int, q: int, r: int)
    requires m > 0 && x == m * q + r && 0 <= r < m
    ensures x / m == q && x % m == r
  {
    var q', r' := x / m, x % m;
    assert x == m * q' + r';
    assert m * (q' - q) == r - r' by { assert m * (q' - q) == m * q' - m * q; }
    assert m * (q - q') == r' - r by { assert m * (q - q') == m * q - m * q'; }
    if q' > q {
      MulAtLeast(m, q' - q);
    } else if q' < q {
      MulAtLeast(m, q - q');
    }
  }

  lemma QuotientZero(x: nat, m: nat)
    requires m > 0
    ensures x / m == 0 <==> x < m
  {
    var q := x / m;
    assert x == m * q + x % m;
    if q != 0 {
      MulAtLeast(m, q);
    }
  }

  lemma DivDiv(x: nat, a: nat, b: nat)
    requires a > 0 && b > 0
    ensures x / a / b == x / (a * b)
    ensures x % (a * b) == a * (x / a % b) + x % a
  {
    var q1, r1 := x / a, x % a;
    var q2, r2 := q1 / b, q1 % b;
    assert x == a * q1 + r1;
    assert q1 == b * q2 + r2;
    assert a * q1 == (a * b) * q2 + a * r2 by {
      assert a * (b * q2 + r2) == a * (b * q2) + a * r2;
      assert a * (b * q2) == (a * b) * q2;
    }
    assert a * r2 + r1 < a * b by {
      MulLe(a, r2, b - 1);
      assert a * (b - 1) == a * b - a;
    }
    DivModUnique(x, a * b, q2, a * r2 + r1);
  }

  /** Multiples of `m` leave no remainder. */
  lemma MultipleMod(m: nat, k: nat)
    requires m > 0
    ensures (m * k) % m == 0 && (k * m) % m == 0
  {
    DivModUnique(m * k, m, k, 0);
    assert k * m == m * k;
  }

  /** A combination of multiples of `c` is a multiple of `c`. */
  lemma CombinationMod(x: int, y: int, s: int, t: int, c: int)
    requires c > 0 && x % c == 0 && y % c == 0
    ensures (s * x + t * y) % c == 0
  {
    var kx, ky := x / c, y / c;
    assert x == c * kx && y == c * ky;
    assert s * x == c * (s * kx) by {
      assert s * (c * kx) == c * (s * kx);
    }
    assert t * y == c * (t * ky) by {
      assert t * (c * ky) == c * (t * ky);
    }
    assert s * x + t * y == c * (s * kx + t * ky);
    DivModUnique(s * x + t * y, c, s * kx + t * ky, 0);
  }

  /** A positive multiple of `c` is at least `c`. */
  lemma MultipleAtLeast(x: int, c: int)
    requires c > 0 && x > 0 && x % c == 0
    ensures c <= x
  {
    var k := x / c;
    assert x == c * k;
    if k <= 0 {
      MulLe(c, k, 0);
    } else {
      MulAtLeast(c, k);
    }
  }

  /** The remainder of a product depends only on the factors' remainders. */
  lemma MulMod(x: nat, y: nat, m: nat)
    requires m > 0
    ensures (x * y) % m == ((x % m) * (y % m)) % m
  {
    var qx, rx := x / m, x % m;
    var qy, ry := y / m, y % m;
    var r := (rx * ry) % m;
    assert x * y == m * (qx * m * qy + qx * ry + rx * qy) + rx * ry by {
      assert x == m * qx + rx;
      assert y == m * qy + ry;
    }
    DivModUnique(x * y, m, qx * m * qy + qx * ry + rx * qy + (rx * ry) / m, r);
  }

  /** The remainder of a sum depends only on the summands' remainders. */
  lemma AddMod(x: nat, y: nat, m: nat)
    requires m > 0
    ensures (x + y) % m == ((x % m) + (y % m)) % m
  {
    var s := (x % m) + (y % m);
    DivModUnique(x + y, m, x / m + y / m + s / m, s % m);
  }

  /** Taking the remainder twice changes nothing. */
  lemma ModMod(x: nat, m: nat)
    requires m > 0
    ensures (x % m) % m == x % m
  {
    DivModUnique(x % m, m, 0, x % m);
  }

  // ---------------------------------------------------------------------
  // Powers

  function Pow(b: nat, e: nat): nat {
    if e == 0 then 1 else b * Pow(b, e - 1)
  }

  /** `BigUint::modpow`: `b^e mod m`; the library panics on a zero modulus. */
  function ModPow(b: nat, e: nat, m: nat): (r: nat)
    requires m > 0
    ensures r < m
  {
    Pow(b, e) % m
  }

  lemma {:induction false} PowPositive(b: nat, e: nat)
    requires b > 0
    ensures Pow(b, e) > 0
  {
    if e > 0 {
      PowPositive(b, e - 1);
    }
  }

  lemma {:induction false} PowAdd(b: nat, x: nat, y: nat)
    ensures Pow(b, x + y) == Pow(b, x) * Pow(b, y)
    decreases x
  {
    if x > 0 {
      PowAdd(b, x - 1, y);
      assert Pow(b, x + y) == b * (Pow(b, x - 1) * Pow(b, y));
      assert b * (Pow(b, x - 1) * Pow(b, y)) == (b * Pow(b, x - 1)) * Pow(b, y);
    }
  }

  lemma {:induction false} PowMul(b: nat, x: nat, y: nat)
    ensures Pow(b, x * y) == Pow(Pow(b, x), y)
    decreases y
  {
    if y > 0 {
      PowMul(b, x, y - 1);
      assert x * y == x + x * (y - 1);
      PowAdd(b, x, x * (y - 1));
    }
  }

  lemma MulSwap(a: int, b: int, x: int, y: int)
    ensures (a * b) * (x * y) == (a * x) * (b * y)
  {
    assert (a * b) * (x * y) == a * (b * (x * y));
    assert b * (x * y) == x * (b * y);
    assert a * (x * (b * y)) == (a * x) * (b * y);
  }

  lemma {:induction false} PowOfProduct(a: nat, b: nat, e: nat)
    ensures Pow(a * b, e) == Pow(a, e) * Pow(b, e)
  {
    if e > 0 {
      PowOfProduct(a, b, e - 1);
      var x, y := Pow(a, e - 1), Pow(b, e - 1);
      assert Pow(a * b, e) == (a * b) * (x * y);
      MulSwap(a, b, x, y);
    }
  }

  /** The remainder of a power depends only on the base's remainder. */
  lemma {:induction false} PowMod(b: nat, e: nat, m: nat)
    requires m > 0
    ensures Pow(b % m, e) % m == Pow(b, e) % m
  {
    if e > 0 {
      PowMod(b, e - 1, m);
      MulMod(b % m, Pow(b % m, e - 1), m);
      MulMod(b, Pow(b, e - 1), m);
      ModMod(b, m);
    }
  }

  lemma {:induction false} PowOne(e: nat)
    ensures Pow(1, e) == 1
  {
    if e > 0 {
      PowOne(e - 1);
    }
  }

  /** `x ≡ 1 (mod m)` for a positive modulus `m`. */
  predicate OneModulo(x: int, m: int) {
    m > 0 && x % m == 1
  }

  /** Raising to `e` and then to `d` modulo `n` is raising to `e * d`. */
  lemma ModPowTwice(m: nat, e: nat, d: nat, n: nat)
    requires n > 0
    ensures ModPow(ModPow(m, e, n), d, n) == Pow(m, e * d) % n
  {
    PowMod(Pow(m, e), d, n);
    PowMul(m, e, d);
  }
}
