/** The number theory the RSA crate relies on without stating it: primes,
    Euclid's lemma (from the Bézout identity `ext_euc` computes), Fermat's
    little theorem, the square roots of 1 modulo a prime, and from these the
    soundness of the Fermat and Miller–Rabin filters of `is_prime` on primes
    and the correctness of textbook RSA. */
module NumberTheory {
  import opened Arith
  import opened Algorithms

  predicate Prime(p: nat) {
    p > 1 && forall k :: 1 < k < p ==> p % k != 0
  }

  /** Numbers with equal remainders differ by a multiple. */
  lemma ModDiff(x: nat, y: nat, m: nat)
    requires m > 0 && y <= x && x % m == y % m
    ensures (x - y) % m == 0
  {
    assert x - y == m * (x / m - y / m) by {
      assert x == m * (x / m) + x % m;
      assert y == m * (y / m) + y % m;
    }
    DivModUnique(x - y, m, x / m - y / m, 0);
  }

  /** Below the modulus a number is its own remainder. */
  lemma SmallMod(x: nat, m: nat)
    requires x < m
    ensures x % m == x
  {
    DivModUnique(x, m, 0, x);
  }

  /** Euclid's lemma: a prime dividing a product divides a factor. */
  lemma EuclidLemma(p: nat, a: nat, b: nat)
    requires Prime(p) && (a * b) % p == 0
    ensures a % p == 0 || b % p == 0
  {
    var r := a % p;
    if r != 0 {
      ExtEucGcd(r, p);
      ExtEucBezout(r, p);
      var (s, t, g) := ExtEucOf(r, p);
      MultipleAtLeast(p, g);
      SmallMod(r, p);
      assert g == 1;
      assert b == s * (r * b) + (t * b) * p by {
        assert (s * r + t * p) * b == s * (r * b) + (t * b) * p;
      }
      MulMod(a, b, p);
      MulMod(r, b, p);
      ModMod(a, p);
      MultipleMod(p, 1);
      CombinationMod(r * b, p, s, t * b, p);
    }
  }

  /** A prime dividing neither factor does not divide the product. */
  lemma ProductNotMultiple(p: nat, a: nat, b: nat)
    requires Prime(p) && a % p != 0 && b % p != 0
    ensures (a * b) % p != 0
  {
    if (a * b) % p == 0 {
      EuclidLemma(p, a, b);
      assert false;
    }
  }

  // ---------------------------------------------------------------------
  // Products of residues

  function Prod(s: seq<nat>): nat {
    if s == [] then 1 else s[0] * Prod(s[1..])
  }

  function Fact(n: nat): nat {
    if n == 0 then 1 else n * Fact(n - 1)
  }

  predicate Distinct(s: seq<nat>) {
    forall i, j :: 0 <= i < j < |s| ==> s[i] != s[j]
  }

  /** Every element lies in `1..n`. */
  predicate InRange(s: seq<nat>, n: nat) {
    forall i :: 0 <= i < |s| ==> 1 <= s[i] <= n
  }

  function RemoveAt(s: seq<nat>, j: nat): (r: seq<nat>)
    requires j < |s|
    ensures |r| == |s| - 1
  {
    s[..j] + s[j + 1..]
  }

  /** Taking out the element at `j` divides it out of the product. */
  lemma {:induction false} ProdRemove(s: seq<nat>, j: nat)
    requires j < |s|
    ensures Prod(s) == s[j] * Prod(RemoveAt(s, j))
  {
    if j == 0 {
      assert RemoveAt(s, 0) == s[1..];
    } else {
      var rest := s[1..];
      ProdRemove(rest, j - 1);
      assert RemoveAt(s, j) == [s[0]] + RemoveAt(rest, j - 1);
      assert ([s[0]] + RemoveAt(rest, j - 1))[1..] == RemoveAt(rest, j - 1);
      var y := Prod(RemoveAt(rest, j - 1));
      assert Prod(s) == s[0] * (rest[j - 1] * y);
      assert Prod(RemoveAt(s, j)) == s[0] * y;
      assert s[0] * (rest[j - 1] * y) == rest[j - 1] * (s[0] * y);
    }
  }

  /** Removing the one occurrence of `n` leaves a distinct sequence in
      `1..n-1`. */
  lemma RemoveLargest(t: seq<nat>, n: nat, j: nat)
    requires Distinct(t) && InRange(t, n) && j < |t| && t[j] == n
    ensures Distinct(RemoveAt(t, j)) && InRange(RemoveAt(t, j), n - 1)
  {
    var r := RemoveAt(t, j);
    forall i | 0 <= i < |r|
      ensures r[i] == if i < j then t[i] else t[i + 1]
    {
    }
  }

  lemma InRangeBound(t: seq<nat>, m: nat)
    requires InRange(t, m) && t != []
    ensures m >= 1
  {
    assert 1 <= t[0] <= m;
  }

  /** A distinct sequence drawn from `1..m` has at most `m` elements. */
  lemma {:induction false} Pigeonhole(t: seq<nat>, m: nat)
    requires Distinct(t) && InRange(t, m)
    ensures |t| <= m
    decreases m
  {
    if t != [] {
      InRangeBound(t, m);
    }
    if m == 0 {
    } else if j :| 0 <= j < |t| && t[j] == m {
      RemoveLargest(t, m, j);
      Pigeonhole(RemoveAt(t, j), m - 1);
    } else {
      assert InRange(t, m - 1);
      Pigeonhole(t, m - 1);
    }
  }

  /** A distinct sequence of `n` elements drawn from `1..n` multiplies to
      `n!`: it is a permutation of `1..n`. */
  lemma {:induction false} DistinctProduct(t: seq<nat>, n: nat)
    requires Distinct(t) && InRange(t, n) && |t| == n
    ensures Prod(t) == Fact(n)
    decreases n
  {
    if n > 0 {
      if j :| 0 <= j < |t| && t[j] == n {
        RemoveLargest(t, n, j);
        DistinctProduct(RemoveAt(t, j), n - 1);
        ProdRemove(t, j);
      } else {
        assert InRange(t, n - 1);
        Pigeonhole(t, n - 1);
        assert false;
      }
    }
  }

  /** `1, 2, ..., n`. */
  function Range(n: nat): (r: seq<nat>)
    ensures |r| == n && Distinct(r) && InRange(r, n)
  {
    seq(n, i => i + 1)
  }

  /** Every element multiplied by `a`, modulo `p`. */
  function Scaled(a: nat, p: nat, s: seq<nat>): (r: seq<nat>)
    requires p > 0
    ensures |r| == |s|
  {
    seq(|s|, i requires 0 <= i < |s| => (a * s[i]) % p)
  }

  /** Scaling every factor by `a` scales the product by `a^|s|`. */
  lemma {:induction false} ScaledProduct(a: nat, p: nat, s: seq<nat>)
    requires p > 0
    ensures Prod(Scaled(a, p, s)) % p == (Pow(a, |s|) * Prod(s)) % p
  {
    if s != [] {
      var rest := s[1..];
      assert Scaled(a, p, s)[1..] == Scaled(a, p, rest);
      ScaledProduct(a, p, rest);
      var u := (a * s[0]) % p;
      var v := Prod(Scaled(a, p, rest));
      var w := Pow(a, |rest|) * Prod(rest);
      assert Prod(Scaled(a, p, s)) == u * v;
      MulMod(u, v, p);
      ModMod(a * s[0], p);
      MulMod(a * s[0], w, p);
      assert (a * s[0]) * w == Pow(a, |s|) * Prod(s) by {
        assert (a * s[0]) * (Pow(a, |rest|) * Prod(rest)) == (a * Pow(a, |rest|)) * (s[0] * Prod(rest));
      }
    }
  }

  /** Multiplying `1..p-1` by a unit modulo `p` permutes it. */
  lemma ScaledIsPermutation(a: nat, p: nat)
    requires Prime(p) && a % p != 0
    ensures Distinct(Scaled(a, p, Range(p - 1))) && InRange(Scaled(a, p, Range(p - 1)), p - 1)
  {
    var r := Range(p - 1);
    var t := Scaled(a, p, r);
    forall i | 0 <= i < |t|
      ensures 1 <= t[i] <= p - 1
    {
      SmallMod(r[i], p);
      ProductNotMultiple(p, a, r[i]);
    }
    forall i, j | 0 <= i < j < |t|
      ensures t[i] != t[j]
    {
      var d := r[j] - r[i];
      if t[i] == t[j] {
        assert a * r[j] - a * r[i] == a * d;
        ModDiff(a * r[j], a * r[i], p);
        SmallMod(d, p);
        ProductNotMultiple(p, a, d);
        assert false;
      }
    }
  }

  /** `(p-1)!` is not a multiple of the prime `p`. */
  lemma {:induction false} FactNotMultiple(p: nat, n: nat)
    requires Prime(p) && n < p
    ensures Fact(n) % p != 0
  {
    if n == 0 {
      SmallMod(1, p);
    } else {
      FactNotMultiple(p, n - 1);
      SmallMod(n, p);
      ProductNotMultiple(p, n, Fact(n - 1));
    }
  }

  /** Fermat's little theorem: `a^(p-1) mod p == 1` for a prime `p` not
      dividing `a`. */
  lemma FermatLittle(p: nat, a: nat)
    requires Prime(p) && a % p != 0
    ensures Pow(a, p - 1) % p == 1
  {
    var r := Range(p - 1);
    ScaledIsPermutation(a, p);
    DistinctProduct(Scaled(a, p, r), p - 1);
    DistinctProduct(r, p - 1);
    ScaledProduct(a, p, r);
    var f, x := Fact(p - 1), Pow(a, p - 1);
    var u := x % p;
    MulMod(x, f, p);
    MulMod(u, f, p);
    ModMod(x, p);
    FactNotMultiple(p, p - 1);
    CancelUnit(p, u, f);
  }

  /** A residue that leaves a non-multiple of `p` unchanged is 1. */
  lemma CancelUnit(p: nat, u: nat, f: nat)
    requires Prime(p) && u < p && f % p != 0 && (u * f) % p == f % p
    ensures u == 1
  {
    assert u != 0;
    assert u * f - f == (u - 1) * f;
    ModDiff(u * f, f, p);
    EuclidLemma(p, u - 1, f);
    SmallMod(u - 1, p);
  }

  /** Modulo a prime, 1 has only the square roots 1 and `p - 1`. */
  lemma SquareRootOfOne(p: nat, x: nat)
    requires Prime(p) && x < p && Pow(x, 2) % p == 1
    ensures x == 1 || x == p - 1
  {
    assert Pow(x, 1) == x;
    assert Pow(x, 2) == x * x;
    SmallMod(1, p);
    assert x != 0;
    DifferenceOfSquares(x);
    ModDiff(x * x, 1, p);
    EuclidLemma(p, x - 1, x + 1);
    SmallMod(x - 1, p);
    if x + 1 < p {
      SmallMod(x + 1, p);
    }
  }

  lemma DifferenceOfSquares(x: nat)
    requires x >= 1
    ensures x * x - 1 == (x - 1) * (x + 1)
  {
  }

  // ---------------------------------------------------------------------
  // The primality filter accepts primes

  /** The Fermat test passes on a prime for every witness but 0. */
  lemma FermatAcceptsPrimes(p: nat, a: nat)
    requires Prime(p) && 0 < a < p
    ensures FermatTest(p, a)
  {
    SmallMod(a, p);
    FermatLittle(p, a);
  }

  /** ... and it fails for the witness 0, which `gen_biguint_below(p)` can
      draw: then `is_prime` rejects even a prime. */
  lemma FermatRejectsZero(p: nat)
    requires p > 1
    ensures !FermatTest(p, 0)
  {
    assert Pow(0, p - 1) == 0 * Pow(0, p - 2);
  }

  /** If squaring `x` repeatedly reaches 1 after `steps + 1` squarings, then
      `x` is ±1 or the squaring loop meets `p - 1` before it meets 1. */
  lemma {:induction false} SquaringChain(p: nat, x: nat, steps: nat)
    requires Prime(p) && x < p && Pow(x, Pow(2, steps + 1)) % p == 1
    ensures x == 1 || x == p - 1 || SquaringPasses(x, p, steps)
    decreases steps
  {
    var y := ModPow(x, 2, p);
    if steps == 0 {
      assert Pow(2, 1) == 2;
      SquareRootOfOne(p, x);
    } else {
      SquareStep(p, x, steps);
      SquaringChain(p, y, steps - 1);
      if y == 1 {
        SquareRootOfOne(p, x);
      }
    }
  }

  /** Squaring once and then `steps` times is squaring `steps + 1` times. */
  lemma SquareStep(p: nat, x: nat, steps: nat)
    requires p > 0
    ensures Pow(ModPow(x, 2, p), Pow(2, steps)) % p == Pow(x, Pow(2, steps + 1)) % p
  {
    PowMod(Pow(x, 2), Pow(2, steps), p);
    PowMul(x, 2, Pow(2, steps));
    assert 2 * Pow(2, steps) == Pow(2, steps + 1);
  }

  /** Every round with a witness other than 0 and `±1` passes on an odd prime. */
  lemma WitnessAcceptsPrime(p: nat, a: nat)
    requires Prime(p) && p > 2 && p % 2 == 1 && 0 < a < p
    ensures var (d, s) := Halving(p - 1); s > 0 && WitnessPasses(p, d, s, a)
  {
    HalvingOdd(p);
    HalvingFactors(p - 1);
    var (d, s) := Halving(p - 1);
    var x := ModPow(a, d, p);
    calc {
      Pow(x, Pow(2, s)) % p;
      { PowMod(Pow(a, d), Pow(2, s), p); }
      Pow(Pow(a, d), Pow(2, s)) % p;
      { PowMul(a, d, Pow(2, s)); }
      Pow(a, p - 1) % p;
      { FermatAcceptsPrimes(p, a); }
      1;
    }
    SquaringChain(p, x, s - 1);
  }

  /** `miller_rabin_test` never rejects an odd prime when the witnesses come
      from `2..p-2`, the range the source draws them from. */
  lemma MillerRabinAcceptsPrimes(p: nat, witnesses: seq<nat>)
    requires Prime(p) && p % 2 == 1 && WitnessesInRange(p, witnesses)
    ensures MillerRabinOf(p, witnesses)
  {
    HalvingOdd(p);
    forall i | 0 <= i < |witnesses|
      ensures WitnessPasses(p, Halving(p - 1).0, Halving(p - 1).1, witnesses[i])
    {
      WitnessAcceptsPrime(p, witnesses[i]);
    }
  }

  /** `is_prime` accepts an odd prime exactly when its Fermat witness is not
      0, given Miller–Rabin witnesses from the range the source draws. */
  lemma IsPrimeOnPrimes(p: nat, fermatBase: nat, witnesses: seq<nat>)
    requires Prime(p) && p % 2 == 1 && fermatBase < p && WitnessesInRange(p, witnesses)
    ensures IsPrimeOf(p, fermatBase, witnesses) <==> fermatBase != 0
  {
    if fermatBase == 0 {
      FermatRejectsZero(p);
    } else {
      FermatAcceptsPrimes(p, fermatBase);
      MillerRabinAcceptsPrimes(p, witnesses);
    }
  }

  // ---------------------------------------------------------------------
  // Textbook RSA

  /** `m^(1 + k(p-1)) ≡ m (mod p)` for a prime `p`, multiples of `p`
      included. */
  lemma PowCongruence(p: nat, m: nat, k: nat)
    requires Prime(p)
    ensures Pow(m, 1 + k * (p - 1)) % p == m % p
  {
    var x := Pow(m, k * (p - 1));
    PowAdd(m, 1, k * (p - 1));
    assert Pow(m, 1) == m;
    MulMod(m, x, p);
    if m % p != 0 {
      assert k * (p - 1) == (p - 1) * k;
      PowMul(m, p - 1, k);
      PowMod(Pow(m, p - 1), k, p);
      FermatLittle(p, m);
      PowOne(k);
      SmallMod(1, p);
      ModMod(m, p);
    }
  }

  /** The remainder modulo a factor of `n` survives reducing modulo `n`. */
  lemma ModOfMod(x: nat, p: nat, q: nat)
    requires p > 0 && q > 0
    ensures (x % (p * q)) % p == x % p
  {
    var n := p * q;
    var r := x % n;
    assert x == p * (q * (x / n)) + r by {
      assert x == n * (x / n) + r;
      assert n * (x / n) == p * (q * (x / n));
    }
    assert r == p * (r / p) + r % p;
    assert x == p * (q * (x / n) + r / p) + r % p;
    DivModUnique(x, p, q * (x / n) + r / p, r % p);
  }

  /** A prime divides another prime only when they are equal. */
  lemma PrimeDividesPrime(p: nat, q: nat)
    requires Prime(p) && Prime(q) && p % q == 0
    ensures p == q
  {
    MultipleAtLeast(p, q);
  }

  /** A multiple of the distinct primes `p` and `q` below `p * q` is 0. */
  lemma BothMultiples(p: nat, q: nat, d: nat)
    requires Prime(p) && Prime(q) && p != q
    requires d < p * q && d % p == 0 && d % q == 0
    ensures d == 0
  {
    var k := d / p;
    assert d == p * k;
    if p % q == 0 {
      PrimeDividesPrime(p, q);
      assert false;
    }
    EuclidLemma(q, p, k);
    var j := k / q;
    assert d == (p * q) * j by {
      assert k == q * j;
    }
    if j > 0 {
      MulAtLeast(p * q, j);
      assert false;
    }
  }

  /** Two numbers below `p * q` that agree modulo the distinct primes `p`
      and `q` are equal. */
  lemma ChineseRemainder(p: nat, q: nat, x: nat, y: nat)
    requires Prime(p) && Prime(q) && p != q
    requires x < p * q && y < p * q && x % p == y % p && x % q == y % q
    ensures x == y
  {
    var lo, hi := if y <= x then y else x, if y <= x then x else y;
    assert hi - lo < p * q;
    ModDiff(hi, lo, p);
    ModDiff(hi, lo, q);
    BothMultiples(p, q, hi - lo);
  }

  lemma NatMul(a: nat, b: nat)
    ensures a * b >= 0
  {
  }

  lemma Regroup(k: nat, a: nat, b: nat)
    ensures k * (a * b) == (k * b) * a
  {
  }

  /** Exponents `≡ 1` modulo a multiple of `p - 1` fix every residue
      modulo the prime `p`. */
  lemma ExponentModPrime(p: nat, r: nat, x: nat, m: nat)
    requires Prime(p) && r > 0 && OneModulo(x, (p - 1) * r)
    ensures Pow(m, x) % p == m % p
  {
    var k := x / ((p - 1) * r);
    assert x == 1 + k * ((p - 1) * r);
    NatMul(k, r);
    Regroup(k, p - 1, r);
    PowCongruence(p, m, k * r);
  }

  /** Reducing `m^(ed)` modulo `p * q` keeps its residue modulo the prime
      `p`, and that residue is `m`'s. */
  lemma RsaResidue(p: nat, q: nat, ed: nat, m: nat)
    requires Prime(p) && q > 1 && OneModulo(ed, (p - 1) * (q - 1))
    ensures (Pow(m, ed) % (p * q)) % p == m % p
  {
    ExponentModPrime(p, q - 1, ed, m);
    ModOfMod(Pow(m, ed), p, q);
  }

  /** Textbook RSA decrypts what it encrypts: for distinct primes `p`, `q`,
      `e * d ≡ 1 (mod (p-1)(q-1))` and `m < p * q`,
      `(m^e mod n)^d mod n == m` with `n = p * q`. */
  lemma RsaCorrect(p: nat, q: nat, e: nat, d: nat, m: nat)
    requires Prime(p) && Prime(q) && p != q && m < p * q
    requires OneModulo(e * d, (p - 1) * (q - 1))
    ensures ModPow(ModPow(m, e, p * q), d, p * q) == m
  {
    var n, ed := p * q, e * d;
    ModPowTwice(m, e, d, n);
    RsaResidue(p, q, ed, m);
    assert (q - 1) * (p - 1) == (p - 1) * (q - 1);
    assert q * p == n;
    RsaResidue(q, p, ed, m);
    ChineseRemainder(p, q, Pow(m, ed) % n, m);
  }
}
