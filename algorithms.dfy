/** The number theory of the RSA crate (proj/rsa/src/algorithms.rs): the
    iterative extended Euclidean algorithm over `BigInt`, and the primality
    filter (parity guard, one Fermat witness, Miller–Rabin rounds) over
    `BigUint`. The witnesses the source draws at random are parameters. */
module Algorithms {
  import opened Arith

  function Abs(x: int): nat {
    if x < 0 then -x else x
  }

  /** `/` on `BigInt`: the quotient rounded toward zero. The remainder it
      leaves is smaller than the divisor in magnitude and, when not zero,
      has the sign of the dividend; on non-negative operands it is
      Euclidean division. */
  function TruncDiv(x: int, y: int): (q: int)
    requires y != 0
    ensures Abs(x - q * y) < Abs(y)
    ensures x - q * y == 0 || ((x - q * y < 0) <==> (x < 0))
    ensures x >= 0 && y > 0 ==> q == x / y
  {
    var n, m := Abs(x), Abs(y);
    var q0 := n / m;
    assert n == m * q0 + n % m;
    if (x >= 0) == (y > 0) then
      assert x - q0 * y == (if x >= 0 then n % m else -(n % m));
      q0
    else
      assert x + q0 * y == (if x >= 0 then n % m else -(n % m));
      assert x - (-q0) * y == x + q0 * y;
      -q0
  }

  /** `^` on `BigInt`, which `ext_euc` applies only when one operand is zero;
      XOR with zero leaves the other operand. */
  function XorWithZero(a: int, b: int): int
    requires a == 0 || b == 0
  {
    if a == 0 then b else a
  }

  // ---------------------------------------------------------------------
  // ext_euc

  /** The `while !r2.is_zero()` loop of `ext_euc`, from the given values of
      its six variables; it yields `(s1, t1, r1)` on exit. */
  function EuclidLoop(r1: int, r2: int, s1: int, s2: int, t1: int, t2: int): (int, int, int)
    decreases Abs(r2)
  {
    if r2 == 0 then (s1, t1, r1)
    else
      var q := TruncDiv(r1, r2);
      EuclidLoop(r2, r1 - q * r2, s2, s1 - q * s2, t2, t1 - q * t2)
  }

  /** What `ext_euc(a, b)` returns: `(s, t, g)`. */
  function ExtEucOf(a: int, b: int): (int, int, int) {
    if a == 0 || b == 0 then (XorWithZero(a, b), 0, 1)
    else EuclidLoop(a, b, 1, 0, 0, 1)
  }

  /** One step of the loop keeps a remainder a combination of `a` and `b`. */
  lemma BezoutStep(a: int, b: int, q: int, r1: int, r2: int, s1: int, s2: int, t1: int, t2: int)
    requires r1 == s1 * a + t1 * b && r2 == s2 * a + t2 * b
    ensures r1 - q * r2 == (s1 - q * s2) * a + (t1 - q * t2) * b
  {
    assert q * r2 == (q * s2) * a + (q * t2) * b by {
      assert q * (s2 * a + t2 * b) == q * (s2 * a) + q * (t2 * b);
    }
    assert (s1 - q * s2) * a == s1 * a - (q * s2) * a;
    assert (t1 - q * t2) * b == t1 * b - (q * t2) * b;
  }

  lemma {:induction false} EuclidLoopBezout(a: int, b: int, r1: int, r2: int, s1: int, s2: int, t1: int, t2: int)
    requires r1 == s1 * a + t1 * b && r2 == s2 * a + t2 * b
    ensures var (s, t, g) := EuclidLoop(r1, r2, s1, s2, t1, t2); g == s * a + t * b
    decreases Abs(r2)
  {
    if r2 != 0 {
      var q := TruncDiv(r1, r2);
      BezoutStep(a, b, q, r1, r2, s1, s2, t1, t2);
      EuclidLoopBezout(a, b, r2, r1 - q * r2, s2, s1 - q * s2, t2, t1 - q * t2);
    }
  }

  /** On non-negative remainders the loop ends on a positive common divisor
      of the two remainders it started from. */
  lemma {:induction false} EuclidLoopDivides(r1: int, r2: int, s1: int, s2: int, t1: int, t2: int)
    requires r1 > 0 && r2 >= 0
    ensures var g := EuclidLoop(r1, r2, s1, s2, t1, t2).2; g > 0 && r1 % g == 0 && r2 % g == 0
    decreases r2
  {
    if r2 == 0 {
      MultipleMod(r1, 1);
    } else {
      var q := TruncDiv(r1, r2);
      var r := r1 - q * r2;
      assert r == r1 % r2 by {
        assert r1 == r2 * q + r1 % r2;
      }
      EuclidLoopDivides(r2, r, s2, s1 - q * s2, t2, t1 - q * t2);
      var g := EuclidLoop(r1, r2, s1, s2, t1, t2).2;
      assert r1 == q * r2 + 1 * r;
      CombinationMod(r2, r, q, 1, g);
    }
  }

  /** `as + bt = gcd(a, b)`: for non-zero arguments of any sign the result
      satisfies Bézout's identity. */
  lemma ExtEucBezout(a: int, b: int)
    requires a != 0 && b != 0
    ensures var (s, t, g) := ExtEucOf(a, b); s * a + t * b == g
  {
    EuclidLoopBezout(a, b, a, b, 1, 0, 0, 1);
  }

  /** For positive arguments the third component is the greatest common
      divisor: a positive common divisor that every common divisor divides. */
  lemma ExtEucGcd(a: int, b: int)
    requires a > 0 && b > 0
    ensures var (s, t, g) := ExtEucOf(a, b);
      g > 0 && a % g == 0 && b % g == 0 &&
      forall c :: c > 0 && a % c == 0 && b % c == 0 ==> g % c == 0 && c <= g
  {
    var (s, t, g) := ExtEucOf(a, b);
    EuclidLoopDivides(a, b, 1, 0, 0, 1);
    ExtEucBezout(a, b);
    forall c | c > 0 && a % c == 0 && b % c == 0
      ensures g % c == 0 && c <= g
    {
      CombinationMod(a, b, s, t, c);
      MultipleAtLeast(g, c);
    }
  }

  /** The example the source checks: `ext_euc(240, 46) == (-9, 47, 2)`. */
  lemma ExtEucExample()
    ensures ExtEucOf(240, 46) == (-9, 47, 2)
  {
    assert TruncDiv(240, 46) == 5;
    assert TruncDiv(46, 10) == 4;
    assert TruncDiv(10, 6) == 1;
    assert TruncDiv(6, 4) == 1;
    assert TruncDiv(4, 2) == 2;
  }

  /** With a zero argument the result is `(a XOR b, 0, 1)`: the non-zero
      argument lands in the first slot and 1 in the gcd slot, so Bézout's
      identity holds only when `b` is zero and `a` is a unit. */
  lemma ExtEucZeroCase(a: int, b: int)
    requires a == 0 || b == 0
    ensures var (s, t, g) := ExtEucOf(a, b);
      s == a + b && t == 0 && g == 1 &&
      (s * a + t * b == g <==> b == 0 && (a == 1 || a == -1))
  {
    var s := a + b;
    if b == 0 && s * a == 1 {
      if a > 1 {
        MulAtLeast(a, a);
      } else if a < -1 {
        MulAtLeast(-a, -a);
      }
    }
  }

  /** `ext_euc`. */
  method ExtEuc(a: int, b: int) returns (s: int, t: int, g: int)
    ensures (s, t, g) == ExtEucOf(a, b)
  {
    var r1, r2 := a, b;
    if r1 == 0 || r2 == 0 {
      return XorWithZero(r1, r2), 0, 1;
    }
    var s1, s2 := 1, 0;
    var t1, t2 := 0, 1;
    while r2 != 0
      invariant r1 == s1 * a + t1 * b && r2 == s2 * a + t2 * b
      invariant EuclidLoop(r1, r2, s1, s2, t1, t2) == ExtEucOf(a, b)
      decreases Abs(r2)
    {
      var q := TruncDiv(r1, r2);
      BezoutStep(a, b, q, r1, r2, s1, s2, t1, t2);
      r1, r2 := r2, r1 - q * r2;
      s1, s2 := s2, s1 - q * s2;
      t1, t2 := t2, t1 - q * t2;
    }
    s, t, g := s1, t1, r1;
  }

  // ---------------------------------------------------------------------
  // Fermat and Miller–Rabin

  /** `fermat_test` with witness `a`, drawn below `p`: `a^(p-1) mod p == 1`. */
  function FermatTest(p: nat, a: nat): bool
    requires a < p
  {
    ModPow(a, p - 1, p) == 1
  }

  /** The halving loop of `miller_rabin_test` on `n`: the pair `(d, s)`. */
  function Halving(n: nat): (nat, nat)
    requires n > 0
  {
    if n % 2 == 1 then (n, 0)
    else
      var (d, s) := Halving(n / 2);
      (d, s + 1)
  }

  /** The loop leaves `n == d * 2^s` with `d` odd. */
  lemma {:induction false} HalvingFactors(n: nat)
    requires n > 0
    ensures var (d, s) := Halving(n); d % 2 == 1 && n == d * Pow(2, s)
  {
    if n % 2 == 0 {
      HalvingFactors(n / 2);
      var (d, s) := Halving(n / 2);
      assert n == 2 * (d * Pow(2, s));
      assert 2 * (d * Pow(2, s)) == d * (2 * Pow(2, s));
    }
  }

  /** The inner loop of a round: square `x` up to `steps` times; meeting 1
      first rejects, meeting `p - 1` first passes, running out rejects. */
  function SquaringPasses(x: nat, p: nat, steps: nat): bool
    requires p > 0
    decreases steps
  {
    if steps == 0 then false
    else
      var y := ModPow(x, 2, p);
      if y == 1 then false
      else if y == p - 1 then true
      else SquaringPasses(y, p, steps - 1)
  }

  /** One Miller–Rabin round with witness `a`, for `p - 1 == d * 2^s`. */
  function WitnessPasses(p: nat, d: nat, s: nat, a: nat): bool
    requires p > 0 && s > 0
  {
    var x := ModPow(a, d, p);
    x == 1 || x == p - 1 || SquaringPasses(x, p, s - 1)
  }

  /** Odd numbers above 2 have an even predecessor, so `s` is positive. */
  lemma HalvingOdd(p: nat)
    requires p > 2 && p % 2 == 1
    ensures Halving(p - 1).1 > 0
  {
  }

  /** What `miller_rabin_test(p, |witnesses|)` returns when it draws
      `witnesses`. */
  function MillerRabinOf(p: nat, witnesses: seq<nat>): bool {
    if p == 1 then false
    else if p == 2 then true
    else if p % 2 == 0 then false
    else
      var (d, s) := Halving(p - 1);
      HalvingOdd(p);
      forall i :: 0 <= i < |witnesses| ==> WitnessPasses(p, d, s, witnesses[i])
  }

  /** The witnesses `gen_biguint_range(2, p - 1)` can draw; for `p == 3` the
      range is empty and the source panics. */
  predicate WitnessesInRange(p: nat, witnesses: seq<nat>) {
    forall i :: 0 <= i < |witnesses| ==> 2 <= witnesses[i] < p - 1
  }

  /** `miller_rabin_test`, one round per witness. */
  method MillerRabinTest(p: nat, witnesses: seq<nat>) returns (r: bool)
    requires p > 2 && p % 2 == 1 ==> WitnessesInRange(p, witnesses)
    ensures r == MillerRabinOf(p, witnesses)
  {
    if p == 1 {
      return false;
    } else if p == 2 {
      return true;
    } else if p % 2 == 0 {
      return false;
    }
    var d, s := p - 1, 0;
    while d % 2 == 0
      invariant d > 0 && Halving(p - 1) == (Halving(d).0, Halving(d).1 + s)
      decreases d
    {
      d, s := d / 2, s + 1;
    }
    HalvingOdd(p);
    var step := s - 1;
    for i := 0 to |witnesses|
      invariant forall j :: 0 <= j < i ==> WitnessPasses(p, d, s, witnesses[j])
    {
      var x := ModPow(witnesses[i], d, p);
      if x == 1 || x == p - 1 {
        continue;
      }
      ghost var x0 := x;
      var flag := false;
      for k := 0 to step
        invariant SquaringPasses(x0, p, step) == SquaringPasses(x, p, step - k)
      {
        x := ModPow(x, 2, p);
        if x == 1 {
          return false;
        } else if x == p - 1 {
          flag := true;
          break;
        }
      }
      if !flag {
        return false;
      }
    }
    return true;
  }

  /** `MILLER_RABIN_THRES`: the rounds `is_prime` asks for. */
  const MillerRabinThreshold: nat := 8

  /** What `is_prime(p)` returns with Fermat witness `fermatBase` and
      Miller–Rabin witnesses `witnesses`. */
  predicate IsPrimeOf(p: nat, fermatBase: nat, witnesses: seq<nat>)
    requires p != 0 && (p == 2 || p % 2 == 1) ==> fermatBase < p
  {
    if p == 0 || (p != 2 && p % 2 == 0) then false
    else if !FermatTest(p, fermatBase) then false
    else MillerRabinOf(p, witnesses)
  }

  /** `is_prime` rejects 0 and every even number but 2, and accepts only
      when the Fermat witness and every Miller–Rabin round pass. */
  lemma IsPrimeGuards(p: nat, fermatBase: nat, witnesses: seq<nat>)
    requires p != 0 && (p == 2 || p % 2 == 1) ==> fermatBase < p
    ensures p == 0 || (p != 2 && p % 2 == 0) ==> !IsPrimeOf(p, fermatBase, witnesses)
    ensures IsPrimeOf(p, fermatBase, witnesses) ==>
      FermatTest(p, fermatBase) && MillerRabinOf(p, witnesses)
  {
  }

  /** `is_prime`. */
  method IsPrime(p: nat, fermatBase: nat, witnesses: seq<nat>) returns (r: bool)
    requires p != 0 && (p == 2 || p % 2 == 1) ==> fermatBase < p
    requires |witnesses| == MillerRabinThreshold
    requires p > 2 && p % 2 == 1 && FermatTest(p, fermatBase) ==> WitnessesInRange(p, witnesses)
    ensures r == IsPrimeOf(p, fermatBase, witnesses)
  {
    if p == 0 || (p != 2 && p % 2 == 0) {
      return false;
    }
    if !FermatTest(p, fermatBase) {
      return false;
    }
    r := MillerRabinTest(p, witnesses);
  }
}
