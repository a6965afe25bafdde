/** Key generation (proj/rsa/src/generator.rs): building a `Generator` from
    two primes, assembling one from a key pair, and the prime search. The
    random number generator is replaced by the values it would have drawn,
    passed in as parameters, and the two searches that `Generator::new` runs
    on separate threads are replaced by the primes they return. */
module KeyGen {
  import opened Errors
  import opened Arith
  import opened Convert
  import opened Keys
  import opened Algorithms
  import opened NumberTheory
  import opened PlainRsa

  /** The public exponent every generated key uses. */
  const PublicExponent: nat := 65537

  // ---------------------------------------------------------------------
  // From<(&PublicKey, &PrivateKey)>

  /** `impl From<(&PublicKey, &PrivateKey)> for Generator`. The source panics
      with the text of `Error::InvalidKeyPair` when the moduli differ; the
      model returns that error instead. */
  function FromKeys(pk: PublicKey, sk: PrivateKey): (r: Result<Generator>)
    ensures r.Failure? <==> pk.n != sk.n
    ensures r.Failure? ==> r.error == InvalidKeyPair
  {
    if pk.n != sk.n then Failure(InvalidKeyPair) else Success(Generator(pk.n, pk.e, sk.d))
  }

  /** Splitting a generator into its two keys and assembling them again
      gives the generator back. */
  lemma SplitThenAssemble(g: Generator)
    ensures FromKeys(PublicKeyFrom(g), PrivateKeyFrom(g)) == Success(g)
  {
  }

  /** Assembling a matching key pair and splitting the result again gives
      the two keys back. */
  lemma AssembleThenSplit(pk: PublicKey, sk: PrivateKey)
    requires pk.n == sk.n
    ensures FromKeys(pk, sk).Success?
    ensures PublicKeyFrom(FromKeys(pk, sk).value) == pk
    ensures PrivateKeyFrom(FromKeys(pk, sk).value) == sk
  {
  }

  // ---------------------------------------------------------------------
  // Generator::new, given its two primes

  /** The loop `while s.is_negative() { s += fi_n }`: it stops at the first
      value that is not negative. It runs forever when `s < 0` and `fi == 0`. */
  function Normalized(s: int, fi: nat): (d: nat)
    requires s >= 0 || fi > 0
    decreases if s < 0 then -s else 0
  {
    if s >= 0 then s else Normalized(s + fi, fi)
  }

  lemma ModShift(x: int, c: int, m: int)
    requires m > 0
    ensures (x + c * m) % m == x % m
  {
    var q := x / m;
    assert x + c * m == m * (q + c) + x % m by {
      assert m * (q + c) == m * q + c * m;
    }
    DivModUnique(x + c * m, m, q + c, x % m);
  }

  /** The loop only adds multiples of `fi`. */
  lemma {:induction false} NormalizedShift(s: int, fi: nat) returns (k: nat)
    requires s >= 0 || fi > 0
    ensures Normalized(s, fi) == s + k * fi
    decreases if s < 0 then -s else 0
  {
    if s >= 0 {
      k := 0;
    } else {
      var k' := NormalizedShift(s + fi, fi);
      k := k' + 1;
    }
  }

  /** The loop ends with a value that is not negative and congruent to the
      start modulo `fi`; a start that is already non-negative is kept, and a
      negative start ends below `fi`. */
  lemma {:induction false} NormalizedCongruent(s: int, fi: nat)
    requires fi > 0
    ensures Normalized(s, fi) % fi == s % fi
    ensures s >= 0 ==> Normalized(s, fi) == s
    ensures s < 0 ==> Normalized(s, fi) < fi
    decreases if s < 0 then -s else 0
  {
    if s < 0 {
      NormalizedCongruent(s + fi, fi);
      ModShift(s, 1, fi);
    }
  }

  /** With `fi == 0`, `ext_euc` returns a non-negative first coefficient, so
      the normalisation loop never runs forever. */
  lemma FirstCoefficient(fi: nat)
    ensures ExtEucOf(PublicExponent, fi).0 >= 0 || fi > 0
  {
    if fi == 0 {
      ExtEucZeroCase(PublicExponent, 0);
    }
  }

  /** Euler's totient of `p * q` for primes `p` and `q`: `(p-1)(q-1)`. */
  function Totient(p: nat, q: nat): nat
    requires p > 0 && q > 0
  {
    NatMul(p - 1, q - 1);
    (p - 1) * (q - 1)
  }

  /** What `Generator::new` produces once its two primes `p` and `q` are
      drawn. */
  function GeneratorOf(p: nat, q: nat): Generator
    requires p > 0 && q > 0
  {
    var fi := Totient(p, q);
    FirstCoefficient(fi);
    Generator(p * q, PublicExponent, Normalized(ExtEucOf(PublicExponent, fi).0, fi))
  }

  /** `Generator::new` after the prime search. `&p - 1` panics on a zero
      `BigUint`, hence the precondition. */
  method NewFromPrimes(p: nat, q: nat) returns (r: Result<Generator>)
    requires p > 0 && q > 0
    ensures r == Success(GeneratorOf(p, q))
  {
    var n := p * q;
    var fi := Totient(p, q);
    var e := PublicExponent;
    var s, t, g := ExtEuc(e, fi);
    FirstCoefficient(fi);
    ghost var s0 := s;
    while s < 0
      invariant s >= 0 || fi > 0
      invariant Normalized(s, fi) == Normalized(s0, fi)
      decreases if s < 0 then -s else 0
    {
      s := s + fi;
    }
    r := Success(Generator(n, e, s));
  }

  lemma TotientPositive(p: nat, q: nat)
    requires p > 1 && q > 1
    ensures Totient(p, q) > 0
  {
    MulAtLeast(p - 1, q - 1);
  }

  /** The private exponent is an inverse of 65537 modulo `(p-1)(q-1)` exactly
      when `ext_euc` finds that the two are coprime. */
  lemma PrivateExponentInverse(p: nat, q: nat)
    requires p > 1 && q > 1
    ensures Totient(p, q) > 0
    ensures var g := GeneratorOf(p, q); var fi := Totient(p, q);
      (g.e * g.d) % fi == 1 % fi <==> ExtEucOf(PublicExponent, fi).2 == 1
  {
    var fi := Totient(p, q);
    TotientPositive(p, q);
    var (s, t, g) := ExtEucOf(PublicExponent, fi);
    ExtEucBezout(PublicExponent, fi);
    ExtEucGcd(PublicExponent, fi);
    var k := NormalizedShift(s, fi);
    var d := Normalized(s, fi);
    assert PublicExponent * d == g + (PublicExponent * k - t) * fi by {
      assert PublicExponent * d == PublicExponent * s + PublicExponent * k * fi;
      assert PublicExponent * s == g - t * fi;
    }
    ModShift(g, PublicExponent * k - t, fi);
    if g != 1 {
      MultipleAtLeast(fi, g);
      if g < fi {
        DivModUnique(g, fi, 0, g);
      } else {
        DivModUnique(g, fi, 1, 0);
      }
      DivModUnique(1, fi, 0, 1);
    }
  }

  lemma DistinctPrimesTotient(p: nat, q: nat)
    requires Prime(p) && Prime(q) && p != q
    ensures Totient(p, q) > 1
  {
    if p > 2 {
      MulAtLeast(q - 1, p - 1);
      assert (q - 1) * (p - 1) == Totient(p, q);
    } else {
      MulAtLeast(p - 1, q - 1);
    }
  }

  /** Keys generated from two distinct primes for which 65537 is invertible
      decrypt what they encrypt: the full text round trip of `plain_rsa`. */
  lemma GeneratedKeysRoundTrip(p: nat, q: nat, msg: string, toHex: nat -> string, fromHex: string -> Option<nat>)
    requires Prime(p) && Prime(q) && p != q
    requires ExtEucOf(PublicExponent, (p - 1) * (q - 1)).2 == 1
    requires IsAscii(msg) && msg != [] && msg[0] != '\0' && MessageCode(msg) < p * q
    requires p * q > 0
    requires var g := GeneratorOf(p, q); var c := ModPow(MessageCode(msg), g.e, g.n);
      fromHex(toHex(c)) == Some(c)
    ensures var g := GeneratorOf(p, q); var c := ModPow(MessageCode(msg), g.e, g.n);
      Encrypt(PublicKeyFrom(g), msg, toHex) == Success(toHex(c)) &&
      Decrypt(PrivateKeyFrom(g), toHex(c), fromHex) == Success(AsciiBytes(msg))
  {
    var g := GeneratorOf(p, q);
    PrivateExponentInverse(p, q);
    DistinctPrimesTotient(p, q);
    DivModUnique(1, Totient(p, q), 0, 1);
    EncryptThenDecrypt(p, q, g.e, g.d, msg, toHex, fromHex);
  }

  // ---------------------------------------------------------------------
  // Generator::new_prime

  /** One pass of the search loop: the candidate `gen_biguint(size)` drew and
      the witnesses `is_prime` then drew for it. */
  datatype Draw = Draw(candidate: nat, fermatBase: nat, witnesses: seq<nat>)

  /** The ranges the random draws come from: the candidate has at most
      `size` bits, the Fermat witness is below the candidate, and each of
      the eight Miller–Rabin witnesses lies in `[2, candidate-1)` (the
      library panics on an empty range, which is what happens for the
      candidate 3). */
  predicate DrawFits(size: nat, dr: Draw) {
    && dr.candidate < Pow(2, size)
    && (dr.candidate != 0 && (dr.candidate == 2 || dr.candidate % 2 == 1) ==> dr.fermatBase < dr.candidate)
    && |dr.witnesses| == MillerRabinThreshold
    && (dr.candidate > 2 && dr.candidate % 2 == 1 && dr.fermatBase < dr.candidate
        && FermatTest(dr.candidate, dr.fermatBase)
        ==> WitnessesInRange(dr.candidate, dr.witnesses))
  }

  /** Whether `is_prime` accepts the candidate of a draw. */
  predicate Accepted(size: nat, dr: Draw)
    requires DrawFits(size, dr)
  {
    IsPrimeOf(dr.candidate, dr.fermatBase, dr.witnesses)
  }

  /** The candidate of the first accepted draw; `None` when no draw is
      accepted, where the source would go on drawing. */
  function FirstAccepted(size: nat, draws: seq<Draw>): Option<nat>
    requires forall i :: 0 <= i < |draws| ==> DrawFits(size, draws[i])
  {
    if draws == [] then None
    else if Accepted(size, draws[0]) then Some(draws[0].candidate)
    else FirstAccepted(size, draws[1..])
  }

  /** `is_prime` accepts neither 0 nor 1. */
  lemma AcceptedAtLeastTwo(size: nat, dr: Draw)
    requires DrawFits(size, dr) && Accepted(size, dr)
    ensures dr.candidate >= 2
  {
  }

  /** The search returns the candidate of an accepted draw, below `2^size`,
      at least 2, with every earlier draw rejected; it finds nothing only
      when every draw is rejected. */
  lemma {:induction false} FirstAcceptedSpec(size: nat, draws: seq<Draw>)
    requires forall i :: 0 <= i < |draws| ==> DrawFits(size, draws[i])
    ensures FirstAccepted(size, draws).None? <==> forall i :: 0 <= i < |draws| ==> !Accepted(size, draws[i])
    ensures FirstAccepted(size, draws).Some? ==>
      exists i :: 0 <= i < |draws| && Accepted(size, draws[i]) &&
        draws[i].candidate == FirstAccepted(size, draws).value &&
        (forall j :: 0 <= j < i ==> !Accepted(size, draws[j]))
    ensures FirstAccepted(size, draws).Some? ==>
      2 <= FirstAccepted(size, draws).value < Pow(2, size)
  {
    if draws != [] {
      FirstAcceptedSpec(size, draws[1..]);
      if Accepted(size, draws[0]) {
        AcceptedAtLeastTwo(size, draws[0]);
        assert Accepted(size, draws[0]) && draws[0].candidate == FirstAccepted(size, draws).value;
      } else if FirstAccepted(size, draws[1..]).Some? {
        var i :| 0 <= i < |draws[1..]| && Accepted(size, draws[1..][i]) &&
          draws[1..][i].candidate == FirstAccepted(size, draws[1..]).value &&
          (forall j :: 0 <= j < i ==> !Accepted(size, draws[1..][j]));
        assert Accepted(size, draws[i + 1]);
        assert forall j :: 0 <= j < i + 1 ==> !Accepted(size, draws[j]) by {
          forall j | 0 <= j < i + 1
            ensures !Accepted(size, draws[j])
          {
            if j > 0 {
              assert draws[j] == draws[1..][j - 1];
            }
          }
        }
      } else {
        forall i | 0 <= i < |draws|
          ensures !Accepted(size, draws[i])
        {
          if i > 0 {
            assert draws[i] == draws[1..][i - 1];
          }
        }
      }
    }
  }

  /** The witness range `[2, 2)` of the candidate 3 is empty. */
  lemma NoWitnessForThree(witnesses: seq<nat>)
    requires |witnesses| == MillerRabinThreshold
    ensures !WitnessesInRange(3, witnesses)
  {
    assert witnesses[0] in witnesses;
  }

  /** A draw whose candidate is an odd prime is accepted exactly when its
      Fermat witness is not 0. */
  lemma AcceptsOddPrimes(size: nat, dr: Draw)
    requires DrawFits(size, dr) && Prime(dr.candidate) && dr.candidate % 2 == 1
    ensures Accepted(size, dr) <==> dr.fermatBase != 0
  {
    var p := dr.candidate;
    if dr.fermatBase == 0 {
      FermatRejectsZero(p);
    } else if p == 3 {
      FermatAcceptsPrimes(p, dr.fermatBase);
      NoWitnessForThree(dr.witnesses);
      assert false;
    } else {
      FermatAcceptsPrimes(p, dr.fermatBase);
      IsPrimeOnPrimes(p, dr.fermatBase, dr.witnesses);
    }
  }

  /** `Generator::new_prime`: draw candidates until `is_prime` accepts one. */
  method NewPrime(size: nat, draws: seq<Draw>) returns (r: Option<nat>)
    requires forall i :: 0 <= i < |draws| ==> DrawFits(size, draws[i])
    ensures r == FirstAccepted(size, draws)
  {
    var i := 0;
    while i < |draws|
      invariant 0 <= i <= |draws|
      invariant FirstAccepted(size, draws) == FirstAccepted(size, draws[i..])
    {
      var dr := draws[i];
      assert draws[i..][1..] == draws[i + 1..];
      var ok := IsPrime(dr.candidate, dr.fermatBase, dr.witnesses);
      if ok {
        return Some(dr.candidate);
      }
      i := i + 1;
    }
    r := None;
  }
}
