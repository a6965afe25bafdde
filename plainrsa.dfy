/** Textbook RSA on ASCII strings (proj/rsa/src/plain_rsa.rs). A message is
    read as a big-endian number and raised to the key's exponent modulo `n`.
    The conversions between numbers and hexadecimal text (`to_str_radix`,
    `from_str_radix`) are passed in as functions. */
module PlainRsa {
  import opened Errors
  import opened Arith
  import opened Convert
  import opened Bytes
  import opened Keys
  import opened NumberTheory

  // ---------------------------------------------------------------------
  // Constructors

  /** `PublicKey::new` always succeeds and keeps its arguments. */
  function NewPublicKey(n: nat, e: nat): (r: Result<PublicKey>)
    ensures r.Success? && r.value.n == n && r.value.e == e
  {
    Success(PublicKey(n, e))
  }

  /** `PrivateKey::new` always succeeds and keeps its arguments. */
  function NewPrivateKey(n: nat, d: nat): (r: Result<PrivateKey>)
    ensures r.Success? && r.value.n == n && r.value.d == d
  {
    Success(PrivateKey(n, d))
  }

  /** `impl From<&Generator> for PublicKey`. */
  function PublicKeyFrom(g: Generator): (pk: PublicKey)
    ensures pk.n == g.n && pk.e == g.e
  {
    PublicKey(g.n, g.e)
  }

  /** `impl From<&Generator> for PrivateKey`. */
  function PrivateKeyFrom(g: Generator): (sk: PrivateKey)
    ensures sk.n == g.n && sk.d == g.d
  {
    PrivateKey(g.n, g.d)
  }

  // ---------------------------------------------------------------------
  // Messages as numbers

  /** `str::is_ascii`. */
  predicate IsAscii(msg: string) {
    forall i :: 0 <= i < |msg| ==> msg[i] as int < 128
  }

  /** `str::as_bytes` of an ASCII string: one byte per character. */
  function AsciiBytes(msg: string): (b: seq<Byte>)
    requires IsAscii(msg)
    ensures |b| == |msg| && forall i :: 0 <= i < |b| ==> b[i] as int == msg[i] as int
  {
    AsciiCodes(msg);
    seq(|msg|, i requires 0 <= i < |msg| => msg[i] as int as Byte)
  }

  /** Every character of an ASCII string survives the trip through a byte. */
  lemma AsciiCodes(msg: string)
    requires IsAscii(msg)
    ensures forall i :: 0 <= i < |msg| ==> (msg[i] as int as Byte) as int == msg[i] as int
  {
    forall i | 0 <= i < |msg| {
      ByteRoundTrip(msg[i] as int);
    }
  }

  /** `BigUint::from_bytes_be(msg.as_bytes())`. */
  function MessageCode(msg: string): (m: nat)
    requires IsAscii(msg)
    ensures m < Pow256(|msg|)
  {
    ValueBound(AsciiBytes(msg));
    BigEndianValue(AsciiBytes(msg))
  }

  /** `BigUint::to_bytes_be`: the shortest big-endian encoding, `[0]` for 0. */
  function MinimalBytes(x: nat): (b: seq<Byte>)
    ensures b != []
    decreases x
  {
    if x < 256 then [x as Byte] else MinimalBytes(x / 256) + [(x % 256) as Byte]
  }

  /** The shortest encoding denotes `x` and has no leading zero byte unless it
      is the single byte 0. */
  lemma {:induction false} MinimalBytesValue(x: nat)
    ensures BigEndianValue(MinimalBytes(x)) == x
    ensures |MinimalBytes(x)| > 1 ==> MinimalBytes(x)[0] != 0
    decreases x
  {
    var b := MinimalBytes(x);
    if x < 256 {
      ByteRoundTrip(x);
    } else {
      MinimalBytesValue(x / 256);
      ByteRoundTrip(x % 256);
      assert b[..|b| - 1] == MinimalBytes(x / 256);
      if |MinimalBytes(x / 256)| == 1 {
        assert MinimalBytes(x / 256)[0] as nat == x / 256;
      }
    }
  }

  /** A byte string with a nonzero leading byte denotes a positive number. */
  lemma {:induction false} LeadingByteValue(b: seq<Byte>)
    requires b != [] && b[0] != 0
    ensures BigEndianValue(b) > 0
    decreases |b|
  {
    if |b| > 1 {
      LeadingByteValue(b[..|b| - 1]);
    }
  }

  /** Every byte string without a leading zero byte is the shortest encoding
      of its value. */
  lemma {:induction false} MinimalBytesOfValue(b: seq<Byte>)
    requires b != [] && (|b| > 1 ==> b[0] != 0)
    ensures MinimalBytes(BigEndianValue(b)) == b
    decreases |b|
  {
    var v := BigEndianValue(b);
    if |b| > 1 {
      var init, last := b[..|b| - 1], b[|b| - 1];
      LeadingByteValue(init);
      DivModUnique(v, 256, BigEndianValue(init), last as nat);
      MinimalBytesOfValue(init);
      assert b == init + [last];
    } else {
      assert |b| == 1 && b[..|b| - 1] == [];
      assert BigEndianValue(b[..|b| - 1]) == 0;
      assert v == b[0] as nat;
      assert [(b[0] as nat) as Byte] == b;
    }
  }

  // ---------------------------------------------------------------------
  // Encryption and decryption

  /** `PublicKey::encrypt_plain`: `MessageNotASCII` for a non-ASCII message,
      otherwise the message code raised to `e` modulo `n` (`modpow` panics on
      a zero modulus). */
  function EncryptPlain(key: PublicKey, msg: string): (r: Result<nat>)
    requires key.n > 0
    ensures r.Failure? <==> !IsAscii(msg)
    ensures r.Failure? ==> r.error == MessageNotAscii
    ensures r.Success? ==> r.value < key.n
  {
    if !IsAscii(msg) then Failure(MessageNotAscii)
    else Success(ModPow(MessageCode(msg), key.e, key.n))
  }

  /** `PublicKey::encrypt`: `encrypt_plain` followed by hexadecimal text. */
  function Encrypt(key: PublicKey, msg: string, toHex: nat -> string): (r: Result<string>)
    requires key.n > 0
    ensures r.Failure? <==> EncryptPlain(key, msg).Failure?
    ensures r.Failure? ==> r.error == MessageNotAscii
    ensures r.Success? ==> r.value == toHex(EncryptPlain(key, msg).value)
  {
    if !IsAscii(msg) then Failure(MessageNotAscii)
    else Success(toHex(ModPow(MessageCode(msg), key.e, key.n)))
  }

  /** `PrivateKey::decrypt_plain`: the parsed ciphertext raised to `d`
      modulo `n`; parsing unwraps, so the text must be hexadecimal. */
  function DecryptPlain(key: PrivateKey, ciphertext: string, fromHex: string -> Option<nat>): (r: Result<nat>)
    requires key.n > 0 && fromHex(ciphertext).Some?
    ensures r.Success? && r.value < key.n
  {
    Success(ModPow(fromHex(ciphertext).value, key.d, key.n))
  }

  /** `PrivateKey::decrypt`: the bytes of the plain number, shortest
      encoding first-byte-most-significant. */
  function Decrypt(key: PrivateKey, ciphertext: string, fromHex: string -> Option<nat>): (r: Result<seq<Byte>>)
    requires key.n > 0 && fromHex(ciphertext).Some?
    ensures r.Success? && r.value != [] && (|r.value| > 1 ==> r.value[0] != 0)
    ensures BigEndianValue(r.value) == DecryptPlain(key, ciphertext, fromHex).value
  {
    var plain := ModPow(fromHex(ciphertext).value, key.d, key.n);
    MinimalBytesValue(plain);
    Success(MinimalBytes(plain))
  }

  // ---------------------------------------------------------------------
  // Properties

  lemma PositiveModulus(p: nat, q: nat)
    requires Prime(p) && Prime(q)
    ensures p * q > 1
  {
    MulAtLeast(p, q);
  }

  /** Keys built from a pair of distinct primes and exponents inverse modulo
      `(p-1)(q-1)` decrypt what they encrypt, as long as the message code is
      below `n`. */
  lemma EncryptPlainThenDecrypt(p: nat, q: nat, e: nat, d: nat, msg: string)
    requires Prime(p) && Prime(q) && p != q && OneModulo(e * d, (p - 1) * (q - 1))
    requires IsAscii(msg) && MessageCode(msg) < p * q
    ensures p * q > 0
    ensures EncryptPlain(PublicKey(p * q, e), msg) == Success(ModPow(MessageCode(msg), e, p * q))
    ensures ModPow(ModPow(MessageCode(msg), e, p * q), d, p * q) == MessageCode(msg)
  {
    PositiveModulus(p, q);
    RsaCorrect(p, q, e, d, MessageCode(msg));
  }

  /** The full text round trip: `decrypt(encrypt(msg))` gives back the bytes
      of `msg` when the message is nonempty, does not start with a NUL
      character, its code is below `n`, and the hexadecimal text of the
      ciphertext parses back to it. */
  lemma EncryptThenDecrypt(p: nat, q: nat, e: nat, d: nat, msg: string, toHex: nat -> string, fromHex: string -> Option<nat>)
    requires Prime(p) && Prime(q) && p != q && OneModulo(e * d, (p - 1) * (q - 1))
    requires IsAscii(msg) && msg != [] && msg[0] != '\0' && MessageCode(msg) < p * q
    requires fromHex(toHex(ModPow(MessageCode(msg), e, p * q))) == Some(ModPow(MessageCode(msg), e, p * q))
    ensures var c := ModPow(MessageCode(msg), e, p * q);
      Encrypt(PublicKey(p * q, e), msg, toHex) == Success(toHex(c)) &&
      Decrypt(PrivateKey(p * q, d), toHex(c), fromHex) == Success(AsciiBytes(msg))
  {
    var n := p * q;
    var c := ModPow(MessageCode(msg), e, n);
    RsaCorrect(p, q, e, d, MessageCode(msg));
    assert DecryptPlain(PrivateKey(n, d), toHex(c), fromHex).value == MessageCode(msg);
    MinimalBytesOfValue(AsciiBytes(msg));
  }

  /** Textbook RSA is multiplicative: the product of two ciphertexts is the
      ciphertext of the product of the plaintexts. */
  lemma Malleable(key: PublicKey, m: nat, a: nat)
    requires key.n > 0
    ensures (ModPow(m, key.e, key.n) * ModPow(a, key.e, key.n)) % key.n == ModPow(m * a, key.e, key.n)
  {
    PowOfProduct(m, a, key.e);
    MulMod(Pow(m, key.e), Pow(a, key.e), key.n);
  }

  /** Hence decrypting the product of two ciphertexts yields the product of
      the plaintexts modulo `n`. */
  lemma MalleableDecrypt(p: nat, q: nat, e: nat, d: nat, m: nat, a: nat)
    requires Prime(p) && Prime(q) && p != q && OneModulo(e * d, (p - 1) * (q - 1))
    ensures p * q > 0
    ensures var n := p * q;
      ModPow((ModPow(m, e, n) * ModPow(a, e, n)) % n, d, n) == (m * a) % n
  {
    var n := p * q;
    PositiveModulus(p, q);
    Malleable(PublicKey(n, e), m, a);
    PowMod(m * a, e, n);
    RsaCorrect(p, q, e, d, (m * a) % n);
  }
}
