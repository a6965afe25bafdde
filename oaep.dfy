/** RSAES-OAEP as written in proj/rsa/deprecate/oaep.rs, over a hash with
    32-byte digests (`h_len = 32`; the source uses SHA-256). The code departs from section 7.1 of RFC 8017 and
    the model follows the code:
    - `mgf1` emits `mask_len / h_len - 1` hash blocks instead of
      `ceil(mask_len / h_len)`, so its output is shorter than asked for and
      `mgf1(x, 32)` is empty; `string_xor` then truncates to the shorter
      operand;
    - `k` is `n.bits() / 8`, rounded down;
    - the number between the RSA primitive and the byte strings travels as
      decimal text, which `encrypt_plain` reads as ASCII bytes and
      `decrypt_plain` parses as hexadecimal.
    The hash, the random seed and the two text conversions are parameters. */
module Oaep {
  import opened Errors
  import opened Arith
  import opened Convert
  import opened Keys
  import opened Sha256
  import opened PlainRsa

  /** `h_len`: `output_size()` of SHA-256. */
  const HLen: nat := 32

  /** `2^32 * h_len`: the longest mask `mgf1` accepts. */
  const MaxMaskLen: nat := 0x1_0000_0000 * HLen

  // ---------------------------------------------------------------------
  // The modulus length

  /** `BigUint::bits`: the number of binary digits, 0 for 0. */
  function Bits(n: nat): nat
    decreases n
  {
    if n == 0 then 0 else 1 + Bits(n / 2)
  }

  /** A positive `n` has exactly `Bits(n)` binary digits. */
  lemma {:induction false} BitsBounds(n: nat)
    ensures n == 0 <==> Bits(n) == 0
    ensures n > 0 ==> Pow(2, Bits(n) - 1) <= n < Pow(2, Bits(n))
    decreases n
  {
    if n > 1 {
      BitsBounds(n / 2);
      assert Pow(2, Bits(n)) == 2 * Pow(2, Bits(n / 2));
    }
  }

  /** `k`: the modulus length in whole bytes, rounded down. */
  function ModulusBytes(n: nat): (k: nat)
    ensures k > 0 ==> n > 0
  {
    BitsBounds(n);
    Bits(n) / 8
  }

  // ---------------------------------------------------------------------
  // MGF1

  /** A hash function with `h_len`-byte digests. The source fixes SHA-256;
      the model takes the hash as a parameter, and `Sha256IsHash` shows that
      the SHA-256 of module `Sha256` qualifies. */
  type Hash = seq<Byte> -> seq<Byte>

  ghost predicate IsHash(hash: Hash) {
    forall m :: |hash(m)| == HLen
  }

  lemma Sha256IsHash()
    ensures IsHash(Sha256Of)
  {
  }

  /** The blocks `hash(seed ‖ i2osp(i, 4))` for `i` in `0..count`,
      concatenated. */
  function MaskBlocks(hash: Hash, seed: seq<Byte>, count: nat): (r: seq<Byte>)
    requires IsHash(hash)
    ensures |r| == count * 32
  {
    if count == 0 then [] else MaskBlocks(hash, seed, count - 1) + hash(seed + BigEndianBytes(count - 1, 4))
  }

  /** Block `i` (of `HLen` bytes) of `s`. */
  function Block(s: seq<Byte>, i: nat): seq<Byte>
    requires (i + 1) * 32 <= |s|
  {
    s[i * 32..(i + 1) * 32]
  }

  lemma BlockOfPrefix(a: seq<Byte>, b: seq<Byte>, i: nat)
    requires (i + 1) * 32 <= |a|
    ensures Block(a + b, i) == Block(a, i)
  {
    assert (a + b)[i * 32..(i + 1) * 32] == a[i * 32..(i + 1) * 32];
  }

  lemma BlockOfLast(a: seq<Byte>, b: seq<Byte>, i: nat)
    requires |a| == i * 32 && |b| == 32
    ensures Block(a + b, i) == b
  {
    assert (a + b)[i * 32..(i + 1) * 32] == b;
  }

  /** `mgf1(seed, mask_len)`: `MaskTooLong` above `2^32 * h_len`, otherwise
      `mask_len / h_len - 1` blocks, fewer bytes than requested. The source
      computes `mask_len / h_len - 1` in `usize` and underflows below
      `h_len`, hence the precondition. */
  function Mgf1Of(hash: Hash, seed: seq<Byte>, maskLen: nat): (r: Result<seq<Byte>>)
    requires IsHash(hash) && maskLen >= HLen
    ensures r.Failure? <==> maskLen > MaxMaskLen
    ensures r.Failure? ==> r.error == MaskTooLong
    ensures r.Success? ==> |r.value| == (maskLen / HLen - 1) * HLen && |r.value| < maskLen
  {
    if maskLen > MaxMaskLen then Failure(MaskTooLong)
    else Success(MaskBlocks(hash, seed, maskLen / HLen - 1))
  }

  /** Block `i` of the mask is the hash of the seed followed by the 4-byte
      big-endian counter `i`. */
  lemma {:induction false} MaskBlockAt(hash: Hash, seed: seq<Byte>, count: nat, i: nat)
    requires IsHash(hash) && i < count
    ensures Block(MaskBlocks(hash, seed, count), i) == hash(seed + BigEndianBytes(i, 4))
    decreases count
  {
    var prev := MaskBlocks(hash, seed, count - 1);
    var last := hash(seed + BigEndianBytes(count - 1, 4));
    if i < count - 1 {
      MaskBlockAt(hash, seed, count - 1, i);
      BlockOfPrefix(prev, last, i);
    } else {
      BlockOfLast(prev, last, i);
    }
  }

  /** A mask of exactly `h_len` bytes comes out empty. */
  lemma SeedMaskEmpty(hash: Hash, seed: seq<Byte>)
    requires IsHash(hash)
    ensures Mgf1Of(hash, seed, HLen) == Success([])
  {
  }

  /** The counter `i` fits in 4 bytes whenever `mgf1` gets to use it. */
  lemma CounterFits(maskLen: nat, i: nat)
    requires HLen <= maskLen <= MaxMaskLen && i < maskLen / HLen - 1
    ensures I2ospOf(i, 4) == Success(BigEndianBytes(i, 4))
  {
    assert Pow256(4) == 0x1_0000_0000;
    DivModUnique(maskLen, HLen, maskLen / HLen, maskLen % HLen);
  }

  /** `mgf1`. */
  method Mgf1(hash: Hash, seed: seq<Byte>, maskLen: nat) returns (r: Result<seq<Byte>>)
    requires IsHash(hash) && maskLen >= HLen
    ensures r == Mgf1Of(hash, seed, maskLen)
  {
    if maskLen > MaxMaskLen {
      return Failure(MaskTooLong);
    }
    var output := [];
    var upperBound := maskLen / HLen - 1;
    for i := 0 to upperBound
      invariant output == MaskBlocks(hash, seed, i)
    {
      CounterFits(maskLen, i);
      var c := I2osp(i, 4);
      var digest := hash(seed + c.value);
      output := output + digest;
    }
    r := Success(output);
  }

  // ---------------------------------------------------------------------
  // EME-OAEP encoding

  /** `k - 2 * h_len - 2`: the longest message that fits. */
  function MaxMessageLen(k: nat): nat
    requires k >= 2 * HLen + 2
  {
    k - 2 * HLen - 2
  }

  /** `DB = lHash ‖ PS ‖ 0x01 ‖ M`, with `PS` the zero bytes that fill it to
      `k - h_len - 1` bytes. */
  function DataBlock(lHash: seq<Byte>, msg: seq<Byte>, k: nat): (db: seq<Byte>)
    requires |lHash| == HLen && k >= 2 * HLen + 2 && |msg| <= MaxMessageLen(k)
    ensures |db| == k - HLen - 1
  {
    lHash + Zeros(MaxMessageLen(k) - |msg|) + [1] + msg
  }

  /** Where the separator of a data block sits. */
  function SeparatorIndex(msg: seq<Byte>, k: nat): nat
    requires k >= 2 * HLen + 2 && |msg| <= MaxMessageLen(k)
  {
    k - HLen - 2 - |msg|
  }

  /** The data block starts with the label hash, continues with zero bytes
      up to a single 0x01 byte, and ends with the message. */
  lemma DataBlockLayout(lHash: seq<Byte>, msg: seq<Byte>, k: nat)
    requires |lHash| == HLen && k >= 2 * HLen + 2 && |msg| <= MaxMessageLen(k)
    ensures var db := DataBlock(lHash, msg, k); var j := SeparatorIndex(msg, k);
      HLen <= j < |db| && db[..HLen] == lHash &&
      (forall i :: HLen <= i < j ==> db[i] == 0) &&
      db[j] == 1 && db[j + 1..] == msg
  {
  }

  /** What the EME-OAEP encoding of `oaep_encrypt_with_label` builds: the
      data block is masked with `mgf1(seed, k - h_len - 1)` and the seed with
      `mgf1(masked_db, h_len)`. */
  function EncodeOf(hash: Hash, lHash: seq<Byte>, msg: seq<Byte>, seed: seq<Byte>, k: nat): seq<Byte>
    requires IsHash(hash) && |lHash| == HLen && |seed| == HLen
    requires k >= 2 * HLen + 2 && |msg| <= MaxMessageLen(k) && k - HLen - 1 <= MaxMaskLen
  {
    var db := DataBlock(lHash, msg, k);
    var maskedDb := Xor(db, Mgf1Of(hash, seed, k - HLen - 1).value);
    var maskedSeed := Xor(seed, Mgf1Of(hash, maskedDb, HLen).value);
    [0] + maskedSeed + maskedDb
  }

  /** The encoded message starts with a zero byte; since the seed mask is
      empty the masked seed is empty too, so what follows is only the data
      block masked with the seed's mask, and the whole is shorter than `k`
      bytes. */
  lemma EncodeLayout(hash: Hash, lHash: seq<Byte>, msg: seq<Byte>, seed: seq<Byte>, k: nat)
    requires IsHash(hash) && |lHash| == HLen && |seed| == HLen
    requires k >= 2 * HLen + 2 && |msg| <= MaxMessageLen(k) && k - HLen - 1 <= MaxMaskLen
    ensures var em := EncodeOf(hash, lHash, msg, seed, k);
      var mask := MaskBlocks(hash, seed, (k - HLen - 1) / HLen - 1);
      em == [0] + Xor(DataBlock(lHash, msg, k), mask) &&
      |em| == 1 + |mask| && |em| < k
  {
    var maskedDb := Xor(DataBlock(lHash, msg, k), Mgf1Of(hash, seed, k - HLen - 1).value);
    SeedMaskEmpty(hash, maskedDb);
    assert Xor(seed, []) == [];
  }

  /** `oaep_encrypt_with_label`: `MessageTooLong` for a message longer than
      `k - 2 * h_len - 2` bytes, otherwise the encoded message is read as a
      number, written as decimal text, encrypted by `encrypt_plain` and
      written back as `k` bytes. The subtraction `k - 2 * h_len - 2` is in
      `usize` and the later `unwrap`s panic, hence the preconditions. */
  function OaepEncryptOf(hash: Hash, pk: PublicKey, msg: seq<Byte>, labelBytes: seq<Byte>, seed: seq<Byte>,
                         toDecimal: nat -> string): (r: Result<seq<Byte>>)
    requires IsHash(hash) && |seed| == HLen
    requires ModulusBytes(pk.n) >= 2 * HLen + 2 && ModulusBytes(pk.n) - HLen - 1 <= MaxMaskLen
    requires |msg| <= MaxMessageLen(ModulusBytes(pk.n)) ==>
      IsAscii(toDecimal(BigEndianValue(EncodeOf(hash, hash(labelBytes), msg, seed, ModulusBytes(pk.n)))))
    ensures r == Failure(MessageTooLong) <==> |msg| > MaxMessageLen(ModulusBytes(pk.n))
    ensures r.Failure? ==> r.error == MessageTooLong || r.error == IntegerTooLarge
    ensures r.Success? ==> |r.value| == ModulusBytes(pk.n)
  {
    var k := ModulusBytes(pk.n);
    if |msg| > MaxMessageLen(k) then Failure(MessageTooLong)
    else
      var em := EncodeOf(hash, hash(labelBytes), msg, seed, k);
      var c := EncryptPlain(pk, toDecimal(BigEndianValue(em))).value;
      I2ospOutcome(c, k);
      I2ospOf(c, k)
  }

  // ---------------------------------------------------------------------
  // The separator scan of the decoder

  /** The scan loop does not index past the end of `db` from position `i`. */
  predicate ScanSafe(db: seq<Byte>, i: nat) {
    i < |db| - 1 || (i == |db| - 1 && db[i] != 0)
  }

  /** The scan loop from position `i`: zero bytes are skipped, 0x01 ends the
      padding, any other byte is an error, and so is reaching the last byte
      by skipping. */
  function ScanFrom(db: seq<Byte>, i: nat): Result<seq<Byte>>
    requires ScanSafe(db, i)
    decreases |db| - i
  {
    if db[i] == 0 then
      if i + 1 == |db| - 1 then Failure(DecryptionError) else ScanFrom(db, i + 1)
    else if db[i] == 1 then Success(db[i + 1..])
    else Failure(DecryptionError)
  }

  /** The scan as the decoder starts it, after the label hash. */
  function ScanOf(db: seq<Byte>): Result<seq<Byte>>
    requires ScanSafe(db, HLen)
  {
    ScanFrom(db, HLen)
  }

  /** `j` holds the separator the scan accepts: a 0x01 byte after the label
      hash, preceded by zero bytes only, and not the last byte unless it is
      the first byte after the label hash. */
  predicate SeparatorAt(db: seq<Byte>, j: nat) {
    && HLen <= j < |db|
    && db[j] == 1
    && (forall i :: HLen <= i < j ==> db[i] == 0)
    && (j == HLen || j < |db| - 1)
  }

  lemma {:induction false} ScanFromSpec(db: seq<Byte>, i: nat) returns (j: nat)
    requires ScanSafe(db, i) && HLen <= i && (i > HLen ==> i < |db| - 1)
    requires forall t :: HLen <= t < i ==> db[t] == 0
    ensures ScanFrom(db, i).Failure? ==> ScanFrom(db, i).error == DecryptionError
    ensures ScanFrom(db, i).Success? ==> SeparatorAt(db, j) && ScanFrom(db, i).value == db[j + 1..]
    ensures forall j' :: SeparatorAt(db, j') ==> ScanFrom(db, i) == Success(db[j' + 1..])
    decreases |db| - i
  {
    j := i;
    if db[i] == 0 && i + 1 != |db| - 1 {
      j := ScanFromSpec(db, i + 1);
    } else if db[i] == 0 {
      forall j': nat | SeparatorAt(db, j')
        ensures false
      {
      }
    }
  }

  /** The scan succeeds exactly when there is an accepted separator, and
      then returns the bytes after it; otherwise it reports
      `DecryptionError`. */
  lemma ScanSpec(db: seq<Byte>)
    requires ScanSafe(db, HLen)
    ensures ScanOf(db).Failure? ==> ScanOf(db).error == DecryptionError
    ensures ScanOf(db).Success? <==> exists j :: SeparatorAt(db, j)
    ensures forall j :: SeparatorAt(db, j) ==> ScanOf(db) == Success(db[j + 1..])
  {
    var j := ScanFromSpec(db, HLen);
  }

  /** The scan loop of `oaep_decrypt_with_label` and the copy after it. */
  method SeparatorScan(db: seq<Byte>) returns (r: Result<seq<Byte>>)
    requires ScanSafe(db, HLen)
    ensures r == ScanOf(db)
  {
    var msgSt := HLen;
    while true
      invariant ScanSafe(db, msgSt)
      invariant ScanFrom(db, msgSt) == ScanOf(db)
      decreases |db| - msgSt
    {
      if db[msgSt] == 0 {
        msgSt := msgSt + 1;
      } else if db[msgSt] == 1 {
        break;
      } else {
        return Failure(DecryptionError);
      }
      if msgSt == |db| - 1 {
        return Failure(DecryptionError);
      }
    }
    msgSt := msgSt + 1;
    var msg := new Byte[|db| - msgSt](i requires 0 <= i < |db| - msgSt => db[msgSt + i]);
    assert msg[..] == db[msgSt..];
    r := Success(msg[..]);
  }

  /** The data block of an encoding whose separator comes right after the
      label hash or whose message is not empty is scanned back to the
      message. An empty message behind at least one padding byte puts the
      separator on the last byte, which the scan rejects. */
  lemma DataBlockScan(lHash: seq<Byte>, msg: seq<Byte>, k: nat)
    requires |lHash| == HLen && k >= 2 * HLen + 2 && |msg| <= MaxMessageLen(k)
    ensures ScanSafe(DataBlock(lHash, msg, k), HLen)
    ensures msg != [] || k == 2 * HLen + 2 ==> ScanOf(DataBlock(lHash, msg, k)) == Success(msg)
    ensures msg == [] && k > 2 * HLen + 2 ==> ScanOf(DataBlock(lHash, msg, k)).Failure?
  {
    var db := DataBlock(lHash, msg, k);
    DataBlockLayout(lHash, msg, k);
    ScanSpec(db);
    var j := SeparatorIndex(msg, k);
    if msg != [] || k == 2 * HLen + 2 {
      assert SeparatorAt(db, j);
    } else {
      forall j': nat | SeparatorAt(db, j')
        ensures false
      {
      }
    }
  }

  // ---------------------------------------------------------------------
  // EME-OAEP decoding

  /** The data block the decoder recovers from `em`: the seed is unmasked
      with `mgf1(masked_db, h_len)` and the data block with
      `mgf1(seed, k - h_len - 1)`. */
  function UnmaskedBlock(hash: Hash, em: seq<Byte>, k: nat): seq<Byte>
    requires IsHash(hash) && |em| == k && k >= 2 * HLen + 2 && k - HLen - 1 <= MaxMaskLen
  {
    var maskedSeed := em[1..HLen + 1];
    var maskedDb := em[HLen + 1..];
    var seed := Xor(maskedSeed, Mgf1Of(hash, maskedDb, HLen).value);
    Xor(maskedDb, Mgf1Of(hash, seed, k - HLen - 1).value)
  }

  /** The recovered data block ignores the masked-seed bytes: the seed mask
      is empty, so the seed used for unmasking is always empty. */
  lemma UnmaskedBlockIgnoresSeed(hash: Hash, em: seq<Byte>, k: nat)
    requires IsHash(hash) && |em| == k && k >= 2 * HLen + 2 && k - HLen - 1 <= MaxMaskLen
    ensures UnmaskedBlock(hash, em, k) == Xor(em[HLen + 1..], MaskBlocks(hash, [], (k - HLen - 1) / HLen - 1))
  {
    SeedMaskEmpty(hash, em[HLen + 1..]);
    assert Xor(em[1..HLen + 1], []) == [];
  }

  /** The decoding steps after `em[0]` is found to be zero do not panic:
      the data-block mask can be made, the label hash can be copied out of
      the data block, and, when it matches `lHash`, the scan stays inside
      the data block. */
  predicate DecodeSafe(hash: Hash, lHash: seq<Byte>, em: seq<Byte>, k: nat)
    requires IsHash(hash) && |em| == k && k >= 2 * HLen + 2
  {
    && k - HLen - 1 <= MaxMaskLen
    && HLen <= |UnmaskedBlock(hash, em, k)|
    && (UnmaskedBlock(hash, em, k)[..HLen] == lHash ==> ScanSafe(UnmaskedBlock(hash, em, k), HLen))
  }

  /** The recovered data block is as long as the data-block mask, a whole
      number of hash blocks one short of `(k - h_len - 1) / h_len`. The
      decoding is therefore safe exactly for `k > 4 * h_len`, and for
      `3 * h_len < k <= 4 * h_len` when the label hash does not match:
      below `3 * h_len` the data block is empty and copying the label hash
      out of it panics, and up to `4 * h_len` it holds the label hash only,
      so a matching label hash sends the scan past its end. */
  lemma DecodeSafeExactly(hash: Hash, lHash: seq<Byte>, em: seq<Byte>, k: nat)
    requires IsHash(hash) && |lHash| == HLen && |em| == k && k >= 2 * HLen + 2 && k - HLen - 1 <= MaxMaskLen
    ensures |UnmaskedBlock(hash, em, k)| == ((k - HLen - 1) / HLen - 1) * HLen
    ensures DecodeSafe(hash, lHash, em, k) <==> k > 4 * HLen || (k > 3 * HLen && UnmaskedBlock(hash, em, k) != lHash)
  {
    var x := k - HLen - 1;
    UnmaskedBlockIgnoresSeed(hash, em, k);
    var db := UnmaskedBlock(hash, em, k);
    if k <= 3 * HLen {
      DivModUnique(x, HLen, 1, x - HLen);
      assert |db| == 0;
    } else if k <= 4 * HLen {
      DivModUnique(x, HLen, 2, x - 2 * HLen);
      assert |db| == HLen;
      assert db[..HLen] == db;
    } else {
      assert x == HLen * (x / HLen) + x % HLen;
      assert |db| >= 2 * HLen;
    }
  }

  /** The EME-OAEP decoding of `oaep_decrypt_with_label`. */
  function DecodeOf(hash: Hash, lHash: seq<Byte>, em: seq<Byte>, k: nat): (r: Result<seq<Byte>>)
    requires IsHash(hash) && |lHash| == HLen && |em| == k && k >= 2 * HLen + 2
    requires em[0] == 0 ==> DecodeSafe(hash, lHash, em, k)
    ensures r.Failure? ==> r.error == DecryptionError
    ensures em[0] != 0 ==> r.Failure?
    ensures em[0] == 0 && UnmaskedBlock(hash, em, k)[..HLen] != lHash ==> r.Failure?
    ensures r.Success? ==> em[0] == 0 && exists j :: SeparatorAt(UnmaskedBlock(hash, em, k), j) && r.value == UnmaskedBlock(hash, em, k)[j + 1..]
    ensures em[0] == 0 && UnmaskedBlock(hash, em, k)[..HLen] == lHash ==>
      forall j :: SeparatorAt(UnmaskedBlock(hash, em, k), j) ==> r == Success(UnmaskedBlock(hash, em, k)[j + 1..])
    ensures r.Success? ==> |r.value| <= MaxMessageLen(k)
  {
    if em[0] != 0 then Failure(DecryptionError)
    else
      var db := UnmaskedBlock(hash, em, k);
      if db[..HLen] != lHash then Failure(DecryptionError)
      else
        ScanSpec(db);
        ScanOf(db)
  }

  /** The preconditions of `oaep_decrypt_with_label` once the length check
      passes: the decimal text of the ciphertext number parses as
      hexadecimal, the result of `decrypt_plain` fits in `k` bytes, and the
      decoding under the hash of the label does not panic. */
  predicate DecryptSafe(hash: Hash, sk: PrivateKey, ct: seq<Byte>, labelBytes: seq<Byte>,
                        toDecimal: nat -> string, fromHex: string -> Option<nat>)
    requires IsHash(hash)
  {
    var k := ModulusBytes(sk.n);
    k == |ct| && k >= 2 * HLen + 2 ==>
      fromHex(toDecimal(BigEndianValue(ct))).Some? &&
      var m := DecryptPlain(sk, toDecimal(BigEndianValue(ct)), fromHex).value;
      m < Pow256(k) && (BigEndianBytes(m, k)[0] == 0 ==> DecodeSafe(hash, hash(labelBytes), BigEndianBytes(m, k), k))
  }

  /** `oaep_decrypt_with_label`: `DecryptionError` for a ciphertext that is
      not `k` bytes long or a modulus shorter than `2 * h_len + 2` bytes;
      otherwise the ciphertext is read as a number, written as decimal text,
      decrypted by `decrypt_plain`, written back as `k` bytes and decoded. */
  function OaepDecryptOf(hash: Hash, sk: PrivateKey, ct: seq<Byte>, labelBytes: seq<Byte>,
                         toDecimal: nat -> string, fromHex: string -> Option<nat>): (r: Result<seq<Byte>>)
    requires IsHash(hash) && DecryptSafe(hash, sk, ct, labelBytes, toDecimal, fromHex)
    ensures ModulusBytes(sk.n) != |ct| || ModulusBytes(sk.n) < 2 * HLen + 2 ==> r == Failure(DecryptionError)
    ensures r.Failure? ==> r.error == DecryptionError
    ensures r.Success? ==> |r.value| <= MaxMessageLen(ModulusBytes(sk.n))
  {
    var k := ModulusBytes(sk.n);
    if k != |ct| || k < 2 * HLen + 2 then Failure(DecryptionError)
    else
      var m := DecryptPlain(sk, toDecimal(BigEndianValue(ct)), fromHex).value;
      I2ospOutcome(m, k);
      var em := I2ospOf(m, k).value;
      DecodeOf(hash, hash(labelBytes), em, k)
  }
}
