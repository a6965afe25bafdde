# RSA and SHA-256 toolkit — a Dafny model

This project models the cryptographic core of a course toolkit written in
Rust. The toolkit has two parts:

- a stand-alone SHA-256 (`proj/sha256/src/main.rs`);
- an RSA crate. It has textbook RSA on ASCII strings (`plain_rsa.rs`), key
  generation from random primes (`generator.rs`), the extended Euclidean
  algorithm and a Fermat plus Miller–Rabin primality filter
  (`algorithms.rs`), and a retired RSAES-OAEP layer (`deprecate/oaep.rs`)
  with its octet-string helpers (`deprecate/convert.rs`).

The Dafny modules follow those files:

| module | file | contents |
|---|---|---|
| `Errors` | errors.dfy | the crate's `Error` enum, `Result` and `Option` |
| `Bytes` | bytes.dfy | the conversion of numbers below 256 to bytes |
| `Arith` | arith.dfy | `Pow`, `ModPow` (what `BigUint::modpow` computes) and division facts |
| `Convert` | convert.dfy | `i2osp`, `os2ip`, `string_xor` |
| `Sha256` | sha256.dfy | padding, schedule, rounds, compression, digest |
| `Algorithms` | algorithms.dfy | `ext_euc`, `fermat_test`, `miller_rabin_test`, `is_prime` |
| `NumberTheory` | numbertheory.dfy | Fermat's little theorem, soundness of the tests on primes, RSA correctness |
| `Keys` | keys.dfy | the `PublicKey`, `PrivateKey` and `Generator` records |
| `PlainRsa` | plainrsa.dfy | key constructors, `encrypt_plain`, `encrypt`, `decrypt_plain`, `decrypt` |
| `KeyGen` | generator.dfy | `From<(&PublicKey, &PrivateKey)>`, `Generator::new`, `Generator::new_prime` |
| `Oaep` | oaep.dfy | `mgf1`, the EME-OAEP encoding and decoding, the separator scan |

Loops of the source are methods. Each one is proved equal to a
specification function, and lemmas state what those functions mean. Examples:
the padding is the fewest bytes that complete a block, compression can be
undone round by round, `ext_euc` returns a gcd and Bézout coefficients,
`is_prime` accepts every odd prime once its Fermat witness is nonzero, and
keys built from two distinct primes decrypt what they encrypt.

Values the source draws at random are parameters: the candidate primes,
the Fermat and Miller–Rabin witnesses, and the OAEP seed. The number-to-text
conversions (`to_str_radix(16)`, `from_str_radix(…, 16)`, `to_string`) are
also parameters, and the lemmas that need them state what they assume about
them. A Rust panic (an `unwrap` on an error, a `usize` underflow, an index out
of range) becomes a precondition. The model follows the code where it
departs from the standards it cites (FIPS 180-4 and section 7.1 of
RFC 8017); the OAEP deviations are listed at the head of oaep.dfy.

## Model

| member | source | states |
|---|---|---|
| Sha256.RotationAmounts | proj/sha256/src/main.rs:16-34 | `rightrotate32` is the rotation ROTR at 0 and at every amount the four sigma functions use |
| Sha256.ChoiceSelects | proj/sha256/src/main.rs:62-64 | `choice` takes each bit from `y` where `x` is one and from `z` where `x` is zero |
| Sha256.MajorityVotes | proj/sha256/src/main.rs:66-68 | `majority` is the bitwise majority vote, symmetric in its arguments |
| Sha256.PaddingLength | proj/sha256/src/main.rs:36-46 | the padding is 9 to 72 bytes, completes a whole number of 64-byte blocks, and has (55 - length) mod 64 zero bytes |
| Sha256.PaddingContent | proj/sha256/src/main.rs:36-46 | the padding is 0x80, then zero bytes, then the bit length modulo 2^64 as eight big-endian bytes |
| Sha256.Padding | proj/sha256/src/main.rs:36-46 | the push loop builds exactly the padding described above |
| Sha256.WordBytesRoundTrip | proj/sha256/src/main.rs:51 | `u32::from_be_bytes` and `to_be_bytes` are inverse |
| Sha256.ScheduleRecurrence | proj/sha256/src/main.rs:48-60 | the schedule has 64 words: the block's 16 big-endian words, then W[t-16] + σ0(W[t-15]) + W[t-7] + σ1(W[t-2]) modulo 2^32 |
| Sha256.ScheduleHead | proj/sha256/src/main.rs:50-52 | word `i < 16` of the schedule is bytes 4i..4i+4 of the block |
| Sha256.ScheduleTail | proj/sha256/src/main.rs:53-58 | word `i >= 16` follows the σ recurrence |
| Sha256.MessageSchedule | proj/sha256/src/main.rs:48-60 | the two array loops compute that schedule |
| Sha256.Round | proj/sha256/src/main.rs:70-89 | a round shifts the working variables: b, c, d take a, b, c and f, g, h take e, f, g |
| Sha256.UnRoundRound | proj/sha256/src/main.rs:70-89 | a round is injective: the inverse round recovers the state before it |
| Sha256.RoundUnRound | proj/sha256/src/main.rs:70-89 | the inverse round is a right inverse too, so a round is a bijection on states |
| Sha256.RoundsInverse | proj/sha256/src/main.rs:94-96 | any number of rounds is undone by the inverse rounds in reverse order |
| Sha256.CompressFeedForward | proj/sha256/src/main.rs:91-107 | compression adds the 64 rounds to the input state, so subtracting the input state and undoing the rounds recovers it |
| Sha256.Compress | proj/sha256/src/main.rs:91-107 | the round loop and the feed-forward compute that compression |
| Sha256.DigestWords | proj/sha256/src/main.rs:109-115 | the digest bytes decode back to the eight state words |
| Sha256.GetHash | proj/sha256/src/main.rs:109-115 | the copy loop writes each state word as four big-endian bytes |
| Sha256.FoldBlocksAppend | proj/sha256/src/main.rs:122-124 | hashing two block sequences in turn is hashing their concatenation (Merkle–Damgård chaining) |
| Sha256.CompressBlocks | proj/sha256/src/main.rs:121-124 | the chunk loop folds compression over the 64-byte blocks from the initial value |
| Sha256.Sha256Determines | proj/sha256/src/main.rs:117-126 | the digest is exactly the final state's words, so it determines that state |
| Sha256.Sha256Continues | proj/sha256/src/main.rs:117-126 | hashing a message that starts with whole blocks is continuing from the state after those blocks with the rest and the padding |
| Sha256.Sha256 | proj/sha256/src/main.rs:117-126 | `sha256` returns the SHA-256 of its message |
| Convert.ValueOfBytes | proj/rsa/deprecate/convert.rs:10-15 | the `size` bytes written by the i2osp loop denote `x` modulo 256^size |
| Convert.BytesOfValue | proj/rsa/deprecate/convert.rs:29-33 | writing a byte string's value back at its own length gives the same bytes |
| Convert.LeadingZeros | proj/rsa/deprecate/convert.rs:29-33 | leading zero bytes do not change the value |
| Convert.I2ospOutcome | proj/rsa/deprecate/convert.rs:5-22 | i2osp succeeds exactly when `size > 0` and `x < 256^size`, and otherwise fails with IntegerTooLarge; on success byte size-1-i is digit i of `x` in base 256 |
| Convert.Os2ipOutcome | proj/rsa/deprecate/convert.rs:24-36 | os2ip fails with OctetStringEmpty exactly on the empty string; its value is below 256^len and ignores leading zeros |
| Convert.I2ospThenOs2ip | proj/rsa/deprecate/convert.rs:5-36 | os2ip undoes a successful i2osp |
| Convert.Os2ipThenI2osp | proj/rsa/deprecate/convert.rs:5-36 | i2osp at the original length undoes os2ip on a nonempty string |
| Convert.I2osp | proj/rsa/deprecate/convert.rs:5-22 | the shifting loop computes i2osp |
| Convert.Os2ip | proj/rsa/deprecate/convert.rs:24-36 | the accumulating loop computes os2ip |
| Convert.XorLaws | proj/rsa/deprecate/convert.rs:38-54 | `string_xor` is as long as the shorter operand, XORs byte by byte, is symmetric, and undoes itself on operands of equal length |
| Convert.StringXor | proj/rsa/deprecate/convert.rs:38-54 | the loop computes that XOR and never fails |
| Algorithms.TruncDiv | proj/rsa/src/algorithms.rs:16 | `BigInt` division rounds toward zero: the remainder is smaller than the divisor in magnitude and, when not zero, has the sign of the dividend; on non-negative operands it is Euclidean division |
| Algorithms.EuclidLoopBezout | proj/rsa/src/algorithms.rs:15-20 | every remainder the loop produces is the matching combination s·a + t·b |
| Algorithms.EuclidLoopDivides | proj/rsa/src/algorithms.rs:15-21 | from positive arguments the loop ends with a positive common divisor |
| Algorithms.ExtEucBezout | proj/rsa/src/algorithms.rs:8-23 | for nonzero `a` and `b`, `ext_euc` returns s, t, g with s·a + t·b = g |
| Algorithms.ExtEucGcd | proj/rsa/src/algorithms.rs:8-23 | for positive `a` and `b`, g is their greatest common divisor: it divides both and every common divisor divides it |
| Algorithms.ExtEucExample | proj/rsa/src/algorithms.rs:27-34 | `ext_euc(240, 46)` is (-9, 47, 2) |
| Algorithms.ExtEucZeroCase | proj/rsa/src/algorithms.rs:10-11 | with a zero argument the result is (a XOR b, 0, 1), which satisfies Bézout's identity only for b = 0 and a = ±1 |
| Algorithms.ExtEuc | proj/rsa/src/algorithms.rs:8-23 | the loop computes `ext_euc` |
| Algorithms.HalvingFactors | proj/rsa/src/algorithms.rs:72-77 | the halving loop leaves p - 1 = d·2^s with d odd |
| Algorithms.HalvingOdd | proj/rsa/src/algorithms.rs:72-79 | for an odd p > 2, s is positive, so `s - 1` does not underflow |
| Algorithms.MillerRabinTest | proj/rsa/src/algorithms.rs:60-107 | the two nested loops return whether every drawn witness passes its round |
| Algorithms.IsPrimeGuards | proj/rsa/src/algorithms.rs:36-51 | `is_prime` rejects 0 and even numbers other than 2, and accepts only when the Fermat test and all rounds pass |
| Algorithms.IsPrime | proj/rsa/src/algorithms.rs:36-51 | the method returns what `is_prime` decides for the given witnesses |
| NumberTheory.FermatLittle | proj/rsa/src/algorithms.rs:53-58 | a^(p-1) mod p = 1 for prime p and a not a multiple of p, the fact the Fermat test relies on |
| NumberTheory.FermatAcceptsPrimes | proj/rsa/src/algorithms.rs:53-58 | the Fermat test passes for every prime and every nonzero witness below it |
| NumberTheory.FermatRejectsZero | proj/rsa/src/algorithms.rs:56-57 | the witness 0, which `gen_biguint_below` can draw, fails the Fermat test |
| NumberTheory.WitnessAcceptsPrime | proj/rsa/src/algorithms.rs:81-104 | every witness passes a Miller–Rabin round for an odd prime |
| NumberTheory.MillerRabinAcceptsPrimes | proj/rsa/src/algorithms.rs:60-107 | `miller_rabin_test` accepts every odd prime with witnesses in range |
| NumberTheory.IsPrimeOnPrimes | proj/rsa/src/algorithms.rs:36-51 | on an odd prime, `is_prime` accepts exactly when its Fermat witness is nonzero |
| NumberTheory.RsaCorrect | proj/rsa/src/plain_rsa.rs:79 | for distinct primes and e·d ≡ 1 modulo (p-1)(q-1), decryption undoes encryption of every m < pq |
| PlainRsa.NewPublicKey | proj/rsa/src/plain_rsa.rs:67-72 | `PublicKey::new` always succeeds and keeps n and e |
| PlainRsa.NewPrivateKey | proj/rsa/src/plain_rsa.rs:136-141 | `PrivateKey::new` always succeeds and keeps n and d |
| PlainRsa.PublicKeyFrom | proj/rsa/src/plain_rsa.rs:26-33 | the public key of a generator has its n and e |
| PlainRsa.PrivateKeyFrom | proj/rsa/src/plain_rsa.rs:96-103 | the private key of a generator has its n and d |
| PlainRsa.MessageCode | proj/rsa/src/plain_rsa.rs:78 | the big-endian number of an ASCII message is below 256^len |
| PlainRsa.MinimalBytesValue | proj/rsa/src/plain_rsa.rs:151 | `to_bytes_be` denotes its number and has no leading zero byte unless it is the single byte 0 |
| PlainRsa.MinimalBytesOfValue | proj/rsa/src/plain_rsa.rs:151 | every nonempty byte string without a leading zero byte is the `to_bytes_be` of its value |
| PlainRsa.EncryptPlain | proj/rsa/src/plain_rsa.rs:74-81 | `encrypt_plain` fails with MessageNotASCII exactly on a non-ASCII message, and otherwise returns a residue below n |
| PlainRsa.Encrypt | proj/rsa/src/plain_rsa.rs:83-93 | `encrypt` fails exactly when `encrypt_plain` does, and otherwise is the hexadecimal text of its result |
| PlainRsa.DecryptPlain | proj/rsa/src/plain_rsa.rs:143-147 | `decrypt_plain` always succeeds with a residue below n |
| PlainRsa.Decrypt | proj/rsa/src/plain_rsa.rs:149-154 | `decrypt` returns the minimal big-endian bytes of what `decrypt_plain` returns |
| PlainRsa.EncryptPlainThenDecrypt | proj/rsa/src/plain_rsa.rs:74-81 | with RSA keys, raising the `encrypt_plain` result to d gives the message number back |
| PlainRsa.EncryptThenDecrypt | proj/rsa/src/plain_rsa.rs:83-154 | `decrypt(encrypt(msg))` gives back the bytes of a nonempty ASCII message without a leading NUL, when its number is below n and the hexadecimal text parses back |
| PlainRsa.Malleable | proj/rsa/src/plain_rsa.rs:79 | textbook RSA is multiplicative: the product of two ciphertexts is the ciphertext of the product |
| PlainRsa.MalleableDecrypt | proj/rsa/src/plain_rsa.rs:145 | decrypting a product of ciphertexts yields the product of the plaintexts modulo n |
| KeyGen.FromKeys | proj/rsa/src/generator.rs:25-37 | assembling a generator fails with InvalidKeyPair exactly when the moduli differ |
| KeyGen.SplitThenAssemble | proj/rsa/src/generator.rs:25-37 | assembling the two keys of a generator gives the generator back |
| KeyGen.AssembleThenSplit | proj/rsa/src/generator.rs:25-37 | splitting an assembled matching pair gives the two keys back |
| KeyGen.NormalizedShift | proj/rsa/src/generator.rs:53-55 | the loop `while s < 0 { s += fi }` only adds multiples of fi |
| KeyGen.NormalizedCongruent | proj/rsa/src/generator.rs:53-55 | the loop ends with a non-negative value congruent to its start modulo fi, keeps a non-negative start, and ends below fi from a negative start |
| KeyGen.FirstCoefficient | proj/rsa/src/generator.rs:48-55 | `ext_euc(65537, fi)` never gives the loop a start it cannot finish |
| KeyGen.NewFromPrimes | proj/rsa/src/generator.rs:44-58 | `Generator::new` after its two primes are drawn: n = pq, e = 65537, d the normalised Bézout coefficient |
| KeyGen.PrivateExponentInverse | proj/rsa/src/generator.rs:45-56 | e·d ≡ 1 modulo (p-1)(q-1) exactly when `ext_euc` finds 65537 and (p-1)(q-1) coprime |
| KeyGen.GeneratedKeysRoundTrip | proj/rsa/src/generator.rs:40-59 | keys generated from distinct primes with 65537 invertible decrypt what they encrypt |
| KeyGen.AcceptedAtLeastTwo | proj/rsa/src/generator.rs:65 | no accepted candidate is below 2 |
| KeyGen.FirstAcceptedSpec | proj/rsa/src/generator.rs:61-69 | the search returns the first accepted candidate, which is in [2, 2^size), with every earlier draw rejected, and finds nothing only when every draw is rejected |
| KeyGen.NoWitnessForThree | proj/rsa/src/algorithms.rs:82 | the candidate 3 leaves the Miller–Rabin witness range [2, 2) empty |
| KeyGen.AcceptsOddPrimes | proj/rsa/src/generator.rs:64-66 | a draw of an odd prime is accepted exactly when its Fermat witness is nonzero |
| KeyGen.NewPrime | proj/rsa/src/generator.rs:61-69 | the search loop returns the first accepted candidate |
| Oaep.BitsBounds | proj/rsa/deprecate/oaep.rs:45 | `bits()` is 0 only for 0 and otherwise satisfies 2^(bits-1) <= n < 2^bits |
| Oaep.ModulusBytes | proj/rsa/deprecate/oaep.rs:45 | a positive key length in bytes comes from a positive modulus |
| Oaep.MaskBlocks | proj/rsa/deprecate/oaep.rs:23-33 | `count` mask blocks are `count · h_len` bytes long |
| Oaep.Mgf1Of | proj/rsa/deprecate/oaep.rs:14-36 | `mgf1` fails with MaskTooLong exactly above 2^32·h_len, and otherwise returns (mask_len / h_len - 1)·h_len bytes, fewer than asked for |
| Oaep.MaskBlockAt | proj/rsa/deprecate/oaep.rs:23-33 | block i of the mask is the hash of the seed followed by the 4-byte big-endian counter i |
| Oaep.SeedMaskEmpty | proj/rsa/deprecate/oaep.rs:22 | a mask of exactly h_len bytes comes out empty |
| Oaep.CounterFits | proj/rsa/deprecate/oaep.rs:24 | the counter's `i2osp(i, 4)` never fails inside the loop |
| Oaep.Mgf1 | proj/rsa/deprecate/oaep.rs:14-36 | the loop computes `mgf1` |
| Oaep.DataBlock | proj/rsa/deprecate/oaep.rs:61-62 | the data block is k - h_len - 1 bytes long |
| Oaep.DataBlockLayout | proj/rsa/deprecate/oaep.rs:61-62 | the data block is the label hash, zero bytes, a single 0x01 byte and the message |
| Oaep.EncodeLayout | proj/rsa/deprecate/oaep.rs:64-74 | the encoded message is a zero byte and the data block masked with the seed's mask; the masked seed is empty and the whole is shorter than k |
| Oaep.OaepEncryptOf | proj/rsa/deprecate/oaep.rs:42-81 | encryption fails with MessageTooLong exactly for messages over k - 2·h_len - 2 bytes, fails otherwise only with IntegerTooLarge, and returns k bytes |
| Oaep.ScanFromSpec | proj/rsa/deprecate/oaep.rs:132-147 | the scan from position i succeeds exactly at an accepted separator and returns the bytes after it, else DecryptionError |
| Oaep.ScanSpec | proj/rsa/deprecate/oaep.rs:132-147 | the scan after the label hash succeeds exactly when there is an accepted separator, returns what follows it, and otherwise fails with DecryptionError |
| Oaep.SeparatorScan | proj/rsa/deprecate/oaep.rs:132-147 | the scan loop and the copy compute that scan |
| Oaep.DataBlockScan | proj/rsa/deprecate/oaep.rs:61-62 | the scan recovers the message from a data block, except an empty message behind padding, which it rejects |
| Oaep.UnmaskedBlockIgnoresSeed | proj/rsa/deprecate/oaep.rs:119-123 | the recovered data block does not depend on the masked-seed bytes |
| Oaep.DecodeOf | proj/rsa/deprecate/oaep.rs:109-147 | decoding fails with DecryptionError when the first byte is nonzero or the label hash differs; it succeeds exactly when the first byte is zero, the label hash matches and an accepted separator exists, and then returns the bytes after it, at most k - 2·h_len - 2 of them |
| Oaep.DecodeSafeExactly | proj/rsa/deprecate/oaep.rs:119-134 | the recovered data block is ((k - h_len - 1)/h_len - 1)·h_len bytes long, so decoding panics for every k ≤ 3·h_len and, for k ≤ 4·h_len, whenever the label hash matches |
| Oaep.OaepDecryptOf | proj/rsa/deprecate/oaep.rs:87-149 | decryption fails with DecryptionError on a ciphertext that is not k bytes or a modulus under 2·h_len + 2 bytes, fails only with DecryptionError, and returns at most k - 2·h_len - 2 bytes |

## Left out

- File I/O is not modelled: `print_to_file`, the `From<&Path>` key loaders and their base64 coding.
- `main` and the test printing are not modelled.
- The `Display` texts of the errors are not modelled; the `Error` enum is.
- Threads: `Generator::new` runs one prime search on a second thread; the model takes both primes as parameters.
- Randomness: every random draw is a parameter. These are the candidates and witnesses in `KeyGen.Draw` and the OAEP seed. The model states no probability bounds.
- The number-to-text conversions of `num_bigint` (`to_str_radix(16)`, `from_str_radix(16)`, `to_string`) are uninterpreted functions passed in. A parse that would `unwrap` an error becomes a precondition.
- PlainRsa.Decrypt: returns the decrypted bytes. The `str::from_utf8(...).unwrap()` step of `decrypt` and its panic on non-UTF-8 bytes are not modelled.
- `BigUint` and `BigInt` arithmetic is Dafny's unbounded integers; bignum internals are not modelled.
- `u32` words are `bv32`, so `wrapping_add` is exact. The `u64` length arithmetic of `padding` is written out modulo 2^64.
- Sha256.RotationAmounts: proves that `rightrotate32` rotates only at 0 and at the ten amounts the sigma functions use, not for every n < 32; a rotation by a symbolic amount is beyond what the verifier does here.
- Sha256.Sha256: requires the message length to fit in a `u64`, as the `as u64` cast does.
- Oaep: the hash is a parameter with 32-byte digests rather than the `sha2` crate's SHA-256; `Oaep.Sha256IsHash` shows that `Sha256.Sha256Of` qualifies. The `InvalidBufferSize` error of `finalize_into_reset` cannot happen with a 32-byte buffer and is not modelled.
- Oaep: no OAEP encrypt-then-decrypt round trip is stated. Two things break it in the source. `encrypt_plain` reads the decimal text of the encoded message as ASCII bytes. `decrypt_plain` parses the decimal text of the ciphertext as hexadecimal.
- Oaep.Mgf1Of: requires `mask_len >= h_len`, because `mask_len / h_len - 1` underflows in `usize` below that.
- Oaep.OaepEncryptOf: requires a modulus of at least 2·h_len + 2 bytes, because `k - 2 * h_len - 2` underflows in `usize` below that. It also requires the decimal text to be ASCII, which `encrypt_plain(...).unwrap()` needs.
- Oaep.OaepDecryptOf: requires `DecryptSafe`, because the `unwrap`s on the hexadecimal parse and on `i2osp(m, k)` panic instead of returning an error.
- Oaep.OaepDecryptOf: `DecryptSafe` also excludes two index panics of the decoder, which are the normal case for small keys. The data block is only ((k - h_len - 1)/h_len - 1)·h_len bytes long (a consequence of the short `mgf1`). For k < 3·h_len + 1 = 97 bytes it is empty, and `copy_from_slice(&db[..h_len])` (oaep.rs:126) panics whenever `em[0] == 0`. For k ≤ 4·h_len = 128 bytes, which includes 1024-bit keys, it holds the label hash only, and `db[msg_st]` (oaep.rs:134) panics whenever the label hash matches. So for k ≤ 128 the contract covers only rejected ciphertexts; `Oaep.DecodeSafeExactly` states exactly when decoding is safe.
- Algorithms.MillerRabinTest: requires the witnesses to lie in [2, p - 1). `gen_biguint_range` panics on the empty range of p = 3, and this is a precondition, so `KeyGen.DrawFits` excludes draws of 3 that pass the Fermat test.
- Algorithms.MillerRabinTest: does not model the `to_u64().unwrap()` of `s - 1`; `s` is far below 2^64 for any number the source can hold.
- KeyGen.FromKeys: the source panics when the moduli differ. The panic message is the text of `Error::InvalidKeyPair`, so the model returns `Failure(InvalidKeyPair)`.
- KeyGen.NewPrime: the source loops until a candidate is accepted. The model takes a finite sequence of draws and returns `None` when none is accepted.
- KeyGen.NewFromPrimes: requires positive primes, because `&p - 1` panics on a zero `BigUint`. It does not model the `to_biguint().unwrap()` on `s`, which the loop makes non-negative.
