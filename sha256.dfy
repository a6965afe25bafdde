/** The stand-alone SHA-256 of proj/sha256/src/main.rs, after FIPS 180-4:
    padding (section 5.1.1), the logical functions (section 4.1.2), the
    message schedule and the 64-round compression (section 6.2.2) and the
    big-endian digest. Words are `bv32`, so `+` on them is the source's
    `wrapping_add`. Each loop of the source is a method proved equal to a
    specification function; the lemmas state what those functions mean. */
module Sha256 {
  import opened Arith
  import opened Convert

  type Word = bv32

  /** The eight-word hash state (`[u32; 8]`); the fields carry the names
      of the working variables of FIPS 180-4. */
  datatype State = State(a: Word, b: Word, c: Word, d: Word, e: Word, f: Word, g: Word, h: Word) {
    /** The words in the order of the source's array. */
    function Words(): (ws: seq<Word>)
      ensures |ws| == 8
    {
      [a, b, c, d, e, f, g, h]
    }
  }

  const IV: State :=
    State(0x6a09e667, 0xbb67ae85, 0x3c6ef372, 0xa54ff53a, 0x510e527f, 0x9b05688c, 0x1f83d9ab, 0x5be0cd19)

  const RoundConstants: seq<Word> := [
    0x428a2f98, 0x71374491, 0xb5c0fbcf, 0xe9b5dba5, 0x3956c25b, 0x59f111f1, 0x923f82a4, 0xab1c5ed5,
    0xd807aa98, 0x12835b01, 0x243185be, 0x550c7dc3, 0x72be5d74, 0x80deb1fe, 0x9bdc06a7, 0xc19bf174,
    0xe49b69c1, 0xefbe4786, 0x0fc19dc6, 0x240ca1cc, 0x2de92c6f, 0x4a7484aa, 0x5cb0a9dc, 0x76f988da,
    0x983e5152, 0xa831c66d, 0xb00327c8, 0xbf597fc7, 0xc6e00bf3, 0xd5a79147, 0x06ca6351, 0x14292967,
    0x27b70a85, 0x2e1b2138, 0x4d2c6dfc, 0x53380d13, 0x650a7354, 0x766a0abb, 0x81c2c92e, 0x92722c85,
    0xa2bfe8a1, 0xa81a664b, 0xc24b8b70, 0xc76c51a3, 0xd192e819, 0xd6990624, 0xf40e3585, 0x106aa070,
    0x19a4c116, 0x1e376c08, 0x2748774c, 0x34b0bcb5, 0x391c0cb3, 0x4ed8aa4a, 0x5b9cca4f, 0x682e6ff3,
    0x748f82ee, 0x78a5636f, 0x84c87814, 0x8cc70208, 0x90befffa, 0xa4506ceb, 0xbef9a3f7, 0xc67178f2
  ]

  /** One more than the largest `u64`. */
  const U64Modulus: nat := 0x1_0000_0000_0000_0000

  // ---------------------------------------------------------------------
  // Logical functions (section 4.1.2 of FIPS 180-4)

  /** `rightrotate32`; `32 - n` is a `u32` subtraction, so `n` may not
      exceed 32. */
  function RightRotate32(x: Word, n: Word): Word
    requires n <= 32
  {
    (x >> (n % 32)) | (x << ((32 - n) % 32))
  }

  /** For every amount the hash uses, and for 0, `RightRotate32` is the
      rotation ROTR of section 3.2 of FIPS 180-4 (`RotateRight`). The
      sigma functions below are written with `RotateRight`, which this
      lemma shows to be what `rightrotate32` computes at their amounts. */
  lemma RotationAmounts(x: Word)
    ensures RightRotate32(x, 0) == x
    ensures RightRotate32(x, 2) == x.RotateRight(2)
    ensures RightRotate32(x, 6) == x.RotateRight(6)
    ensures RightRotate32(x, 7) == x.RotateRight(7)
    ensures RightRotate32(x, 11) == x.RotateRight(11)
    ensures RightRotate32(x, 13) == x.RotateRight(13)
    ensures RightRotate32(x, 17) == x.RotateRight(17)
    ensures RightRotate32(x, 18) == x.RotateRight(18)
    ensures RightRotate32(x, 19) == x.RotateRight(19)
    ensures RightRotate32(x, 22) == x.RotateRight(22)
    ensures RightRotate32(x, 25) == x.RotateRight(25)
  {
  }

  /** Σ0, equation 4.4. */
  function BigSigma0(x: Word): Word {
    x.RotateRight(2) ^ x.RotateRight(13) ^ x.RotateRight(22)
  }

  /** Σ1, equation 4.5. */
  function BigSigma1(x: Word): Word {
    x.RotateRight(6) ^ x.RotateRight(11) ^ x.RotateRight(25)
  }

  /** σ0, equation 4.6. */
  function LowSigma0(x: Word): Word {
    x.RotateRight(7) ^ x.RotateRight(18) ^ (x >> 3)
  }

  /** σ1, equation 4.7. */
  function LowSigma1(x: Word): Word {
    x.RotateRight(17) ^ x.RotateRight(19) ^ (x >> 10)
  }

  function Choice(x: Word, y: Word, z: Word): Word {
    (x & y) ^ (!x & z)
  }

  function Majority(x: Word, y: Word, z: Word): Word {
    (x & y) ^ (x & z) ^ (y & z)
  }

  /** Ch takes each bit from `y` where `x` has a one and from `z` where `x`
      has a zero. */
  lemma ChoiceSelects(x: Word, y: Word, z: Word)
    ensures Choice(x, y, z) & x == y & x
    ensures Choice(x, y, z) & !x == z & !x
  {
  }

  /** Maj is the bitwise majority vote, whatever the order of its
      arguments. */
  lemma MajorityVotes(x: Word, y: Word, z: Word)
    ensures Majority(x, y, z) == (x & y) | (x & z) | (y & z)
    ensures Majority(x, y, z) == Majority(y, z, x) == Majority(y, x, z)
  {
  }

  // ---------------------------------------------------------------------
  // Padding (section 5.1.1 of FIPS 180-4)

  /** What `padding(length)` returns. The length field is `8 * length` as a
      `u64`, so it wraps modulo 2^64. */
  function PaddingOf(length: nat): seq<Byte> {
    [0x80] + Zeros(63 - (length + 8) % 64) + BigEndianBytes((8 * length) % U64Modulus, 8)
  }

  /** The padding is 9 to 72 bytes long and makes the padded message a
      whole number of 64-byte blocks, with (55 - length) mod 64 zero bytes,
      the fewest that do (section 5.1.1 of FIPS 180-4: k = (448 - l - 1) mod 512 bits). */
  lemma PaddingLength(length: nat)
    ensures 9 <= |PaddingOf(length)| <= 72
    ensures (length + |PaddingOf(length)|) % 64 == 0
    ensures |PaddingOf(length)| - 9 == (55 - length) % 64
  {
    var z := 63 - (length + 8) % 64;
    assert |PaddingOf(length)| == 9 + z;
    var q, r := length / 64, length % 64;
    assert length == 64 * q + r;
    if r < 56 {
      DivModUnique(length + 8, 64, q, r + 8);
      DivModUnique(55 - length, 64, -q, 55 - r);
      DivModUnique(length + 9 + z, 64, q + 1, 0);
    } else {
      DivModUnique(length + 8, 64, q + 1, r - 56);
      DivModUnique(55 - length, 64, -q - 1, 119 - r);
      DivModUnique(length + 9 + z, 64, q + 2, 0);
    }
  }

  /** The padding is 0x80, zero bytes, and the bit length `8 * length`
      modulo 2^64 as eight big-endian bytes. */
  lemma PaddingContent(length: nat)
    ensures var p := PaddingOf(length);
      && |p| >= 9
      && p[0] == 0x80
      && (forall i :: 1 <= i < |p| - 8 ==> p[i] == 0)
      && BigEndianValue(p[|p| - 8..]) == (8 * length) % U64Modulus
  {
    var p := PaddingOf(length);
    var field := (8 * length) % U64Modulus;
    assert p[|p| - 8..] == BigEndianBytes(field, 8);
    ValueOfBytes(field, 8);
    assert Pow256(8) == U64Modulus;
    DivModUnique(field, U64Modulus, 0, field);
  }

  /** `padding`, with `length` a `u64`; `length + 8` wraps as well. */
  method Padding(length: nat) returns (p: seq<Byte>)
    requires length < U64Modulus
    ensures p == PaddingOf(length)
  {
    p := [0x80];
    var remainder := (length + 8) % U64Modulus % 64;
    var fillerBytes := 64 - remainder;
    var zeroBytes := fillerBytes - 1;
    assert zeroBytes == 63 - (length + 8) % 64;
    for i := 0 to zeroBytes
      invariant p == [0x80] + Zeros(i)
    {
      assert Zeros(i + 1) == Zeros(i) + [0];
      p := p + [0];
    }
    p := p + BigEndianBytes((8 * length) % U64Modulus, 8);
  }

  // ---------------------------------------------------------------------
  // Words and bytes

  /** `u32::from_be_bytes`. */
  function WordOf(b: seq<Byte>): Word
    requires |b| == 4
  {
    ((b[0] as Word) << 24) | ((b[1] as Word) << 16) | ((b[2] as Word) << 8) | (b[3] as Word)
  }

  /** `u32::to_be_bytes`. */
  function BytesOfWord(w: Word): (b: seq<Byte>)
    ensures |b| == 4
  {
    [(w >> 24) as Byte, ((w >> 16) & 0xff) as Byte, ((w >> 8) & 0xff) as Byte, (w & 0xff) as Byte]
  }

  /** The two conversions are inverse. */
  lemma WordBytesRoundTrip(w: Word, b: seq<Byte>)
    requires |b| == 4
    ensures WordOf(BytesOfWord(w)) == w
    ensures BytesOfWord(WordOf(b)) == b
  {
  }

  // ---------------------------------------------------------------------
  // Message schedule

  /** One word of the schedule from four earlier ones, as `message_schedule`
      computes it with `wrapping_add`. */
  function ScheduleStep(w16: Word, w15: Word, w7: Word, w2: Word): Word {
    WrappingAdd(WrappingAdd(WrappingAdd(w16, LowSigma0(w15)), w7), LowSigma1(w2))
  }

  /** The first `n` schedule words of a block. */
  function ScheduleWords(block: seq<Byte>, n: nat): (w: seq<Word>)
    requires |block| == 64 && n <= 64
    ensures |w| == n
  {
    if n == 0 then []
    else
      var w := ScheduleWords(block, n - 1);
      var i := n - 1;
      if i < 16 then w + [WordOf(block[4 * i..4 * i + 4])]
      else w + [ScheduleStep(w[i - 16], w[i - 15], w[i - 7], w[i - 2])]
  }

  /** What `message_schedule(block)` returns. */
  function Schedule(block: seq<Byte>): seq<Word>
    requires |block| == 64
  {
    ScheduleWords(block, 64)
  }

  lemma {:induction false} SchedulePrefix(block: seq<Byte>, i: nat, n: nat)
    requires |block| == 64 && i < n <= 64
    ensures ScheduleWords(block, n)[i] == ScheduleWords(block, i + 1)[i]
    decreases n
  {
    if n > i + 1 {
      SchedulePrefix(block, i, n - 1);
    }
  }

  /** Word `i < 16` of the schedule is big-endian word `i` of the block. */
  lemma ScheduleHead(block: seq<Byte>, i: nat)
    requires |block| == 64 && i < 16
    ensures Schedule(block)[i] == WordOf(block[4 * i..4 * i + 4])
  {
    SchedulePrefix(block, i, 64);
  }

  /** Word `i >= 16` of the schedule comes from words i-16, i-15, i-7 and
      i-2 by the σ recurrence. */
  lemma ScheduleTail(block: seq<Byte>, i: nat)
    requires |block| == 64 && 16 <= i < 64
    ensures var w := Schedule(block);
      w[i] == ScheduleStep(w[i - 16], w[i - 15], w[i - 7], w[i - 2])
  {
    var v := ScheduleWords(block, i);
    assert ScheduleWords(block, i + 1)[i] == ScheduleStep(v[i - 16], v[i - 15], v[i - 7], v[i - 2]);
    SchedulePrefix(block, i, 64);
    SchedulePrefix(block, i - 16, 64);
    SchedulePrefix(block, i - 16, i);
    SchedulePrefix(block, i - 15, 64);
    SchedulePrefix(block, i - 15, i);
    SchedulePrefix(block, i - 7, 64);
    SchedulePrefix(block, i - 7, i);
    SchedulePrefix(block, i - 2, 64);
    SchedulePrefix(block, i - 2, i);
  }

  /** Section 6.2.2 of FIPS 180-4, step 1: the first 16 words are the
      big-endian words of the block, and each later one is W[t-16] + σ0(W[t-15]) + W[t-7] +
      σ1(W[t-2]) modulo 2^32. */
  lemma ScheduleRecurrence(block: seq<Byte>)
    requires |block| == 64
    ensures |Schedule(block)| == 64
    ensures forall i :: 0 <= i < 16 ==> Schedule(block)[i] == WordOf(block[4 * i..4 * i + 4])
    ensures forall i :: 16 <= i < 64 ==>
      var w := Schedule(block);
      w[i] == ScheduleStep(w[i - 16], w[i - 15], w[i - 7], w[i - 2])
  {
    forall i | 0 <= i < 16 {
      ScheduleHead(block, i);
    }
    forall i | 16 <= i < 64 {
      ScheduleTail(block, i);
    }
  }

  method MessageSchedule(block: seq<Byte>) returns (schedule: seq<Word>)
    requires |block| == 64
    ensures schedule == Schedule(block)
  {
    var w := new Word[64](_ => 0);
    for i := 0 to 16
      invariant w[..i] == ScheduleWords(block, i)
    {
      w[i] := WordOf(block[4 * i..][..4]);
      assert block[4 * i..][..4] == block[4 * i..4 * i + 4];
      assert w[..i + 1] == w[..i] + [w[i]];
    }
    for i := 16 to 64
      invariant w[..i] == ScheduleWords(block, i)
    {
      w[i] := ScheduleStep(w[i - 16], w[i - 15], w[i - 7], w[i - 2]);
      assert w[..i + 1] == w[..i] + [w[i]];
    }
    schedule := w[..];
  }

  // ---------------------------------------------------------------------
  // Rounds and compression

  /** `u32::wrapping_add`. */
  function WrappingAdd(x: Word, y: Word): Word {
    x + y
  }

  /** `u32::wrapping_sub`, used only to undo a round. */
  function WrappingSub(x: Word, y: Word): Word {
    x - y
  }

  /** Adding and subtracting the same word cancel. */
  lemma AddCancel(x: Word, y: Word)
    ensures WrappingSub(WrappingAdd(x, y), y) == x
  {
    assert WrappingAdd(x, y) == x + y;
    assert WrappingSub(x + y, y) == (x + y) - y;
  }

  lemma AddCancelLeft(x: Word, y: Word)
    ensures WrappingSub(WrappingAdd(y, x), y) == x
  {
    assert WrappingAdd(y, x) == y + x;
    assert WrappingSub(y + x, y) == (y + x) - y;
  }

  lemma SubCancel(x: Word, y: Word)
    ensures WrappingAdd(WrappingSub(x, y), y) == x
  {
    assert WrappingSub(x, y) == x - y;
    assert WrappingAdd(x - y, y) == (x - y) + y;
  }

  /** `tmp1` of `round`: h + Σ1(e) + Ch(e, f, g) + K + W. */
  function Temp1(s: State, k: Word, w: Word): Word {
    WrappingAdd(WrappingAdd(WrappingAdd(WrappingAdd(s.h, BigSigma1(s.e)), Choice(s.e, s.f, s.g)), k), w)
  }

  /** `tmp2` of `round`: Σ0(a) + Maj(a, b, c). */
  function Temp2(s: State): Word {
    WrappingAdd(BigSigma0(s.a), Majority(s.a, s.b, s.c))
  }

  /** `round`: one iteration of step 3 in section 6.2.2 of FIPS 180-4. Six of the eight new
      words are old words moved one place along. */
  function Round(s: State, k: Word, w: Word): (next: State)
    ensures next.b == s.a && next.c == s.b && next.d == s.c
    ensures next.f == s.e && next.g == s.f && next.h == s.g
  {
    State(WrappingAdd(Temp1(s, k, w), Temp2(s)), s.a, s.b, s.c, WrappingAdd(s.d, Temp1(s, k, w)), s.e, s.f, s.g)
  }

  /** `tmp1` recovered from the state a round produced. */
  function UnTemp1(next: State): Word {
    WrappingSub(next.a, Temp2(State(next.b, next.c, next.d, 0, 0, 0, 0, 0)))
  }

  /** The state a round started from, recovered from the state it produced. */
  function UnRound(next: State, k: Word, w: Word): State {
    var t1 := UnTemp1(next);
    State(next.b, next.c, next.d, WrappingSub(next.e, t1), next.f, next.g, next.h,
      WrappingSub(WrappingSub(WrappingSub(WrappingSub(t1, w), k), Choice(next.f, next.g, next.h)), BigSigma1(next.f)))
  }

  /** `UnRound` undoes a round. */
  lemma UnRoundRound(s: State, k: Word, w: Word)
    ensures UnRound(Round(s, k, w), k, w) == s
  {
    var t1, t2 := Temp1(s, k, w), Temp2(s);
    var next := Round(s, k, w);
    assert Temp2(State(next.b, next.c, next.d, 0, 0, 0, 0, 0)) == t2;
    AddCancel(t1, t2);
    AddCancel(s.d, t1);
    var x1 := WrappingAdd(s.h, BigSigma1(s.e));
    var x2 := WrappingAdd(x1, Choice(s.e, s.f, s.g));
    var x3 := WrappingAdd(x2, k);
    AddCancel(x3, w);
    AddCancel(x2, k);
    AddCancel(x1, Choice(s.e, s.f, s.g));
    AddCancel(s.h, BigSigma1(s.e));
  }

  /** The `tmp1` of the state `UnRound` recovers is the one `UnTemp1` reads
      off the state the round produced. */
  lemma Temp1OfUnRound(s: State, k: Word, w: Word)
    ensures Temp1(UnRound(s, k, w), k, w) == UnTemp1(s)
  {
    var prev := UnRound(s, k, w);
    var u1 := UnTemp1(s);
    var y1 := WrappingSub(u1, w);
    var y2 := WrappingSub(y1, k);
    var y3 := WrappingSub(y2, Choice(s.f, s.g, s.h));
    assert prev.h == WrappingSub(y3, BigSigma1(s.f));
    SubCancel(y3, BigSigma1(s.f));
    SubCancel(y2, Choice(s.f, s.g, s.h));
    SubCancel(y1, k);
    SubCancel(u1, w);
  }

  /** A round undoes `UnRound`, so rounds are bijections on states. */
  lemma RoundUnRound(s: State, k: Word, w: Word)
    ensures Round(UnRound(s, k, w), k, w) == s
  {
    var prev := UnRound(s, k, w);
    var u1 := UnTemp1(s);
    var t2 := Temp2(State(s.b, s.c, s.d, 0, 0, 0, 0, 0));
    assert Temp2(prev) == t2;
    Temp1OfUnRound(s, k, w);
    SubCancel(s.a, t2);
    SubCancel(s.e, u1);
  }

  /** The state after the first `n` rounds, with round constants `ks` and
      schedule `w`. */
  function Rounds(s: State, ks: seq<Word>, w: seq<Word>, n: nat): State
    requires n <= |ks| && n <= |w|
  {
    if n == 0 then s else Round(Rounds(s, ks, w, n - 1), ks[n - 1], w[n - 1])
  }

  /** Undoes the first `n` rounds, last round first. */
  function UnRounds(s: State, ks: seq<Word>, w: seq<Word>, n: nat): State
    requires n <= |ks| && n <= |w|
    decreases n
  {
    if n == 0 then s else UnRounds(UnRound(s, ks[n - 1], w[n - 1]), ks, w, n - 1)
  }

  lemma {:induction false} RoundsInverse(s: State, ks: seq<Word>, w: seq<Word>, n: nat)
    requires n <= |ks| && n <= |w|
    ensures UnRounds(Rounds(s, ks, w, n), ks, w, n) == s
  {
    if n > 0 {
      var before := Rounds(s, ks, w, n - 1);
      UnRoundRound(before, ks[n - 1], w[n - 1]);
      RoundsInverse(s, ks, w, n - 1);
    }
  }

  function AddStates(x: State, y: State): State {
    State(WrappingAdd(x.a, y.a), WrappingAdd(x.b, y.b), WrappingAdd(x.c, y.c), WrappingAdd(x.d, y.d),
          WrappingAdd(x.e, y.e), WrappingAdd(x.f, y.f), WrappingAdd(x.g, y.g), WrappingAdd(x.h, y.h))
  }

  function SubStates(x: State, y: State): State {
    State(WrappingSub(x.a, y.a), WrappingSub(x.b, y.b), WrappingSub(x.c, y.c), WrappingSub(x.d, y.d),
          WrappingSub(x.e, y.e), WrappingSub(x.f, y.f), WrappingSub(x.g, y.g), WrappingSub(x.h, y.h))
  }

  /** What `compress(h, block)` returns: the chaining value plus the state
      after the 64 rounds, word by word modulo 2^32. */
  function CompressOf(h: State, block: seq<Byte>): State
    requires |block| == 64
  {
    AddStates(h, Rounds(h, RoundConstants, Schedule(block), 64))
  }

  /** The feed-forward can be taken off again and the 64 rounds run
      backwards: the output of `compress` and the chaining value it was
      given determine the state after the rounds, and that state
      determines the chaining value. */
  lemma CompressFeedForward(h: State, block: seq<Byte>)
    requires |block| == 64
    ensures SubStates(CompressOf(h, block), h) == Rounds(h, RoundConstants, Schedule(block), 64)
    ensures UnRounds(SubStates(CompressOf(h, block), h), RoundConstants, Schedule(block), 64) == h
  {
    var r := Rounds(h, RoundConstants, Schedule(block), 64);
    AddCancelLeft(r.a, h.a);
    AddCancelLeft(r.b, h.b);
    AddCancelLeft(r.c, h.c);
    AddCancelLeft(r.d, h.d);
    AddCancelLeft(r.e, h.e);
    AddCancelLeft(r.f, h.f);
    AddCancelLeft(r.g, h.g);
    AddCancelLeft(r.h, h.h);
    RoundsInverse(h, RoundConstants, Schedule(block), 64);
  }

  method Compress(originState: State, block: seq<Byte>) returns (r: State)
    requires |block| == 64
    ensures r == CompressOf(originState, block)
  {
    var w := MessageSchedule(block);
    var state := originState;
    for i := 0 to 64
      invariant state == Rounds(originState, RoundConstants, w, i)
    {
      state := Round(state, RoundConstants[i], w[i]);
    }
    r := AddStates(originState, state);
  }

  // ---------------------------------------------------------------------
  // Digest

  /** The words, each as four big-endian bytes, in order. */
  function DigestBytes(words: seq<Word>): (d: seq<Byte>)
    ensures |d| == 4 * |words|
  {
    if words == [] then [] else DigestBytes(words[..|words| - 1]) + BytesOfWord(words[|words| - 1])
  }

  /** The words a byte string of whole words holds. */
  function WordsOfBytes(d: seq<Byte>): (words: seq<Word>)
    requires |d| % 4 == 0
    ensures |words| == |d| / 4
  {
    if d == [] then [] else WordsOfBytes(d[..|d| - 4]) + [WordOf(d[|d| - 4..])]
  }

  /** Bytes 4i..4i+3 of the digest are the big-endian bytes of word i. */
  lemma {:induction false} DigestSlice(words: seq<Word>, i: nat)
    requires i < |words|
    ensures DigestBytes(words)[4 * i..4 * i + 4] == BytesOfWord(words[i])
    decreases |words|
  {
    var init := words[..|words| - 1];
    var d := DigestBytes(words);
    assert d == DigestBytes(init) + BytesOfWord(words[|words| - 1]);
    if i < |init| {
      DigestSlice(init, i);
      assert d[4 * i..4 * i + 4] == DigestBytes(init)[4 * i..4 * i + 4];
    } else {
      assert d[4 * i..4 * i + 4] == d[|DigestBytes(init)|..];
    }
  }

  /** Appending the bytes of a word appends that word to the words read back. */
  lemma WordsOfBytesAppend(d: seq<Byte>, w: Word)
    requires |d| % 4 == 0
    ensures WordsOfBytes(d + BytesOfWord(w)) == WordsOfBytes(d) + [w]
  {
    var e := d + BytesOfWord(w);
    assert e[..|e| - 4] == d;
    assert e[|e| - 4..] == BytesOfWord(w);
    WordBytesRoundTrip(w, BytesOfWord(w));
  }

  /** The words can be read back from the digest. */
  lemma {:induction false} DigestWords(words: seq<Word>)
    ensures WordsOfBytes(DigestBytes(words)) == words
  {
    if words != [] {
      var init, last := words[..|words| - 1], words[|words| - 1];
      WordsOfBytesAppend(DigestBytes(init), last);
      DigestWords(init);
      assert words == init + [last];
    }
  }

  /** The digest of the first `i + 1` words extends that of the first `i`. */
  lemma DigestPrefix(words: seq<Word>, i: nat)
    requires i < |words|
    ensures DigestBytes(words[..i + 1]) == DigestBytes(words[..i]) + BytesOfWord(words[i])
  {
    assert words[..i + 1][..i] == words[..i];
  }

  /** A sequence that starts with `done` and then holds the four elements of
      `four` starts with `done + four`. */
  lemma FourMore<T>(s: seq<T>, done: seq<T>, four: seq<T>)
    requires |four| == 4 && |done| + 4 <= |s| && s[..|done|] == done
    requires s[|done|] == four[0] && s[|done| + 1] == four[1]
    requires s[|done| + 2] == four[2] && s[|done| + 3] == four[3]
    ensures s[..|done| + 4] == done + four
  {
  }

  /** `get_hash`: the eight words as 32 big-endian bytes. */
  method GetHash(state: State) returns (hash: seq<Byte>)
    ensures hash == DigestBytes(state.Words())
  {
    var words := state.Words();
    var out := new Byte[32](_ => 0);
    for i := 0 to 8
      invariant out[..4 * i] == DigestBytes(words[..i])
    {
      var bytes := BytesOfWord(words[i]);
      ghost var done := out[..4 * i];
      out[4 * i] := bytes[0];
      out[4 * i + 1] := bytes[1];
      out[4 * i + 2] := bytes[2];
      out[4 * i + 3] := bytes[3];
      FourMore(out[..], done, bytes);
      DigestPrefix(words, i);
    }
    assert words[..8] == words;
    hash := out[..];
  }

  // ---------------------------------------------------------------------
  // The hash

  /** Compression folded over the 64-byte blocks of `m`, from state `h`. */
  function FoldBlocks(h: State, m: seq<Byte>): State
    requires |m| % 64 == 0
    decreases |m|
  {
    if m == [] then h else FoldBlocks(CompressOf(h, m[..64]), m[64..])
  }

  /** Merkle–Damgård: hashing two block sequences one after the other is
      hashing their concatenation. */
  lemma {:induction false} FoldBlocksAppend(h: State, a: seq<Byte>, b: seq<Byte>)
    requires |a| % 64 == 0 && |b| % 64 == 0
    ensures FoldBlocks(h, a + b) == FoldBlocks(FoldBlocks(h, a), b)
    decreases |a|
  {
    if a == [] {
      assert a + b == b;
    } else {
      assert a + b != [];
      assert (a + b)[..64] == a[..64];
      assert (a + b)[64..] == a[64..] + b;
      FoldBlocksAppend(CompressOf(h, a[..64]), a[64..], b);
    }
  }

  /** A message with its padding is a whole number of blocks. */
  lemma PaddedLength(message: seq<Byte>)
    ensures |message + PaddingOf(|message|)| % 64 == 0
  {
    PaddingLength(|message|);
  }

  /** Dropping whole blocks from whole blocks leaves whole blocks. */
  lemma BlocksDrop(x: nat, y: nat)
    requires x % 64 == 0 && y % 64 == 0 && y <= x
    ensures (x - y) % 64 == 0
  {
    assert x - y == 64 * (x / 64 - y / 64);
  }

  /** The state after compressing every block of the padded message. */
  function FinalState(message: seq<Byte>): State {
    PaddedLength(message);
    FoldBlocks(IV, message + PaddingOf(|message|))
  }

  /** SHA-256 of `message` as FIPS 180-4 defines it. */
  function Sha256Of(message: seq<Byte>): (digest: seq<Byte>)
    ensures |digest| == 32
  {
    DigestBytes(FinalState(message).Words())
  }

  /** The digest determines the final state: it is that state's words. */
  lemma Sha256Determines(message: seq<Byte>)
    ensures WordsOfBytes(Sha256Of(message)) == FinalState(message).Words()
  {
    DigestWords(FinalState(message).Words());
  }

  /** A message of whole blocks followed by more: its final state is reached
      by continuing from the state after the leading blocks with the rest
      and the padding for the whole length. */
  lemma Sha256Continues(prefix: seq<Byte>, rest: seq<Byte>)
    requires |prefix| % 64 == 0
    ensures |rest + PaddingOf(|prefix + rest|)| % 64 == 0
    ensures FinalState(prefix + rest) == FoldBlocks(FoldBlocks(IV, prefix), rest + PaddingOf(|prefix + rest|))
  {
    var m := prefix + rest;
    PaddedLength(m);
    FoldThenRest(IV, prefix, rest, PaddingOf(|m|));
  }

  /** `FoldBlocksAppend` for a sequence made of whole blocks and more. */
  lemma FoldThenRest(h: State, prefix: seq<Byte>, rest: seq<Byte>, pad: seq<Byte>)
    requires |prefix| % 64 == 0 && |prefix + rest + pad| % 64 == 0
    ensures |rest + pad| % 64 == 0
    ensures FoldBlocks(h, prefix + rest + pad) == FoldBlocks(FoldBlocks(h, prefix), rest + pad)
  {
    assert prefix + rest + pad == prefix + (rest + pad);
    BlocksDrop(|prefix + rest + pad|, |prefix|);
    FoldBlocksAppend(h, prefix, rest + pad);
  }

  /** Folding from block `i` on is compressing block `i` and folding on from
      block `i + 1`. */
  lemma FoldStep(h: State, m: seq<Byte>, i: nat)
    requires |m| % 64 == 0 && i < |m| / 64
    ensures |m[64 * i..]| % 64 == 0 && |m[64 * (i + 1)..]| % 64 == 0
    ensures FoldBlocks(h, m[64 * i..]) == FoldBlocks(CompressOf(h, m[64 * i..64 * i + 64]), m[64 * (i + 1)..])
  {
    var rest := m[64 * i..];
    assert rest != [];
    assert rest[..64] == m[64 * i..64 * i + 64];
    assert rest[64..] == m[64 * (i + 1)..];
  }

  /** The `for block in padded_message.chunks(64)` loop of `sha256`. */
  method CompressBlocks(padded: seq<Byte>) returns (state: State)
    requires |padded| % 64 == 0
    ensures state == FoldBlocks(IV, padded)
  {
    var blocks := |padded| / 64;
    state := IV;
    for i := 0 to blocks
      invariant |padded[64 * i..]| % 64 == 0
      invariant FoldBlocks(state, padded[64 * i..]) == FoldBlocks(IV, padded)
    {
      FoldStep(state, padded, i);
      state := Compress(state, padded[64 * i..64 * i + 64]);
    }
    assert padded[64 * blocks..] == [];
  }

  /** `sha256`: the message length is a `usize`, taken as a `u64`. */
  method Sha256(message: seq<Byte>) returns (digest: seq<Byte>)
    requires |message| < U64Modulus
    ensures digest == Sha256Of(message)
  {
    var pad := Padding(|message|);
    var padded := message + pad;
    assert |padded| % 64 == 0 by {
      PaddedLength(message);
    }
    var state := CompressBlocks(padded);
    digest := GetHash(state);
  }
}
