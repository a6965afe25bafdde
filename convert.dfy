/** Octet-string / integer conversion of the RSA crate
    (proj/rsa/deprecate/convert.rs): I2OSP and OS2IP as in sections 4.1 and
    4.2 of RFC 8017, and the byte-wise XOR used by OAEP. Big integers are
    `nat`; the loops of the source are kept as loops. */
module Convert {
  import opened Errors
  import opened Arith
  import opened Bytes

  type Byte = bv8

  function Pow256(n: nat): (r: nat)
    ensures r > 0
  {
    if n == 0 then 1 else 256 * Pow256(n - 1)
  }

  function Zeros(n: nat): (z: seq<Byte>)
    ensures |z| == n && forall i :: 0 <= i < n ==> z[i] == 0
  {
    seq(n, _ => 0)
  }

  function Min(a: nat, b: nat): nat {
    if a <= b then a else b
  }

  /** The number a byte string denotes, most significant byte first; the
      empty string denotes 0. */
  function BigEndianValue(b: seq<Byte>): nat {
    if b == [] then 0 else 256 * BigEndianValue(b[..|b| - 1]) + b[|b| - 1] as nat
  }

  /** The `size` low-order bytes of `x`, most significant first. */
  function BigEndianBytes(x: nat, size: nat): (r: seq<Byte>)
    ensures |r| == size
  {
    if size == 0 then [] else BigEndianBytes(x / 256, size - 1) + [(x % 256) as Byte]
  }

  /** What `i2osp(x, size)` returns. */
  function I2ospOf(x: nat, size: nat): Result<seq<Byte>> {
    if size == 0 || x >= Pow256(size) then Failure(IntegerTooLarge)
    else Success(BigEndianBytes(x, size))
  }

  /** What `os2ip(b)` returns. */
  function Os2ipOf(b: seq<Byte>): Result<nat> {
    if b == [] then Failure(OctetStringEmpty) else Success(BigEndianValue(b))
  }

  /** What `string_xor(a, b)` returns when it succeeds (it always does). */
  function Xor(a: seq<Byte>, b: seq<Byte>): seq<Byte> {
    seq(Min(|a|, |b|), i requires 0 <= i < Min(|a|, |b|) => a[i] ^ b[i])
  }

  // ---------------------------------------------------------------------
  // The big-endian value and the big-endian bytes are inverse

  lemma {:induction false} ValueBound(b: seq<Byte>)
    ensures BigEndianValue(b) < Pow256(|b|)
  {
    if b != [] {
      ValueBound(b[..|b| - 1]);
    }
  }

  lemma {:induction false} ValueOfBytes(x: nat, size: nat)
    ensures BigEndianValue(BigEndianBytes(x, size)) == x % Pow256(size)
  {
    if size > 0 {
      var b := BigEndianBytes(x, size);
      var p := Pow256(size - 1);
      assert b[..size - 1] == BigEndianBytes(x / 256, size - 1);
      ByteRoundTrip(x % 256);
      assert b[size - 1] as nat == x % 256;
      ValueOfBytes(x / 256, size - 1);
      assert BigEndianValue(b) == 256 * ((x / 256) % p) + x % 256;
      DivDiv(x, 256, p);
      assert Pow256(size) == 256 * p;
    }
  }

  lemma {:induction false} BytesOfValue(b: seq<Byte>)
    ensures BigEndianBytes(BigEndianValue(b), |b|) == b
  {
    if b != [] {
      var init, last := b[..|b| - 1], b[|b| - 1];
      var v := BigEndianValue(b);
      assert v / 256 == BigEndianValue(init) && v % 256 == last as nat;
      BytesOfValue(init);
      assert b == init + [last];
    }
  }

  /** Byte `size-1-i` of the encoding is digit `i` of `x` in base 256. */
  lemma {:induction false} BytesDigit(x: nat, size: nat, i: nat)
    requires i < size
    ensures BigEndianBytes(x, size)[size - 1 - i] as nat == x / Pow256(i) % 256
  {
    if i == 0 {
      ByteRoundTrip(x % 256);
    } else {
      BytesDigit(x / 256, size - 1, i - 1);
      DivDiv(x, 256, Pow256(i - 1));
      assert Pow256(i) == 256 * Pow256(i - 1);
    }
  }

  /** Digit `i` of `x` in base 256, as a byte. */
  function Digit(x: nat, i: nat): Byte {
    (x / Pow256(i) % 256) as Byte
  }

  /** Writing one more digit in front extends the encoding on the left. */
  lemma {:induction false} BytesPrepend(x: nat, i: nat)
    ensures BigEndianBytes(x, i + 1) == [Digit(x, i)] + BigEndianBytes(x, i)
  {
    if i > 0 {
      BytesPrepend(x / 256, i - 1);
      ShiftedDigit(x, i);
      ConsSnoc(Digit(x, i), BigEndianBytes(x / 256, i - 1), (x % 256) as Byte);
    } else {
      LowestDigit(x);
    }
  }

  /** Dividing by 256 once more moves on to the next digit. */
  lemma NextQuotient(x: nat, i: nat)
    ensures x / Pow256(i) / 256 == x / Pow256(i + 1)
  {
    DivDiv(x, Pow256(i), 256);
    assert Pow256(i) * 256 == Pow256(i + 1);
  }

  lemma SuffixCons<T>(s: seq<T>, j: nat)
    requires j < |s|
    ensures s[j..] == [s[j]] + s[j + 1..]
  {
  }

  lemma ConsSnoc<T>(first: T, middle: seq<T>, last: T)
    ensures ([first] + middle) + [last] == [first] + (middle + [last])
  {
  }

  /** Digit `i - 1` of `x / 256` is digit `i` of `x`. */
  lemma ShiftedDigit(x: nat, i: nat)
    requires i > 0
    ensures Digit(x / 256, i - 1) == Digit(x, i)
  {
    DivDiv(x, 256, Pow256(i - 1));
    assert x / 256 / Pow256(i - 1) == x / Pow256(i);
  }

  /** Digit 0 is the last byte. */
  lemma LowestDigit(x: nat)
    ensures Digit(x, 0) == (x % 256) as Byte
  {
    assert Pow256(0) == 1;
    assert x / 1 == x;
  }

  lemma {:induction false} ZerosValue(n: nat)
    ensures BigEndianValue(Zeros(n)) == 0
  {
    if n > 0 {
      assert Zeros(n)[..n - 1] == Zeros(n - 1);
      ZerosValue(n - 1);
    }
  }

  /** Leading zero bytes do not change the value. */
  lemma {:induction false} LeadingZeros(n: nat, b: seq<Byte>)
    ensures BigEndianValue(Zeros(n) + b) == BigEndianValue(b)
  {
    if b == [] {
      assert Zeros(n) + b == Zeros(n);
      ZerosValue(n);
    } else {
      var init := b[..|b| - 1];
      assert (Zeros(n) + b)[..n + |b| - 1] == Zeros(n) + init;
      LeadingZeros(n, init);
    }
  }

  // ---------------------------------------------------------------------
  // I2OSP and OS2IP

  /** `i2osp` fails exactly when `size` is 0 or `x` needs more than `size`
      bytes; otherwise byte `size-1-i` is base-256 digit `i` of `x`. */
  lemma I2ospOutcome(x: nat, size: nat)
    ensures I2ospOf(x, size).Success? <==> 0 < size && x < Pow256(size)
    ensures I2ospOf(x, size).Failure? ==> I2ospOf(x, size).error == IntegerTooLarge
    ensures I2ospOf(x, size).Success? ==>
      var out := I2ospOf(x, size).value;
      |out| == size && forall i :: 0 <= i < size ==> out[size - 1 - i] as nat == x / Pow256(i) % 256
  {
    if I2ospOf(x, size).Success? {
      forall i | 0 <= i < size
        ensures BigEndianBytes(x, size)[size - 1 - i] as nat == x / Pow256(i) % 256
      {
        BytesDigit(x, size, i);
      }
    }
  }

  /** `os2ip` fails only on the empty string; otherwise its value fits in
      `|b|` bytes and does not depend on leading zero bytes. */
  lemma Os2ipOutcome(b: seq<Byte>, n: nat)
    ensures Os2ipOf(b).Failure? <==> b == []
    ensures Os2ipOf(b).Failure? ==> Os2ipOf(b).error == OctetStringEmpty
    ensures Os2ipOf(b).Success? ==> Os2ipOf(b).value < Pow256(|b|)
    ensures b != [] ==> Os2ipOf(Zeros(n) + b) == Os2ipOf(b)
  {
    ValueBound(b);
    LeadingZeros(n, b);
  }

  lemma I2ospThenOs2ip(x: nat, size: nat)
    requires I2ospOf(x, size).Success?
    ensures Os2ipOf(I2ospOf(x, size).value) == Success(x)
  {
    ValueOfBytes(x, size);
    DivModUnique(x, Pow256(size), 0, x);
  }

  lemma Os2ipThenI2osp(b: seq<Byte>)
    requires b != []
    ensures Os2ipOf(b).Success? && I2ospOf(Os2ipOf(b).value, |b|) == Success(b)
  {
    ValueBound(b);
    BytesOfValue(b);
  }

  method I2osp(x: nat, size: nat) returns (r: Result<seq<Byte>>)
    ensures r == I2ospOf(x, size)
  {
    if size == 0 {
      return Failure(IntegerTooLarge);
    }
    var rest := x;
    var output := new Byte[size](_ => 0);
    for i := 0 to size
      invariant rest == x / Pow256(i)
      invariant output[size - i..] == BigEndianBytes(x, i)
    {
      ghost var written := output[size - i..];
      output[size - i - 1] := (rest % 256) as Byte;
      assert output[size - i..] == written;
      SuffixCons(output[..], size - i - 1);
      BytesPrepend(x, i);
      NextQuotient(x, i);
      rest := rest / 256;
    }
    assert output[..] == BigEndianBytes(x, size);
    QuotientZero(x, Pow256(size));
    if rest == 0 {
      r := Success(output[..]);
    } else {
      r := Failure(IntegerTooLarge);
    }
  }

  method Os2ip(b: seq<Byte>) returns (r: Result<nat>)
    ensures r == Os2ipOf(b)
  {
    if |b| == 0 {
      return Failure(OctetStringEmpty);
    }
    var output := 0;
    for i := 0 to |b|
      invariant output == BigEndianValue(b[..i])
    {
      assert b[..i + 1][..i] == b[..i];
      output := output * 256 + b[i] as nat;
    }
    assert b[..|b|] == b;
    r := Success(output);
  }

  // ---------------------------------------------------------------------
  // XOR

  /** The result has the length of the shorter operand, does not depend on
      the order of the operands, and XOR-ing twice with the same equally
      long mask gives the input back. */
  lemma XorLaws(a: seq<Byte>, b: seq<Byte>)
    ensures |Xor(a, b)| == Min(|a|, |b|)
    ensures forall i :: 0 <= i < |Xor(a, b)| ==> Xor(a, b)[i] == a[i] ^ b[i]
    ensures Xor(a, b) == Xor(b, a)
    ensures |a| == |b| ==> Xor(Xor(a, b), b) == a
  {
  }

  method StringXor(a: seq<Byte>, b: seq<Byte>) returns (r: Result<seq<Byte>>)
    ensures r == Success(Xor(a, b))
  {
    var shorter, another := a, b;
    if |a| > |b| {
      shorter, another := b, a;
    }
    var output := new Byte[|shorter|](i requires 0 <= i < |shorter| => shorter[i]);
    for i := 0 to output.Length
      invariant forall j :: 0 <= j < i ==> output[j] == shorter[j] ^ another[j]
      invariant forall j :: i <= j < output.Length ==> output[j] == shorter[j]
    {
      output[i] := output[i] ^ another[i];
    }
    assert forall j :: 0 <= j < output.Length ==> output[j] == a[j] ^ b[j];
    assert output[..] == Xor(a, b);
    r := Success(output[..]);
  }
}
