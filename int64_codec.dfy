/**
 * The fixed-width integer codec of the B-tree index file. Every header field
 * except the magic tag, and every node field, is one 8-byte slot holding a
 * signed integer, written big-endian in two's complement (`int_to_bytes`), and
 * read back with the inverse conversion (`bytes_to_int`).
 */
module Int64Codec {

  /** One byte of a Python `bytes` object. */
  type Byte = b: int | 0 <= b < 256

  /** Width in bytes of one encoded integer slot. */
  const Width: nat := 8

  const TwoTo63: int := 0x8000_0000_0000_0000
  const TwoTo64: int := 0x1_0000_0000_0000_0000

  /** The one failure of the encoder: the value does not fit in the slot. */
  datatype Error = Overflow

  datatype Result<T> = Ok(value: T) | Err(error: Error)

  /** The values a signed 8-byte slot can hold. */
  predicate InRange(n: int) {
    -TwoTo63 <= n < TwoTo63
  }

  /** 256 to the power k. */
  function Pow256(k: nat): (r: nat)
    ensures r >= 1
  {
    if k == 0 then 1 else 256 * Pow256(k - 1)
  }

  /** The unsigned big-endian value of `b`: the last byte is the least significant. */
  function Unsigned(b: seq<Byte>): (u: nat)
    ensures u < Pow256(|b|)
  {
    if b == [] then 0
    else
      var u' := Unsigned(b[..|b| - 1]);
      assert u' <= Pow256(|b| - 1) - 1;
      u' * 256 + b[|b| - 1]
  }

  /** The `len` low-order base-256 digits of `u`, most significant first. */
  function UnsignedBytes(u: nat, len: nat): (b: seq<Byte>)
    ensures |b| == len
  {
    if len == 0 then [] else UnsignedBytes(u / 256, len - 1) + [u % 256]
  }

  /**
   * `int_to_bytes`: exactly `Width` bytes, big-endian, two's complement; a
   * value outside the signed 64-bit range is refused, as `to_bytes(8, signed=True)`
   * raises for it.
   */
  function IntToBytes(n: int): (r: Result<seq<Byte>>)
    ensures r.Ok? <==> InRange(n)
    ensures r.Ok? ==> |r.value| == Width
  {
    if InRange(n) then Ok(UnsignedBytes(if n < 0 then n + TwoTo64 else n, Width))
    else Err(Overflow)
  }

  /**
   * `bytes_to_int`: the signed big-endian value of `b`, of whatever length.
   * A set high bit in the first byte makes the value negative.
   */
  function BytesToInt(b: seq<Byte>): (n: int)
    ensures b == [] ==> n == 0
    ensures b != [] ==> -128 * Pow256(|b| - 1) <= n < 128 * Pow256(|b| - 1)
    ensures b != [] ==> (n < 0 <==> b[0] >= 128)
  {
    if b == [] then 0
    else
      HighByte(b);
      if b[0] >= 128 then Unsigned(b) - Pow256(|b|) else Unsigned(b)
  }

  // ----- the positional reading of a byte string ------------------------------

  /** Σ b[j]·256^(|b|-1-j) over j in [i, |b|): byte j weighs 256^(|b|-1-j). */
  function DigitSum(b: seq<Byte>, i: nat): (s: int)
    requires i <= |b|
    decreases |b| - i
  {
    if i == |b| then 0 else b[i] * Pow256(|b| - 1 - i) + DigitSum(b, i + 1)
  }

  /** Peeling the most significant byte off the front. */
  lemma {:induction false} UnsignedFront(b: seq<Byte>)
    requires b != []
    ensures Unsigned(b) == b[0] * Pow256(|b| - 1) + Unsigned(b[1..])
  {
    var n := |b|;
    if n > 1 {
      var init := b[..n - 1];
      UnsignedFront(init);
      assert init[1..] == b[1..][..n - 2];
      var tail := b[1..];
      assert tail[..n - 2] == init[1..] && tail[n - 2] == b[n - 1];
      var x, p, r, d := b[0], Pow256(n - 2), Unsigned(init[1..]), b[n - 1];
      assert Unsigned(init) == x * p + r;
      assert Unsigned(b) == Unsigned(init) * 256 + d;
      assert Unsigned(tail) == r * 256 + d;
      Distribute(x, p, r);
    }
  }

  lemma Distribute(x: int, p: int, r: int)
    ensures (x * p + r) * 256 == x * (256 * p) + r * 256
  {
  }

  /** The first byte is 128 or more exactly when the value reaches 128·256^(|b|-1). */
  lemma HighByte(b: seq<Byte>)
    requires b != []
    ensures b[0] >= 128 <==> Unsigned(b) >= 128 * Pow256(|b| - 1)
  {
    var p := Pow256(|b| - 1);
    UnsignedFront(b);
    if b[0] >= 128 {
      MulMonotone(128, b[0], p);
    } else {
      MulMonotone(b[0], 127, p);
    }
  }

  lemma {:induction false} MulMonotone(a: nat, c: nat, p: nat)
    requires a <= c
    ensures a * p <= c * p
  {
    assert c * p == a * p + (c - a) * p;
  }

  /** The recursive reading agrees with the positional sum. */
  lemma {:induction false} UnsignedIsDigitSum(b: seq<Byte>, i: nat)
    requires i <= |b|
    ensures Unsigned(b[i..]) == DigitSum(b, i)
    decreases |b| - i
  {
    if i < |b| {
      UnsignedFront(b[i..]);
      assert b[i..][1..] == b[i + 1..];
      UnsignedIsDigitSum(b, i + 1);
    } else {
      assert b[i..] == [];
    }
  }

  // ----- unsigned round trips -------------------------------------------------

  lemma {:induction false} UnsignedBytesRoundTrip(u: nat, len: nat)
    requires u < Pow256(len)
    ensures Unsigned(UnsignedBytes(u, len)) == u
  {
    if len > 0 {
      UnsignedBytesRoundTrip(u / 256, len - 1);
      var b := UnsignedBytes(u, len);
      assert b[..len - 1] == UnsignedBytes(u / 256, len - 1);
    }
  }

  lemma {:induction false} UnsignedRoundTrip(b: seq<Byte>)
    ensures UnsignedBytes(Unsigned(b), |b|) == b
  {
    if b != [] {
      var n := |b|;
      var u := Unsigned(b);
      assert u / 256 == Unsigned(b[..n - 1]) && u % 256 == b[n - 1];
      UnsignedRoundTrip(b[..n - 1]);
      assert b == b[..n - 1] + [b[n - 1]];
    }
  }

  lemma SlotPowers()
    ensures Pow256(Width) == TwoTo64
    ensures 128 * Pow256(Width - 1) == TwoTo63
  {
    assert Pow256(1) == 256;
    assert Pow256(2) == 0x1_0000;
    assert Pow256(3) == 0x100_0000;
    assert Pow256(4) == 0x1_0000_0000;
    assert Pow256(5) == 0x100_0000_0000;
    assert Pow256(6) == 0x1_0000_0000_0000;
    assert Pow256(7) == 0x100_0000_0000_0000;
  }

  // ----- properties of the slot codec -----------------------------------------

  /** Every value the slot can hold is encoded and decodes back to itself. */
  lemma RoundTrip(n: int)
    requires InRange(n)
    ensures IntToBytes(n).Ok? && BytesToInt(IntToBytes(n).value) == n
  {
    SlotPowers();
    var u := if n < 0 then n + TwoTo64 else n;
    UnsignedBytesRoundTrip(u, Width);
  }

  /** Every 8-byte slot decodes to a value that encodes back to the same bytes. */
  lemma ReverseRoundTrip(b: seq<Byte>)
    requires |b| == Width
    ensures InRange(BytesToInt(b)) && IntToBytes(BytesToInt(b)) == Ok(b)
  {
    SlotPowers();
    UnsignedRoundTrip(b);
  }

  /** Two in-range values with the same encoding are equal. */
  lemma EncodingInjective(m: int, n: int)
    requires InRange(m) && InRange(n) && IntToBytes(m) == IntToBytes(n)
    ensures m == n
  {
    RoundTrip(m);
    RoundTrip(n);
  }

  /** The encoding of a value is the value modulo 2^64: a negative n is stored as n + 2^64. */
  lemma TwosComplement(n: int)
    requires InRange(n)
    ensures IntToBytes(n).Ok?
    ensures Unsigned(IntToBytes(n).value) == n % TwoTo64
    ensures n < 0 ==> Unsigned(IntToBytes(n).value) == n + TwoTo64
    ensures n >= 0 ==> Unsigned(IntToBytes(n).value) == n
  {
    SlotPowers();
    var u := if n < 0 then n + TwoTo64 else n;
    UnsignedBytesRoundTrip(u, Width);
  }

  /** The high bit of the first byte is the sign. */
  lemma SignBit(n: int)
    requires InRange(n)
    ensures IntToBytes(n).Ok?
    ensures IntToBytes(n).value[0] >= 128 <==> n < 0
  {
    RoundTrip(n);
  }

  /**
   * Big-endian digit order: byte 0 is the most significant, byte i weighs
   * 256^(7-i); the positional value of the encoding is n modulo 2^64, so n
   * itself for a non-negative n.
   */
  lemma BigEndian(n: int)
    requires InRange(n)
    ensures IntToBytes(n).Ok?
    ensures DigitSum(IntToBytes(n).value, 0) == n % TwoTo64
    ensures n >= 0 ==> n == DigitSum(IntToBytes(n).value, 0)
  {
    var b := IntToBytes(n).value;
    TwosComplement(n);
    UnsignedIsDigitSum(b, 0);
    assert b[0..] == b;
  }

  /**
   * The decoder, for strings of every length, is the positional value less
   * 256^|b| when the first byte's high bit is set.
   */
  lemma BytesToIntIsSignedDigitSum(b: seq<Byte>)
    requires b != []
    ensures BytesToInt(b) == DigitSum(b, 0) - (if b[0] >= 128 then Pow256(|b|) else 0)
  {
    UnsignedIsDigitSum(b, 0);
    assert b[0..] == b;
  }

  /** Values outside the signed 64-bit range are refused: the promise of `IntToBytes`, stated on its own. */
  lemma OutOfRangeRefused(n: int)
    requires n >= TwoTo63 || n < -TwoTo63
    ensures IntToBytes(n) == Err(Overflow)
  {
  }
}
