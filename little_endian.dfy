/** Fixed-width little-endian integers, as `u32::from_le_bytes`,
    `i32::from_le_bytes`, `i64::from_le_bytes` and `f64::from_le_bytes` read them.

    Byte `k` of a little-endian field weighs `256^k`. The signed readers use two's
    complement; a double is kept as its raw 64-bit pattern. Each reader has an
    encoder (`to_le_bytes`) and the two are proved inverse in both directions. */
module LittleEndian {

  newtype byte = x: int | 0 <= x < 0x100

  newtype i32 = x: int | -0x8000_0000 <= x < 0x8000_0000
  newtype i64 = x: int | -0x8000_0000_0000_0000 <= x < 0x8000_0000_0000_0000

  const TWO32: nat := 0x1_0000_0000
  const TWO64: nat := 0x1_0000_0000_0000_0000

  /** A 64-bit pattern, the representation of an IEEE-754 double. */
  type Bits64 = n: nat | n < TWO64

  /** `u32::from_le_bytes`. */
  function U32(b: seq<byte>): (n: nat)
    requires |b| == 4
    ensures n < TWO32
  {
    b[0] as nat + 0x100 * b[1] as nat + 0x1_0000 * b[2] as nat + 0x100_0000 * b[3] as nat
  }

  /** `u64::from_le_bytes`: the low four bytes, then the high four. */
  function U64(b: seq<byte>): (n: nat)
    requires |b| == 8
    ensures n < TWO64
  {
    U32(b[..4]) + 0x1_0000_0000 * U32(b[4..])
  }

  /** `u32::to_le_bytes`. */
  function U32Bytes(n: nat): (b: seq<byte>)
    requires n < TWO32
    ensures |b| == 4
  {
    var q1 := n / 0x100;
    var q2 := q1 / 0x100;
    [(n % 0x100) as byte, (q1 % 0x100) as byte, (q2 % 0x100) as byte, (q2 / 0x100) as byte]
  }

  /** `u64::to_le_bytes`. */
  function U64Bytes(n: nat): (b: seq<byte>)
    requires n < TWO64
    ensures |b| == 8
  {
    U32Bytes(n % 0x1_0000_0000) + U32Bytes(n / 0x1_0000_0000)
  }

  lemma DivMod256(n: int, q: int, r: int)
    requires 0 <= r < 0x100 && n == q * 0x100 + r
    ensures n / 0x100 == q && n % 0x100 == r
  {
  }

  lemma DivMod32(n: int, q: int, r: int)
    requires 0 <= r < 0x1_0000_0000 && n == q * 0x1_0000_0000 + r
    ensures n / 0x1_0000_0000 == q && n % 0x1_0000_0000 == r
  {
  }

  lemma U32RoundTrip(n: nat)
    requires n < TWO32
    ensures U32(U32Bytes(n)) == n
  {
    var q1 := n / 0x100;
    var q2 := q1 / 0x100;
    var q3 := q2 / 0x100;
    assert n == n % 0x100 + 0x100 * q1;
    assert q1 == q1 % 0x100 + 0x100 * q2;
    assert q2 == q2 % 0x100 + 0x100 * q3;
  }

  lemma U32BytesOfU32(b: seq<byte>)
    requires |b| == 4
    ensures U32Bytes(U32(b)) == b
  {
    var t2 := b[2] as int + 0x100 * b[3] as int;
    var t1 := b[1] as int + 0x100 * t2;
    var n := U32(b);
    assert n == t1 * 0x100 + b[0] as int;
    DivMod256(n, t1, b[0] as int);
    DivMod256(t1, t2, b[1] as int);
    DivMod256(t2, b[3] as int, b[2] as int);
  }

  lemma U64RoundTrip(n: nat)
    requires n < TWO64
    ensures U64(U64Bytes(n)) == n
  {
    var lo, hi := n % 0x1_0000_0000, n / 0x1_0000_0000;
    var b := U64Bytes(n);
    assert b[..4] == U32Bytes(lo);
    assert b[4..] == U32Bytes(hi);
    U32RoundTrip(lo);
    U32RoundTrip(hi);
    assert n == lo + 0x1_0000_0000 * hi;
  }

  lemma U64BytesOfU64(b: seq<byte>)
    requires |b| == 8
    ensures U64Bytes(U64(b)) == b
  {
    var lo, hi := U32(b[..4]), U32(b[4..]);
    DivMod32(U64(b), hi, lo);
    U32BytesOfU32(b[..4]);
    U32BytesOfU32(b[4..]);
    assert b == b[..4] + b[4..];
  }

  /** `i32::from_le_bytes`: two's complement over four bytes. */
  function I32(b: seq<byte>): (x: i32)
    requires |b| == 4
    ensures x < 0 <==> b[3] >= 0x80
  {
    var u := U32(b);
    if u < 0x8000_0000 then u as i32 else (u - TWO32) as i32
  }

  /** `i64::from_le_bytes`: two's complement over eight bytes. */
  function I64(b: seq<byte>): (x: i64)
    requires |b| == 8
    ensures x < 0 <==> b[7] >= 0x80
  {
    var u := U64(b);
    assert b[4..][3] == b[7];
    if u < 0x8000_0000_0000_0000 then u as i64 else (u - TWO64) as i64
  }

  /** `i32::to_le_bytes`. */
  function I32Bytes(x: i32): (b: seq<byte>)
    ensures |b| == 4
  {
    U32Bytes(if x < 0 then x as int + TWO32 else x as int)
  }

  /** `i64::to_le_bytes`. */
  function I64Bytes(x: i64): (b: seq<byte>)
    ensures |b| == 8
  {
    U64Bytes(if x < 0 then x as int + TWO64 else x as int)
  }

  /** The bit pattern `f64::from_le_bytes` reinterprets as a double. */
  function Bits64Of(b: seq<byte>): (bits: Bits64)
    requires |b| == 8
  {
    U64(b)
  }

  lemma I32RoundTrip(x: i32)
    ensures I32(I32Bytes(x)) == x
  {
    U32RoundTrip(if x < 0 then x as int + TWO32 else x as int);
  }

  lemma I32BytesOfI32(b: seq<byte>)
    requires |b| == 4
    ensures I32Bytes(I32(b)) == b
  {
    U32BytesOfU32(b);
  }

  lemma I64RoundTrip(x: i64)
    ensures I64(I64Bytes(x)) == x
  {
    U64RoundTrip(if x < 0 then x as int + TWO64 else x as int);
  }

  lemma I64BytesOfI64(b: seq<byte>)
    requires |b| == 8
    ensures I64Bytes(I64(b)) == b
  {
    U64BytesOfU64(b);
  }
}
