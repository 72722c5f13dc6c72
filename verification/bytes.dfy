/** Bytes, fixed-width integers, their little-endian images and the `as`
    casts between integer widths that the two programs perform. */
module Bytes {

  /** An octet, as the unsigned value it holds. */
  type byte = x: int | 0 <= x < 0x100

  const TWO_32: int := 0x1_0000_0000
  const TWO_63: int := 0x8000_0000_0000_0000
  const TWO_64: int := 0x1_0000_0000_0000_0000
  const TWO_128: int := 0x1_0000_0000_0000_0000_0000_0000_0000_0000

  type u32 = x: int | 0 <= x < 0x1_0000_0000
  type u64 = x: int | 0 <= x < 0x1_0000_0000_0000_0000
  type u128 = x: int | 0 <= x < 0x1_0000_0000_0000_0000_0000_0000_0000_0000
  type i32 = x: int | -0x8000_0000 <= x < 0x8000_0000
  type i64 = x: int | -0x8000_0000_0000_0000 <= x < 0x8000_0000_0000_0000
  type i128 = x: int | -0x8000_0000_0000_0000_0000_0000_0000_0000 <= x < 0x8000_0000_0000_0000_0000_0000_0000_0000

  /** `n` copies of the byte `v`. */
  function Fill(n: nat, v: byte): (s: seq<byte>)
    ensures |s| == n
    ensures forall i :: 0 <= i < n ==> s[i] == v
  {
    seq(n, _ => v)
  }

  function Zeros(n: nat): (s: seq<byte>)
    ensures |s| == n
    ensures forall i :: 0 <= i < n ==> s[i] == 0
  {
    Fill(n, 0)
  }

  /** 256^n, the number of values an n-byte unsigned integer can hold. */
  function Pow256(n: nat): (r: nat)
    ensures r >= 1
  {
    if n == 0 then 1 else 256 * Pow256(n - 1)
  }

  lemma Pow256Widths()
    ensures Pow256(4) == TWO_32
    ensures Pow256(8) == TWO_64
    ensures Pow256(16) == TWO_128
  {
    assert Pow256(2) == 0x1_0000;
    assert Pow256(4) == TWO_32;
    assert Pow256(8) == TWO_64 by {
      assert Pow256(6) == 0x1_0000_0000_0000;
    }
    assert Pow256(16) == TWO_128 by {
      assert Pow256(10) == 0x1_0000_0000_0000_0000_0000;
      assert Pow256(12) == 0x1_0000_0000_0000_0000_0000_0000;
      assert Pow256(14) == 0x1_0000_0000_0000_0000_0000_0000_0000;
    }
  }

  // ---------------------------------------------------------------------
  // Little-endian images of unsigned integers
  // ---------------------------------------------------------------------

  /** The n-byte little-endian image of x, least significant byte first. */
  function EncodeLE(x: nat, n: nat): (b: seq<byte>)
    requires x < Pow256(n)
    ensures |b| == n
    decreases n
  {
    if n == 0 then [] else [x % 256] + EncodeLE(x / 256, n - 1)
  }

  /** The unsigned value whose little-endian image is b. */
  function DecodeLE(b: seq<byte>): (x: nat)
    ensures x < Pow256(|b|)
  {
    if |b| == 0 then 0 else b[0] + 256 * DecodeLE(b[1..])
  }

  lemma {:induction false} DecodeEncodeLE(x: nat, n: nat)
    requires x < Pow256(n)
    ensures DecodeLE(EncodeLE(x, n)) == x
    decreases n
  {
    if n > 0 {
      var b := EncodeLE(x, n);
      var lo := x % 256;
      var hi := x / 256;
      assert b[0] == lo;
      assert b[1..] == EncodeLE(hi, n - 1);
      DecodeEncodeLE(hi, n - 1);
    }
  }

  lemma DivModByte(v: int, t: int)
    requires 0 <= v < 256
    ensures (v + 256 * t) % 256 == v && (v + 256 * t) / 256 == t
  {
  }

  lemma {:induction false} EncodeDecodeLE(b: seq<byte>)
    ensures EncodeLE(DecodeLE(b), |b|) == b
  {
    if |b| > 0 {
      var x := DecodeLE(b);
      var t := DecodeLE(b[1..]);
      EncodeDecodeLE(b[1..]);
      DivModByte(b[0], t);
      assert x % 256 == b[0];
      assert b == [b[0]] + b[1..];
    }
  }

  lemma AppendStep(a0: int, t: int, p: int, d: int)
    ensures a0 + 256 * (t + p * d) == (a0 + 256 * t) + (256 * p) * d
  {
  }

  /** Decoding a concatenation: the second part is worth 256^|a| times more. */
  lemma {:induction false} DecodeLEAppend(a: seq<byte>, b: seq<byte>)
    ensures DecodeLE(a + b) == DecodeLE(a) + Pow256(|a|) * DecodeLE(b)
  {
    if |a| > 0 {
      assert (a + b)[1..] == a[1..] + b;
      assert (a + b)[0] == a[0];
      DecodeLEAppend(a[1..], b);
      AppendStep(a[0], DecodeLE(a[1..]), Pow256(|a| - 1), DecodeLE(b));
    } else {
      assert a + b == b;
    }
  }

  /** The image of lo + 256^k * hi is the image of lo followed by that of hi. */
  lemma EncodeLESplit(lo: nat, hi: nat, k: nat, m: nat)
    requires lo < Pow256(k) && hi < Pow256(m)
    ensures lo + Pow256(k) * hi < Pow256(k + m)
    ensures EncodeLE(lo + Pow256(k) * hi, k + m) == EncodeLE(lo, k) + EncodeLE(hi, m)
  {
    var s := EncodeLE(lo, k) + EncodeLE(hi, m);
    DecodeLEAppend(EncodeLE(lo, k), EncodeLE(hi, m));
    DecodeEncodeLE(lo, k);
    DecodeEncodeLE(hi, m);
    assert DecodeLE(s) == lo + Pow256(k) * hi;
    EncodeDecodeLE(s);
  }

  lemma {:induction false} EncodeLEZero(n: nat)
    ensures EncodeLE(0, n) == Zeros(n)
  {
    if n > 0 {
      EncodeLEZero(n - 1);
      assert EncodeLE(0, n) == [0] + Zeros(n - 1);
    }
  }

  lemma {:induction false} EncodeLEAllOnes(n: nat)
    ensures EncodeLE(Pow256(n) - 1, n) == Fill(n, 0xFF)
  {
    if n > 0 {
      var p := Pow256(n - 1);
      assert Pow256(n) - 1 == 256 * (p - 1) + 255;
      assert (Pow256(n) - 1) % 256 == 255;
      assert (Pow256(n) - 1) / 256 == p - 1;
      EncodeLEAllOnes(n - 1);
      assert EncodeLE(Pow256(n) - 1, n) == [0xFF] + Fill(n - 1, 0xFF);
    }
  }

  // ---------------------------------------------------------------------
  // Integer casts (Rust `as` between integer types)
  // ---------------------------------------------------------------------

  /** `x as u32` for an i32: the 32-bit pattern is kept, so a negative x reads as x + 2^32. */
  function I32AsU32(x: i32): (r: u32)
    ensures (r - x) % TWO_32 == 0
    ensures r >= 0x8000_0000 <==> x < 0
  {
    if x < 0 then x + TWO_32 else x
  }

  /** `x as i32` for a u32: the inverse reinterpretation. */
  function U32AsI32(x: u32): (r: i32)
    ensures (x - r) % TWO_32 == 0
    ensures r < 0 <==> x >= 0x8000_0000
  {
    if x >= 0x8000_0000 then x - TWO_32 else x
  }

  /** `x as i64` for a u64: values of 2^63 and above become negative. */
  function U64AsI64(x: u64): (r: i64)
    ensures (x - r) % TWO_64 == 0
    ensures r < 0 <==> x >= TWO_63
  {
    if x >= TWO_63 then x - TWO_64 else x
  }

  /** `x as u64` for an i64: the two's-complement bit pattern of x. */
  function I64AsU64(x: i64): (r: u64)
    ensures (r - x) % TWO_64 == 0
    ensures r >= TWO_63 <==> x < 0
  {
    if x < 0 then x + TWO_64 else x
  }

  /** `x as i128` for an i64: sign extension. The low 64 bits of the result are
      the bit pattern of x, and the sign bit fills the upper 64. */
  function I64AsI128(x: i64): (r: i128)
    ensures I128AsU128(r) == I64AsU64(x) + (if x < 0 then TWO_128 - TWO_64 else 0)
  {
    x
  }

  /** The two's-complement bit pattern of an i128, as the image writer needs it. */
  function I128AsU128(x: i128): (r: u128)
    ensures (r - x) % TWO_128 == 0
    ensures r >= TWO_128 / 2 <==> x < 0
  {
    if x < 0 then x + TWO_128 else x
  }

  /** The 128-bit pattern of an i128, read back as a signed value. */
  function U128AsI128(x: u128): (r: i128)
    ensures (x - r) % TWO_128 == 0
    ensures r < 0 <==> x >= TWO_128 / 2
  {
    if x >= TWO_128 / 2 then x - TWO_128 else x
  }

  /** `as u32` then `as i32` gives back every i32. */
  lemma I32AsU32RoundTrip(x: i32)
    ensures U32AsI32(I32AsU32(x)) == x
  {
  }

  /** `as i32` then `as u32` gives back every u32. */
  lemma U32AsI32RoundTrip(y: u32)
    ensures I32AsU32(U32AsI32(y)) == y
  {
  }

  /** `as u64` then `as i64` gives back every i64. */
  lemma I64AsU64RoundTrip(x: i64)
    ensures U64AsI64(I64AsU64(x)) == x
  {
  }

  /** `as i64` then `as u64` gives back every u64. */
  lemma U64AsI64RoundTrip(y: u64)
    ensures I64AsU64(U64AsI64(y)) == y
  {
  }

  lemma I128AsU128RoundTrip(x: i128)
    ensures U128AsI128(I128AsU128(x)) == x
  {
  }

  lemma U128AsI128RoundTrip(y: u128)
    ensures I128AsU128(U128AsI128(y)) == y
  {
  }

  /** Widening an i64 to an i128 writes its eight bytes followed by eight copies
      of its sign byte: 0x00 for a non-negative value, 0xFF for a negative one. */
  lemma SignExtensionImage(x: i64)
    ensures I128AsU128(I64AsI128(x)) < Pow256(16) && I64AsU64(x) < Pow256(8)
    ensures EncodeLE(I128AsU128(I64AsI128(x)), 16)
         == EncodeLE(I64AsU64(x), 8) + Fill(8, if x < 0 then 0xFF else 0x00)
  {
    Pow256Widths();
    var lo := I64AsU64(x);
    if x < 0 {
      assert I128AsU128(I64AsI128(x)) == lo + Pow256(8) * (Pow256(8) - 1);
      EncodeLESplit(lo, Pow256(8) - 1, 8, 8);
      EncodeLEAllOnes(8);
    } else {
      assert I128AsU128(I64AsI128(x)) == lo + Pow256(8) * 0;
      EncodeLESplit(lo, 0, 8, 8);
      EncodeLEZero(8);
    }
  }
}
