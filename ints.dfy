/**
 * Fixed-width machine integers as bounded `int`s, and the wrapping casts of
 * Rust's `as` operator between them.
 *
 * Arithmetic in the decoder is modelled as in a release build, where an
 * overflowing `u32`/`i32` operation wraps around instead of panicking.
 */
module Ints {

  type u8 = x: int | 0 <= x < 0x100
  type u16 = x: int | 0 <= x < 0x1_0000
  type u32 = x: int | 0 <= x < 0x1_0000_0000
  type u64 = x: int | 0 <= x < 0x1_0000_0000_0000_0000
  type i8 = x: int | -0x80 <= x < 0x80
  type i16 = x: int | -0x8000 <= x < 0x8000
  type i32 = x: int | -0x8000_0000 <= x < 0x8000_0000
  type i64 = x: int | -0x8000_0000_0000_0000 <= x < 0x8000_0000_0000_0000

  /** The decoder is built for 64-bit targets, where `usize` is 64 bits wide. */
  type usize = u64

  /** The bit widths of Rust's primitive integers used here. */
  type Width = b: nat | b == 8 || b == 16 || b == 32 || b == 64 witness 8

  /** 2^bits */
  function Modulus(bits: Width): int {
    if bits == 8 then 0x100
    else if bits == 16 then 0x1_0000
    else if bits == 32 then 0x1_0000_0000
    else 0x1_0000_0000_0000_0000
  }

  /** `v as uN`: keep the low `bits` bits of the two's-complement value. */
  function WrapUnsigned(v: int, bits: Width): (r: int)
    ensures 0 <= r < Modulus(bits)
    ensures (r - v) % Modulus(bits) == 0
    ensures 0 <= v < Modulus(bits) ==> r == v
  {
    v % Modulus(bits)
  }

  /** `v as iN`: keep the low `bits` bits and read them as two's complement. */
  function WrapSigned(v: int, bits: Width): (r: int)
    ensures -Modulus(bits) / 2 <= r < Modulus(bits) / 2
    ensures (r - v) % Modulus(bits) == 0
    ensures -Modulus(bits) / 2 <= v < Modulus(bits) / 2 ==> r == v
  {
    WrapSignedRange(v, bits);
    var m := v % Modulus(bits);
    if m >= Modulus(bits) / 2 then m - Modulus(bits) else m
  }

  lemma WrapSignedRange(v: int, bits: Width)
    ensures var m := v % Modulus(bits);
      var r := if m >= Modulus(bits) / 2 then m - Modulus(bits) else m;
      && -Modulus(bits) / 2 <= r < Modulus(bits) / 2
      && (r - v) % Modulus(bits) == 0
      && (-Modulus(bits) / 2 <= v < Modulus(bits) / 2 ==> r == v)
  {
    if bits == 8 {
      WrapSigned8(v);
    } else if bits == 16 {
      WrapSigned16(v);
    } else if bits == 32 {
      WrapSigned32(v);
    } else {
      WrapSigned64(v);
    }
  }

  lemma WrapSigned8(v: int)
    ensures var w := v % 0x100;
      var r := if w >= 0x100 / 2 then w - 0x100 else w;
      && -0x100 / 2 <= r < 0x100 / 2
      && (r - v) % 0x100 == 0
      && (-0x100 / 2 <= v < 0x100 / 2 ==> r == v)
  {
  }

  lemma WrapSigned16(v: int)
    ensures var w := v % 0x1_0000;
      var r := if w >= 0x1_0000 / 2 then w - 0x1_0000 else w;
      && -0x1_0000 / 2 <= r < 0x1_0000 / 2
      && (r - v) % 0x1_0000 == 0
      && (-0x1_0000 / 2 <= v < 0x1_0000 / 2 ==> r == v)
  {
  }

  lemma WrapSigned32(v: int)
    ensures var w := v % 0x1_0000_0000;
      var r := if w >= 0x1_0000_0000 / 2 then w - 0x1_0000_0000 else w;
      && -0x1_0000_0000 / 2 <= r < 0x1_0000_0000 / 2
      && (r - v) % 0x1_0000_0000 == 0
      && (-0x1_0000_0000 / 2 <= v < 0x1_0000_0000 / 2 ==> r == v)
  {
  }

  lemma WrapSigned64(v: int)
    ensures var w := v % 0x1_0000_0000_0000_0000;
      var r := if w >= 0x1_0000_0000_0000_0000 / 2 then w - 0x1_0000_0000_0000_0000 else w;
      && -0x1_0000_0000_0000_0000 / 2 <= r < 0x1_0000_0000_0000_0000 / 2
      && (r - v) % 0x1_0000_0000_0000_0000 == 0
      && (-0x1_0000_0000_0000_0000 / 2 <= v < 0x1_0000_0000_0000_0000 / 2 ==> r == v)
  {
  }

  /** `u16::swap_bytes`: exchange the two bytes of a 16-bit word. */
  function SwapBytes16(v: u16): u16 {
    (v % 0x100) * 0x100 + v / 0x100
  }

  // `xs.into_iter().map(|x| x as T)` for each integer type T

  function AsI8s(xs: seq<int>): (r: seq<i8>)
    ensures |r| == |xs|
  {
    assert Modulus(8) == 0x100;
    seq(|xs|, k requires 0 <= k < |xs| => WrapSigned(xs[k], 8))
  }

  function AsU8s(xs: seq<int>): (r: seq<u8>)
    ensures |r| == |xs|
  {
    assert Modulus(8) == 0x100;
    seq(|xs|, k requires 0 <= k < |xs| => WrapUnsigned(xs[k], 8))
  }

  function AsI16s(xs: seq<int>): (r: seq<i16>)
    ensures |r| == |xs|
  {
    assert Modulus(16) == 0x1_0000;
    seq(|xs|, k requires 0 <= k < |xs| => WrapSigned(xs[k], 16))
  }

  function AsU16s(xs: seq<int>): (r: seq<u16>)
    ensures |r| == |xs|
  {
    assert Modulus(16) == 0x1_0000;
    seq(|xs|, k requires 0 <= k < |xs| => WrapUnsigned(xs[k], 16))
  }

  function AsI32s(xs: seq<int>): (r: seq<i32>)
    ensures |r| == |xs|
  {
    assert Modulus(32) == 0x1_0000_0000;
    seq(|xs|, k requires 0 <= k < |xs| => WrapSigned(xs[k], 32))
  }

  function AsU32s(xs: seq<int>): (r: seq<u32>)
    ensures |r| == |xs|
  {
    assert Modulus(32) == 0x1_0000_0000;
    seq(|xs|, k requires 0 <= k < |xs| => WrapUnsigned(xs[k], 32))
  }

  function AsI64s(xs: seq<int>): (r: seq<i64>)
    ensures |r| == |xs|
  {
    assert Modulus(64) == 0x1_0000_0000_0000_0000;
    seq(|xs|, k requires 0 <= k < |xs| => WrapSigned(xs[k], 64))
  }

  function AsU64s(xs: seq<int>): (r: seq<u64>)
    ensures |r| == |xs|
  {
    assert Modulus(64) == 0x1_0000_0000_0000_0000;
    seq(|xs|, k requires 0 <= k < |xs| => WrapUnsigned(xs[k], 64))
  }
}
