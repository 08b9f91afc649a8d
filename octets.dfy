/**
 * Bytes and fixed-width integers as they appear on the wire: Rust's
 * `u16`/`u32`/`usize::to_le_bytes` and `from_le_bytes` on the server, and
 * .NET's `BitConverter.ToInt16`/`ToInt32` (little-endian host) on the client.
 */
module Octets {

  /** An octet (Rust `u8`, .NET `byte`). */
  type Byte = x: int | 0 <= x < 0x100
  type Bytes = seq<Byte>

  type U16 = x: int | 0 <= x < 0x1_0000
  type U32 = x: int | 0 <= x < 0x1_0000_0000
  /** `usize` on the 64-bit targets the server is built for. */
  type U64 = x: int | 0 <= x < 0x1_0000_0000_0000_0000
  type I16 = x: int | -0x8000 <= x < 0x8000
  type I32 = x: int | -0x8000_0000 <= x < 0x8000_0000

  const MAX_U32: U32 := 0xFFFF_FFFF
  const MIN_I32: I32 := -0x8000_0000
  const MAX_I32: I32 := 0x7FFF_FFFF

  /** A length that fits in 16 bits is unchanged by `as u16`. */
  lemma SmallMod16(n: nat)
    requires n < 0x1_0000
    ensures n % 0x1_0000 == n
  {
  }

  /** `as u16` never makes a length longer. */
  lemma Mod16Shrinks(n: nat)
    ensures n % 0x1_0000 <= n
  {
  }

  /** The low eight bits of a non-negative integer. */
  function LowByte(x: int): (b: Byte)
    requires 0 <= x
    ensures b == x % 0x100
  {
    x % 0x100
  }

  /** The n low bytes of x, least significant first (`to_le_bytes`). */
  function LeBytes(x: nat, n: nat): (r: Bytes)
    ensures |r| == n
    decreases n
  {
    if n == 0 then [] else [LowByte(x)] + LeBytes(x / 0x100, n - 1)
  }

  /** `(x as u16).to_le_bytes()`: the low 16 bits of x. */
  function Le16(x: nat): (r: Bytes)
    ensures |r| == 2
  {
    LeBytes(x, 2)
  }

  /** `u32::to_le_bytes`. */
  function Le32(x: U32): (r: Bytes)
    ensures |r| == 4
  {
    LeBytes(x, 4)
  }

  /** `usize::to_le_bytes` on a 64-bit target (the low 64 bits of x). */
  function Le64(x: nat): (r: Bytes)
    ensures |r| == 8
  {
    LeBytes(x, 8)
  }

  /** `u16::from_le_bytes([s[i], s[i + 1]])`. */
  function U16At(s: Bytes, i: nat): (r: U16)
    requires i + 2 <= |s|
    ensures r % 0x100 == s[i] && r / 0x100 == s[i + 1]
  {
    DivModByte(s[i], s[i + 1]);
    s[i] as int + 0x100 * (s[i + 1] as int)
  }

  /** `u32::from_le_bytes([s[i], .., s[i + 3]])`. */
  function U32At(s: Bytes, i: nat): (r: U32)
    requires i + 4 <= |s|
    ensures r % 0x1_0000 == U16At(s, i) && r / 0x1_0000 == U16At(s, i + 2)
  {
    U16At(s, i) + 0x1_0000 * U16At(s, i + 2)
  }

  /** Two's-complement reading of 16 bits. */
  function Signed16(u: U16): (r: I16)
    ensures r % 0x1_0000 == u
  {
    if u < 0x8000 then u else u - 0x1_0000
  }

  /** Two's-complement reading of 32 bits (also Rust's `u32 as i32`). */
  function Signed32(u: U32): (r: I32)
    ensures r % 0x1_0000_0000 == u
    ensures u <= MAX_I32 ==> r == u
  {
    if u < 0x8000_0000 then u else u - 0x1_0000_0000
  }

  /** `BitConverter.ToInt16(s, i)` on a little-endian host. */
  function I16At(s: Bytes, i: nat): (r: I16)
    requires i + 2 <= |s|
    ensures r % 0x1_0000 == U16At(s, i)
    ensures r < 0 <==> s[i + 1] >= 0x80
  {
    Signed16(U16At(s, i))
  }

  /** `BitConverter.ToInt32(s, i)` on a little-endian host. */
  function I32At(s: Bytes, i: nat): (r: I32)
    requires i + 4 <= |s|
    ensures r % 0x1_0000_0000 == U32At(s, i)
    ensures r < 0 <==> s[i + 3] >= 0x80
  {
    Signed32(U32At(s, i))
  }

  /** The two bytes of a 16-bit encoding, spelled out. */
  lemma LeBytes2(x: nat)
    ensures LeBytes(x, 2) == [LowByte(x), LowByte(x / 0x100)]
  {
    assert LeBytes(x / 0x100, 1) == [LowByte(x / 0x100)] + LeBytes(x / 0x100 / 0x100, 0);
  }

  /** Taking a number apart into its low 16 bits and the rest, byte by byte. */
  lemma ByteArith(x: nat)
    ensures x / 0x100 / 0x100 == x / 0x1_0000
    ensures (x % 0x1_0000) % 0x100 == x % 0x100
    ensures (x % 0x1_0000) / 0x100 == (x / 0x100) % 0x100
  {
    var q, r := x / 0x1_0000, x % 0x1_0000;
    var a, b := r / 0x100, r % 0x100;
    assert x == q * 0x1_0000 + a * 0x100 + b;
    assert x / 0x100 == q * 0x100 + a;
  }

  /** An encoding of n + 2 bytes is the 16-bit encoding of the low bits, then the bytes above. */
  lemma LeBytesSplit(x: nat, n: nat)
    ensures LeBytes(x, n + 2) == LeBytes(x % 0x1_0000, 2) + LeBytes(x / 0x1_0000, n)
  {
    LeBytes2(x % 0x1_0000);
    ByteArith(x);
    assert LeBytes(x, n + 2) == [LowByte(x)] + LeBytes(x / 0x100, n + 1);
    assert LeBytes(x / 0x100, n + 1) == [LowByte(x / 0x100)] + LeBytes(x / 0x100 / 0x100, n);
  }

  /** Decoding what `Le16` wrote gives back the number modulo 2^16. */
  lemma Le16Decodes(x: nat)
    ensures U16At(Le16(x), 0) == x % 0x1_0000
  {
    LeBytes2(x);
    ByteArith(x);
    var r := x % 0x1_0000;
    assert r == (r / 0x100) * 0x100 + r % 0x100;
  }

  /** Encoding what was read gives back the two bytes. */
  lemma Le16Encodes(s: Bytes, i: nat)
    requires i + 2 <= |s|
    ensures Le16(U16At(s, i)) == s[i..i + 2]
  {
    LeBytes2(U16At(s, i));
    DivModByte(s[i], s[i + 1]);
  }

  lemma DivModByte(a: Byte, b: Byte)
    ensures (a as int + 0x100 * b) % 0x100 == a && (a as int + 0x100 * b) / 0x100 == b
  {
  }

  /** A 32-bit encoding is the encodings of its two halves, low half first. */
  lemma Le32Halves(x: U32)
    ensures Le32(x) == Le16(x % 0x1_0000) + Le16(x / 0x1_0000)
  {
    LeBytesSplit(x, 2);
  }

  lemma {:induction false} Le32Decodes(x: U32)
    ensures U32At(Le32(x), 0) == x
  {
    var lo, hi := x % 0x1_0000, x / 0x1_0000;
    Le32Halves(x);
    Le16Decodes(lo);
    Le16Decodes(hi);
    var r := Le32(x);
    assert r[0..2] == Le16(lo) && r[2..4] == Le16(hi);
    assert U16At(r, 0) == U16At(Le16(lo), 0);
    assert U16At(r, 2) == U16At(Le16(hi), 0);
  }

  lemma {:induction false} Le32Encodes(s: Bytes, i: nat)
    requires i + 4 <= |s|
    ensures Le32(U32At(s, i)) == s[i..i + 4]
  {
    var lo, hi := U16At(s, i), U16At(s, i + 2);
    var x := U32At(s, i);
    assert x % 0x1_0000 == lo && x / 0x1_0000 == hi;
    Le32Halves(x);
    Le16Encodes(s, i);
    Le16Encodes(s, i + 2);
    assert s[i..i + 4] == s[i..i + 2] + s[i + 2..i + 4];
  }

  /** Wherever it sits in a larger packet, an encoded `u16` reads back. */
  lemma Le16DecodesAt(pre: Bytes, x: nat, post: Bytes)
    ensures U16At(pre + Le16(x) + post, |pre|) == x % 0x1_0000
  {
    Le16Decodes(x);
    var s := pre + Le16(x) + post;
    assert s[|pre|] == Le16(x)[0] && s[|pre| + 1] == Le16(x)[1];
  }

  /** Wherever it sits in a larger packet, an encoded `u32` reads back. */
  lemma Le32DecodesAt(pre: Bytes, x: U32, post: Bytes)
    ensures U32At(pre + Le32(x) + post, |pre|) == x
  {
    Le32Decodes(x);
    var s := pre + Le32(x) + post;
    forall k | 0 <= k < 4 ensures s[|pre| + k] == Le32(x)[k] {
    }
  }

  /** A `usize` below 2^16 is its two low bytes followed by six zero bytes. */
  lemma Le64Small(x: nat)
    requires x < 0x1_0000
    ensures Le64(x) == Le16(x) + Zeros(6)
  {
    LeBytesSplit(x, 6);
    SmallMod16(x);
    LeBytesOfZero(6);
  }

  /** Reading a `u16` inside the first part of a concatenation. */
  lemma U16AtPrefix(a: Bytes, b: Bytes, i: nat)
    requires i + 2 <= |a|
    ensures U16At(a + b, i) == U16At(a, i)
  {
    assert (a + b)[i] == a[i] && (a + b)[i + 1] == a[i + 1];
  }

  /** Reading a `u16` inside the second part of a concatenation. */
  lemma U16AtSuffix(a: Bytes, b: Bytes, i: nat)
    requires i + 2 <= |b|
    ensures U16At(a + b, |a| + i) == U16At(b, i)
  {
    assert (a + b)[|a| + i] == b[i] && (a + b)[|a| + i + 1] == b[i + 1];
  }

  /** A slice inside the first part of a concatenation. */
  lemma SlicePrefix(a: Bytes, b: Bytes, i: nat, j: nat)
    requires i <= j <= |a|
    ensures (a + b)[i..j] == a[i..j]
  {
  }

  /** A slice inside the second part of a concatenation. */
  lemma SliceSuffix(a: Bytes, b: Bytes, i: nat, j: nat)
    requires i <= j <= |b|
    ensures (a + b)[|a| + i..|a| + j] == b[i..j]
  {
  }

  /** Every byte of zero is zero. */
  lemma {:induction false} LeBytesOfZero(n: nat)
    ensures LeBytes(0, n) == Zeros(n)
    decreases n
  {
    if n > 0 {
      LeBytesOfZero(n - 1);
      assert LeBytes(0, n) == [0] + Zeros(n - 1);
    }
  }

  /** n zero bytes. */
  function Zeros(n: nat): (r: Bytes)
    ensures |r| == n && forall i :: 0 <= i < n ==> r[i] == 0
  {
    if n == 0 then [] else [0] + Zeros(n - 1)
  }

  /** C#'s unchecked `x++` on an `int`: `int.MaxValue` wraps to `int.MinValue`. */
  function Inc32(x: I32): (r: I32)
    ensures x < MAX_I32 ==> r == x + 1
    ensures x == MAX_I32 ==> r == MIN_I32
  {
    if x == MAX_I32 then MIN_I32 else x + 1
  }

  /** The `int` a counter holds after n unchecked increments from 0. */
  function Wrap32(n: nat): I32 {
    Signed32(n % 0x1_0000_0000)
  }

  /** One more increment of the counter is one more wrapped step. */
  lemma IncWrap32(n: nat)
    ensures Inc32(Wrap32(n)) == Wrap32(n + 1)
  {
    var q, m := n / 0x1_0000_0000, n % 0x1_0000_0000;
    assert n == q * 0x1_0000_0000 + m;
    if m == 0xFFFF_FFFF {
      assert n + 1 == (q + 1) * 0x1_0000_0000;
      assert (n + 1) % 0x1_0000_0000 == 0;
    } else {
      assert n + 1 == q * 0x1_0000_0000 + (m + 1);
      assert (n + 1) % 0x1_0000_0000 == m + 1;
    }
  }

  /** Until it wraps, a counter incremented n times from 0 holds n. */
  lemma Wrap32Small(n: nat)
    requires n <= MAX_I32
    ensures Wrap32(n) == n
  {
  }
}
