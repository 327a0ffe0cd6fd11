/**
 * Fixed-width machine integers, little-endian byte layouts, zero padding,
 * and the bitwise operators the allocator uses, all over mathematical integers.
 */
module Bytes {

  type byte = b: int | 0 <= b < 0x100
  type u16 = x: int | 0 <= x < 0x1_0000
  type u32 = x: int | 0 <= x < 0x1_0000_0000
  type u64 = x: int | 0 <= x < 0x1_0000_0000_0000_0000
  type i32 = x: int | -0x8000_0000 <= x < 0x8000_0000

  const U32_MAX: u32 := 0xFFFF_FFFF

  function Pow2(k: nat): (r: nat)
    ensures r >= 1
  {
    if k == 0 then 1 else 2 * Pow2(k - 1)
  }

  function Pow256(width: nat): (r: nat)
    ensures r >= 1
  {
    if width == 0 then 1 else 256 * Pow256(width - 1)
  }

  /** `n` zero bytes. */
  function Zeros(n: nat): (r: seq<byte>)
    ensures |r| == n
    ensures forall i :: 0 <= i < n ==> r[i] == 0
  {
    seq(n, _ => 0)
  }

  /** The bytes of `v`, least significant first (struct format `<` of Python, or a C# blit). */
  function LittleEndian(v: nat, width: nat): (r: seq<byte>)
    requires v < Pow256(width)
    ensures |r| == width
  {
    if width == 0 then [] else [v % 256] + LittleEndian(v / 256, width - 1)
  }

  /** The unsigned value of little-endian bytes. */
  function FromLittleEndian(bs: seq<byte>): (v: nat)
    ensures v < Pow256(|bs|)
  {
    if bs == [] then 0 else bs[0] + 256 * FromLittleEndian(bs[1..])
  }

  lemma {:induction false} FromLittleEndianOfLittleEndian(v: nat, width: nat)
    requires v < Pow256(width)
    ensures FromLittleEndian(LittleEndian(v, width)) == v
  {
    if width > 0 {
      var rest := LittleEndian(v / 256, width - 1);
      FromLittleEndianOfLittleEndian(v / 256, width - 1);
      assert LittleEndian(v, width)[1..] == rest;
    }
  }

  lemma {:induction false} LittleEndianOfFromLittleEndian(bs: seq<byte>)
    ensures LittleEndian(FromLittleEndian(bs), |bs|) == bs
  {
    if bs != [] {
      var v := FromLittleEndian(bs);
      assert v % 256 == bs[0] && v / 256 == FromLittleEndian(bs[1..]);
      LittleEndianOfFromLittleEndian(bs[1..]);
    }
  }

  /** Two's-complement storage of a signed 32-bit value (struct format `i`). */
  function I32ToU32(v: i32): (r: u32)
    ensures v >= 0 ==> r == v
    ensures v < 0 ==> r >= 0x8000_0000
  {
    if v < 0 then v + 0x1_0000_0000 else v
  }

  function U32ToI32(u: u32): i32 {
    if u >= 0x8000_0000 then u - 0x1_0000_0000 else u
  }

  lemma I32RoundTrip(v: i32)
    ensures U32ToI32(I32ToU32(v)) == v
  {}

  /**
   * Copy `bs` into a zeroed buffer of `n` bytes, truncating if it is longer:
   * what `Array.Resize` and Python's `Ns` struct format both do.
   */
  function PadTruncate(bs: seq<byte>, n: nat): (r: seq<byte>)
    ensures |r| == n
    ensures forall i :: 0 <= i < n ==> r[i] == (if i < |bs| then bs[i] else 0)
  {
    if |bs| >= n then bs[..n] else bs + Zeros(n - |bs|)
  }

  // ---- Bitwise operators on non-negative integers ----

  /** `a & b`, bit by bit. */
  function BitAnd(a: nat, b: nat): nat
    decreases a
  {
    if a == 0 || b == 0 then 0
    else 2 * BitAnd(a / 2, b / 2) + (if a % 2 == 1 && b % 2 == 1 then 1 else 0)
  }

  /** `a | b`, bit by bit. */
  function BitOr(a: nat, b: nat): nat
    decreases a + b
  {
    if a == 0 then b
    else if b == 0 then a
    else 2 * BitOr(a / 2, b / 2) + (if a % 2 == 1 || b % 2 == 1 then 1 else 0)
  }

  /** `~a` on a 32-bit unsigned integer. */
  function BitNot32(a: u32): u32 {
    U32_MAX - a
  }

  /** `a` is a multiple of 2^k, written bit by bit so that induction on k is direct. */
  predicate Aligned(a: nat, k: nat) {
    k == 0 || (a % 2 == 0 && Aligned(a / 2, k - 1))
  }

  lemma {:induction false} AndLowBits(base: nat, x: nat, k: nat)
    requires Aligned(base, k) && x < Pow2(k)
    ensures BitAnd(base + x, Pow2(k) - 1) == x
  {
    if k > 0 && base + x != 0 {
      AndLowBits(base / 2, x / 2, k - 1);
      assert (base + x) / 2 == base / 2 + x / 2;
      assert (Pow2(k) - 1) / 2 == Pow2(k - 1) - 1;
    }
  }

  lemma {:induction false} OrAligned(base: nat, x: nat, k: nat)
    requires Aligned(base, k) && x < Pow2(k)
    ensures BitOr(base, x) == base + x
  {
    if k > 0 && base != 0 && x != 0 {
      OrAligned(base / 2, x / 2, k - 1);
    }
  }

  lemma {:induction false} AlignedStep(base: nat, k: nat)
    requires Aligned(base, k)
    ensures Aligned(base + Pow2(k), k)
  {
    if k > 0 {
      AlignedStep(base / 2, k - 1);
      assert (base + Pow2(k)) / 2 == base / 2 + Pow2(k - 1);
    }
  }

  lemma {:induction false} AlignedBelow(base: nat, k: nat, n: nat)
    requires Aligned(base, k) && k <= n && base < Pow2(n)
    ensures base + Pow2(k) <= Pow2(n)
  {
    if k > 0 {
      AlignedBelow(base / 2, k - 1, n - 1);
    }
  }

  /** Every multiple of 2^k is aligned to k bits. */
  lemma {:induction false} AlignedMultiple(m: nat, k: nat)
    ensures Aligned(m * Pow2(k), k)
  {
    if k > 0 {
      assert m * Pow2(k) == 2 * (m * Pow2(k - 1));
      AlignedMultiple(m, k - 1);
    }
  }

  lemma Pow2Of32()
    ensures Pow2(32) == 0x1_0000_0000
  {
    assert Pow2(8) == 256;
    assert Pow2(16) == 256 * 256 by {
      Pow2Add(8, 8);
    }
    Pow2Add(16, 16);
  }

  lemma {:induction false} Pow2Add(a: nat, b: nat)
    ensures Pow2(a + b) == Pow2(a) * Pow2(b)
  {
    if a > 0 {
      Pow2Add(a - 1, b);
    }
  }

  lemma {:induction false} BitAndBelow(a: nat, b: nat)
    ensures BitAnd(a, b) <= b
    decreases a
  {
    if a != 0 && b != 0 {
      BitAndBelow(a / 2, b / 2);
    }
  }

  lemma {:induction false} BitOrBelow(a: nat, b: nat, n: nat)
    requires a < Pow2(n) && b < Pow2(n)
    ensures BitOr(a, b) < Pow2(n)
    decreases a + b
  {
    if a != 0 && b != 0 {
      BitOrBelow(a / 2, b / 2, n - 1);
    }
  }

  lemma Pow2AtLeast4(k: nat)
    requires k >= 2
    ensures Pow2(k) >= 4
  {
    Pow2Add(2, k - 2);
  }
}
