/** Bit arithmetic used by the buddy allocator: powers of two, the bit-wise operators on
    naturals, the find-last-set ladder, and what they mean for a block and its buddy. */
module Bits {

  function Pow2(n: nat): (r: nat)
    ensures r >= 1
  {
    if n == 0 then 1 else 2 * Pow2(n - 1)
  }

  function Xor(a: nat, b: nat): nat {
    if a == 0 && b == 0 then 0 else 2 * Xor(a / 2, b / 2) + (a % 2 + b % 2) % 2
  }

  function And(a: nat, b: nat): nat {
    if a == 0 || b == 0 then 0 else 2 * And(a / 2, b / 2) + (if a % 2 == 1 && b % 2 == 1 then 1 else 0)
  }

  function Or(a: nat, b: nat): nat {
    if a == 0 && b == 0 then 0 else 2 * Or(a / 2, b / 2) + (if a % 2 == 1 || b % 2 == 1 then 1 else 0)
  }

  /** Page number `p` is a multiple of 2^o: its o low bits are clear. */
  predicate Aligned(p: nat, o: nat)
    decreases o
  {
    o == 0 || (p % 2 == 0 && Aligned(p / 2, o - 1))
  }

  /** `p` with its o low bits cleared. */
  function Base(p: nat, o: nat): nat
    decreases o
  {
    if o == 0 then p else 2 * Base(p / 2, o - 1)
  }

  /** The other half of the 2^(o+1) block that contains block (p, o). */
  function Buddy(p: nat, o: nat): nat {
    Xor(p, Pow2(o))
  }

  lemma Pow2Double(n: nat)
    ensures Pow2(n + 1) == 2 * Pow2(n)
  {
  }

  lemma {:induction false} Pow2Monotone(a: nat, b: nat)
    requires a <= b
    ensures Pow2(a) <= Pow2(b)
    ensures a < b ==> 2 * Pow2(a) <= Pow2(b)
  {
    if a < b { Pow2Monotone(a, b - 1); }
  }

  lemma {:induction false} BaseIsAligned(p: nat, o: nat)
    ensures Aligned(Base(p, o), o) && Base(p, o) <= p < Base(p, o) + Pow2(o)
  {
    if o > 0 { BaseIsAligned(p / 2, o - 1); }
  }

  lemma {:induction false} BaseOfBase(p: nat, a: nat, b: nat)
    requires a <= b
    ensures Base(Base(p, a), b) == Base(p, b)
    decreases a
  {
    if a > 0 { BaseOfBase(p / 2, a - 1, b - 1); }
  }

  /** A page below 2^o lies in the block at 0. */
  lemma {:induction false} BaseOfSmall(p: nat, o: nat)
    requires p < Pow2(o)
    ensures Base(p, o) == 0
    decreases o
  {
    if o > 0 { BaseOfSmall(p / 2, o - 1); }
  }

  lemma {:induction false} BaseOfAligned(p: nat, o: nat)
    requires Aligned(p, o)
    ensures Base(p, o) == p
    decreases o
  {
    if o > 0 { BaseOfAligned(p / 2, o - 1); }
  }

  lemma {:induction false} ZeroIsNeutral(a: nat)
    ensures Xor(a, 0) == a && Or(a, 0) == a && And(a, a) == a && Or(a, a) == a
  {
    if a > 0 { ZeroIsNeutral(a / 2); }
  }

  lemma LastBits(a: nat, b: nat)
    ensures Xor(a, b) == 2 * Xor(a / 2, b / 2) + (a % 2 + b % 2) % 2
    ensures And(a, b) == 2 * And(a / 2, b / 2) + if a % 2 == 1 && b % 2 == 1 then 1 else 0
    ensures Or(a, b) == 2 * Or(a / 2, b / 2) + if a % 2 == 1 || b % 2 == 1 then 1 else 0
  {
  }

  lemma BuddyOfEven(p: nat, o: nat)
    requires p % 2 == 0 && o > 0
    ensures Buddy(p, o) == 2 * Buddy(p / 2, o - 1)
  {
    LastBits(p, Pow2(o));
  }

  lemma BuddyOfPage(p: nat)
    ensures var b := Buddy(p, 0);
      && b / 2 == p / 2 && b % 2 == 1 - p % 2 && Buddy(b, 0) == p
      && And(b, p) == 2 * (p / 2) && Or(b, p) == 2 * (p / 2) + 1
  {
    hide Xor, And, Or;
    ZeroIsNeutral(p / 2);
    LastBits(p, 1);
    var b := Buddy(p, 0);
    LastBits(b, 1);
    LastBits(b, p);
    assert b / 2 == p / 2;
  }

  /** Both buddies are aligned and disjoint; the bit-wise "and" and "or" of their heads are the lower
      and the upper one, and together they make the enclosing block one order up. */
  lemma {:induction false} BuddyHalves(p: nat, o: nat)
    requires Aligned(p, o)
    ensures var b := Buddy(p, o);
            && Aligned(b, o) && Buddy(b, o) == p
            && Aligned(And(b, p), o + 1) && And(b, p) == Base(p, o + 1)
            && ((And(b, p) == p && Or(b, p) == b && b == p + Pow2(o))
                || (And(b, p) == b && Or(b, p) == p && p == b + Pow2(o)))
    decreases o
  {
    hide Xor, And, Or, Buddy;
    if o == 0 {
      BuddyOfPage(p);
      assert Base(p, 1) == 2 * Base(p / 2, 0);
    } else {
      BuddyHalves(p / 2, o - 1);
      BuddyOfEven(p, o);
      var b := Buddy(p, o);
      BuddyOfEven(b, o);
      LastBits(b, p);
    }
  }

  /** A head aligned for a larger block is aligned for the half, and its upper half is its buddy. */
  lemma {:induction false} AlignedDown(p: nat, o: nat)
    requires Aligned(p, o + 1)
    ensures Aligned(p, o) && Aligned(p + Pow2(o), o)
    ensures Buddy(p, o) == p + Pow2(o) && Buddy(p + Pow2(o), o) == p
    decreases o
  {
    hide Xor, And, Or, Buddy;
    if o == 0 {
      BuddyOfPage(p);
    } else {
      AlignedDown(p / 2, o - 1);
      assert (p + Pow2(o)) / 2 == p / 2 + Pow2(o - 1);
      BuddyOfEven(p, o);
      BuddyOfEven(p + Pow2(o), o);
    }
  }

  lemma {:induction false} AlignedDownTo(p: nat, a: nat, b: nat)
    requires a <= b && Aligned(p, b)
    ensures Aligned(p, a)
  {
    if a < b {
      AlignedDown(p, b - 1);
      AlignedDownTo(p, a, b - 1);
    }
  }

  lemma {:induction false} AlignedStep(p: nat, o: nat)
    requires Aligned(p, o)
    ensures Aligned(p + Pow2(o), o)
    decreases o
  {
    if o > 0 {
      AlignedStep(p / 2, o - 1);
      assert (p + Pow2(o)) / 2 == p / 2 + Pow2(o - 1);
    }
  }

  lemma {:induction false} ZeroAligned(o: nat)
    ensures Aligned(0, o)
  {
    if o > 0 { ZeroAligned(o - 1); }
  }

  /** Aligned power-of-two blocks are nested or disjoint. */
  lemma {:induction false} Nested(p: nat, a: nat, q: nat, b: nat)
    requires a <= b && Aligned(p, a) && Aligned(q, b)
    requires p < q + Pow2(b) && q < p + Pow2(a)
    ensures q <= p && p + Pow2(a) <= q + Pow2(b)
    decreases a
  {
    if a > 0 {
      Nested(p / 2, a - 1, q / 2, b - 1);
    }
  }

  lemma PowersOfTwo()
    ensures Pow2(1) == 2 && Pow2(2) == 4 && Pow2(3) == 8 && Pow2(4) == 0x10 && Pow2(5) == 0x20 && Pow2(6) == 0x40
    ensures Pow2(7) == 0x80 && Pow2(8) == 0x100 && Pow2(9) == 0x200 && Pow2(10) == 0x400 && Pow2(11) == 0x800
    ensures Pow2(12) == 0x1000 && Pow2(13) == 0x2000 && Pow2(14) == 0x4000 && Pow2(15) == 0x8000
    ensures Pow2(16) == 0x1_0000 && Pow2(17) == 0x2_0000 && Pow2(18) == 0x4_0000 && Pow2(19) == 0x8_0000
    ensures Pow2(20) == 0x10_0000 && Pow2(21) == 0x20_0000 && Pow2(22) == 0x40_0000 && Pow2(23) == 0x80_0000
    ensures Pow2(24) == 0x100_0000 && Pow2(25) == 0x200_0000 && Pow2(26) == 0x400_0000 && Pow2(27) == 0x800_0000
    ensures Pow2(28) == 0x1000_0000 && Pow2(29) == 0x2000_0000 && Pow2(30) == 0x4000_0000
    ensures Pow2(31) == 0x8000_0000 && Pow2(32) == 0x1_0000_0000
  {
    assert Pow2(8) == 0x100 && Pow2(16) == 0x1_0000 && Pow2(24) == 0x100_0000;
  }

  /** NX_FLS: a ladder of left shifts, each taken when the bits it would push out are clear. */
  function NxFls(x: nat): (r: nat)
    requires x < 0x1_0000_0000
    ensures x == 0 ==> r == 0
    ensures x > 0 ==> 1 <= r <= 32 && Pow2(r - 1) <= x < Pow2(r)
  {
    if x == 0 then 0
    else
      PowersOfTwo();
      var (x1, r1) := if x < 0x1_0000 then (x * 0x1_0000, 16) else (x, 32);
      var (x2, r2) := if x1 < 0x100_0000 then (x1 * 0x100, r1 - 8) else (x1, r1);
      var (x3, r3) := if x2 < 0x1000_0000 then (x2 * 0x10, r2 - 4) else (x2, r2);
      var (x4, r4) := if x3 < 0x4000_0000 then (x3 * 4, r3 - 2) else (x3, r3);
      if x4 < 0x8000_0000 then r4 - 1 else r4
  }

  /** BuddyFlsSizet: position of the highest set bit of a machine word, -1 for zero. */
  function BuddyFls(size: nat): (r: int)
    requires size < 0x1_0000_0000_0000_0000
    ensures size == 0 ==> r == -1
    ensures size > 0 ==> 0 <= r < 64 && Pow2(r) <= size < Pow2(r + 1)
  {
    var high := size / 0x1_0000_0000;
    if high != 0 then
      HighWord(size, NxFls(high));
      32 + (NxFls(high) - 1)
    else
      NxFls(size) - 1
  }

  lemma {:induction false} Pow2Shift32(n: nat)
    ensures Pow2(n + 32) == Pow2(n) * 0x1_0000_0000
  {
    if n == 0 { PowersOfTwo(); } else { Pow2Shift32(n - 1); assert Pow2(n + 32) == 2 * Pow2(n - 1 + 32); }
  }

  lemma HighWord(size: nat, f: nat)
    requires f >= 1 && Pow2(f - 1) <= size / 0x1_0000_0000 < Pow2(f)
    ensures Pow2(f - 1 + 32) <= size < Pow2(f + 32)
  {
    Pow2Shift32(f - 1);
    Pow2Shift32(f);
  }

  lemma RoundUp(count: nat, f: nat, k: nat)
    requires Pow2(f) <= count < Pow2(f + 1)
    requires Pow2(k) <= count + Pow2(f) - 1 < Pow2(k + 1)
    ensures count <= Pow2(k) && (k > 0 ==> Pow2(k - 1) < count)
  {
    if k < f {
      Pow2Monotone(k + 1, f);
    } else if k > f + 1 {
      Pow2Monotone(f + 2, k);
    }
  }

  /** The order requested by NX_BuddyAllocPage: the smallest one whose block holds `count` pages. */
  function RequestOrder(count: nat): (k: nat)
    requires 0 < count < 0x4000_0000_0000_0000
    ensures count <= Pow2(k) && (k > 0 ==> Pow2(k - 1) < count)
  {
    var f: nat := BuddyFls(count);
    var k := BuddyFls(count + (Pow2(f) - 1));
    RoundUp(count, f, k);
    k
  }
}
