/** The page map of a buddy zone as a value: what the `order` and `flags` fields of the pages mean
    together, and how one split, one merge step or one flag change alters that meaning. */
module BuddyZone {
  import opened Bits

  const MAX_ORDER := 20     // NX_MAX_PAGE_ORDER
  const INVALID_ORDER := -1 // NX_PAGE_INVALID_ORDER

  datatype Page = Page(order: int, free: bool, reference: int)

  /** An allocated block, as a caller of the allocator knows it. */
  datatype Block = Block(order: nat, refs: int)

  type Zone = seq<Page>
  type Blocks = map<nat, Block>

  predicate Head(z: Zone, p: int) {
    0 <= p < |z| && z[p].order >= 0
  }

  function End(z: Zone, p: nat): nat
    requires Head(z, p)
  {
    p + Pow2(z[p].order)
  }

  /** The block headed by p is aligned, lies in the first n pages, holds no other head, and is
      followed by a head or by the end. */
  ghost predicate BlockOk(z: Zone, p: nat, n: nat)
    requires n <= |z| && Head(z, p)
  {
    && Aligned(p, z[p].order)
    && End(z, p) <= n
    && (End(z, p) == n || Head(z, End(z, p)))
    && forall q :: p < q < End(z, p) ==> z[q].order == INVALID_ORDER
  }

  /** The heads cut the first n pages into aligned power-of-two blocks. */
  ghost predicate Tiled(z: Zone, n: nat) {
    && n <= |z|
    && (n > 0 ==> Head(z, 0))
    && (forall p :: 0 <= p < |z| ==> z[p].order >= INVALID_ORDER)
    && (forall p: nat {:trigger BlockOk(z, p, n)} :: Head(z, p) ==> BlockOk(z, p, n))
  }

  /** A free block below the top order never has a free buddy of its own order. */
  ghost predicate Unpaired(z: Zone, p: nat)
    requires p < |z| && z[p].order >= 0
  {
    var b := Buddy(p, z[p].order);
    z[p].order < MAX_ORDER && b < |z| && z[b].free ==> z[b].order != z[p].order
  }

  ghost predicate FreeOk(z: Zone) {
    && (forall p: nat :: p < |z| && z[p].free ==> 0 <= z[p].order <= MAX_ORDER)
    && (forall p: nat {:trigger Unpaired(z, p)} :: p < |z| && z[p].free ==> Unpaired(z, p))
  }

  ghost predicate ZoneOk(z: Zone) {
    Tiled(z, |z|) && FreeOk(z)
  }

  /** The allocated blocks recorded in the page map. */
  ghost function Allocated(z: Zone): Blocks {
    map p: nat | p < |z| && z[p].order >= 0 && !z[p].free :: BlockAt(z, p)
  }

  /** The block page p is the head of; of no meaning for other pages. */
  function BlockAt(z: Zone, p: nat): Block {
    if p < |z| && z[p].order >= 0 && !z[p].free then Block(z[p].order, z[p].reference) else Block(0, 0)
  }

  /** References are positive exactly on the heads of allocated blocks (`skip` is under change). */
  ghost predicate RefsOk(z: Zone, skip: int) {
    forall q :: 0 <= q < |z| && q != skip ==>
      z[q].reference >= 0 && (z[q].reference > 0 <==> z[q].order >= 0 && !z[q].free)
  }

  ghost predicate OrdersOk(z: Zone, skip: int) {
    forall q :: 0 <= q < |z| && q != skip ==> z[q].order <= MAX_ORDER
  }

  // ----- what the allocated blocks alone determine -----

  ghost predicate InBlock(b: Blocks, p: nat, q: nat) {
    p in b && p <= q < p + Pow2(b[p].order)
  }

  ghost predicate InUse(b: Blocks, q: nat) {
    exists p: nat :: InBlock(b, p, q)
  }

  ghost predicate UnusedRun(b: Blocks, n: nat, h: nat, o: nat) {
    h + Pow2(o) <= n && forall q: nat :: h <= q < h + Pow2(o) ==> !InUse(b, q)
  }

  /** (h, o) is a maximal aligned power-of-two run of unallocated pages of a zone of n pages. */
  ghost predicate MaximalRun(b: Blocks, n: nat, h: nat, o: nat) {
    && o <= MAX_ORDER && Aligned(h, o) && UnusedRun(b, n, h, o)
    && (o < MAX_ORDER ==> !UnusedRun(b, n, Base(h, o + 1), o + 1))
  }

  /** Some aligned run of 2^k pages is unallocated. */
  ghost predicate HasRun(b: Blocks, n: nat, k: nat) {
    exists h: nat :: Aligned(h, k) && UnusedRun(b, n, h, k)
  }

  /** p heads a maximal run that holds 2^k pages, and no maximal run that does is smaller. */
  ghost predicate BestFitRun(b: Blocks, n: nat, p: nat, k: nat) {
    exists o: nat :: k <= o && MaximalRun(b, n, p, o) && Smallest(b, n, k, o)
  }

  ghost predicate Smallest(b: Blocks, n: nat, k: nat, o: nat) {
    forall h: nat, j: nat :: MaximalRun(b, n, h, j) && k <= j ==> o <= j
  }

  // ----- tilings -----

  lemma {:induction false} HeadCovering(z: Zone, n: nat, p: nat, q: nat) returns (r: nat)
    requires Tiled(z, n) && Head(z, p) && p <= q < n
    ensures Head(z, r) && p <= r <= q < End(z, r)
    decreases n - p
  {
    if q < End(z, p) {
      r := p;
    } else {
      assert BlockOk(z, p, n);
      r := HeadCovering(z, n, End(z, p), q);
    }
  }

  lemma HeadsDisjoint(z: Zone, n: nat, p: nat, r: nat)
    requires Tiled(z, n) && Head(z, p) && Head(z, r) && p < r
    ensures End(z, p) <= r
  {
    assert BlockOk(z, p, n);
  }

  /** A page is in use exactly when the block covering it is allocated. */
  lemma CoveredBy(z: Zone, n: nat, r: nat, q: nat)
    requires Tiled(z, n) && Head(z, r) && r <= q < End(z, r)
    ensures InUse(Allocated(z), q) <==> !z[r].free
  {
    var b := Allocated(z);
    if !z[r].free { assert InBlock(b, r, q); }
    if InUse(b, q) {
      var p: nat :| InBlock(b, p, q);
      if p < r { HeadsDisjoint(z, n, p, r); }
      if r < p { HeadsDisjoint(z, n, r, p); }
    }
  }

  lemma NotBothHalves(z: Zone, h: nat, o: nat)
    requires FreeOk(z) && o < MAX_ORDER && Buddy(h, o) == h + Pow2(o) < |z|
    ensures !(z[h].free && z[h].order == o && z[h + Pow2(o)].free && z[h + Pow2(o)].order == o)
  {
    if z[h].free && z[h].order == o { assert Unpaired(z, h); }
  }

  lemma HalvesUnused(b: Blocks, n: nat, h: nat, o: nat)
    requires UnusedRun(b, n, h, o + 1)
    ensures UnusedRun(b, n, h, o) && UnusedRun(b, n, h + Pow2(o), o)
  {
  }

  /** The free blocks around the two halves of an aligned run: the larger one contains the run. */
  lemma BlockOfHalves(z: Zone, h: nat, o: nat, p: nat, r: nat) returns (f: nat)
    requires ZoneOk(z) && o < MAX_ORDER && Aligned(h, o + 1)
    requires Head(z, p) && z[p].free && z[p].order >= o && p <= h && h + Pow2(o) <= End(z, p)
    requires Head(z, r) && z[r].free && z[r].order >= o && r <= h + Pow2(o) && h + 2 * Pow2(o) <= End(z, r)
    ensures Head(z, f) && z[f].free && z[f].order >= o + 1 && f <= h && h + Pow2(o + 1) <= End(z, f)
  {
    hide Aligned, Buddy;
    AlignedDown(h, o);
    assert BlockOk(z, p, |z|) && BlockOk(z, r, |z|);
    NotBothHalves(z, h, o);
    f := if z[p].order == o then r else p;
    Nested(h, o + 1, f, z[f].order);
  }

  /** Every aligned run of unallocated pages lies inside one free block. */
  lemma {:induction false} RunInsideFreeBlock(z: Zone, h: nat, o: nat) returns (p: nat)
    requires ZoneOk(z) && o <= MAX_ORDER && Aligned(h, o) && UnusedRun(Allocated(z), |z|, h, o)
    ensures Head(z, p) && z[p].free && z[p].order >= o && p <= h && h + Pow2(o) <= End(z, p)
    decreases o
  {
    hide FreeOk, Aligned, Allocated;
    if o == 0 {
      p := HeadCovering(z, |z|, 0, h);
      CoveredBy(z, |z|, p, h);
    } else {
      hide UnusedRun, Tiled;
      var half: nat := o - 1;
      AlignedDown(h, half);
      HalvesUnused(Allocated(z), |z|, h, half);
      p := RunInsideFreeBlock(z, h, half);
      var r := RunInsideFreeBlock(z, h + Pow2(half), half);
      p := BlockOfHalves(z, h, half, p, r);
    }
  }

  lemma FreeBlockIsUnused(z: Zone, p: nat, k: nat)
    requires ZoneOk(z) && p < |z| && z[p].free && k <= z[p].order
    ensures Aligned(p, k) && UnusedRun(Allocated(z), |z|, p, k)
    ensures UnusedInside(z, p)
  {
    assert BlockOk(z, p, |z|);
    AlignedDownTo(p, k, z[p].order);
    Pow2Monotone(k, z[p].order);
    forall q: nat | p <= q < End(z, p) ensures !InUse(Allocated(z), q) { CoveredBy(z, |z|, p, q); }
  }

  ghost predicate UnusedInside(z: Zone, p: nat)
    requires Head(z, p)
  {
    forall q: nat :: p <= q < End(z, p) ==> !InUse(Allocated(z), q)
  }

  lemma FreeBlockIsMaximal(z: Zone, h: nat)
    requires ZoneOk(z) && h < |z| && z[h].free
    ensures MaximalRun(Allocated(z), |z|, h, z[h].order)
  {
    var o := z[h].order;
    FreeBlockIsUnused(z, h, o);
    var up := Base(h, o + 1);
    BaseIsAligned(h, o + 1);
    if o < MAX_ORDER && UnusedRun(Allocated(z), |z|, up, o + 1) {
      var p := RunInsideFreeBlock(z, up, o + 1);
      if p < h {
        HeadsDisjoint(z, |z|, p, h);
      }
    }
  }

  lemma MaximalRunIsFreeBlock(z: Zone, h: nat, o: nat)
    requires ZoneOk(z) && MaximalRun(Allocated(z), |z|, h, o)
    ensures h < |z| && z[h].free && z[h].order == o
  {
    hide Aligned, Pow2, Base, Unpaired;
    var p := RunInsideFreeBlock(z, h, o);
    assert BlockOk(z, p, |z|);
    if z[p].order > o {
      BaseIsAligned(h, o + 1);
      Nested(Base(h, o + 1), o + 1, p, z[p].order);
      FreeBlockIsUnused(z, p, o);
    } else {
      Nested(p, o, h, o);
    }
  }

  /** The free blocks are exactly the maximal aligned runs of unallocated pages. */
  lemma FreeBlocksAreMaximalRuns(z: Zone, h: nat, o: nat)
    requires ZoneOk(z)
    ensures (h < |z| && z[h].free && z[h].order == o) <==> MaximalRun(Allocated(z), |z|, h, o)
  {
    if h < |z| && z[h].free { FreeBlockIsMaximal(z, h); }
    if MaximalRun(Allocated(z), |z|, h, o) { MaximalRunIsFreeBlock(z, h, o); }
  }

  /** No free block of order k or more is left exactly when no aligned run of 2^k unallocated pages is. */
  lemma NoFreeBlockNoRun(z: Zone, k: nat)
    requires ZoneOk(z) && k <= MAX_ORDER
    ensures (exists p: nat :: p < |z| && z[p].free && z[p].order >= k) <==> HasRun(Allocated(z), |z|, k)
  {
    forall p: nat | p < |z| && z[p].free && z[p].order >= k
      ensures Aligned(p, k) && UnusedRun(Allocated(z), |z|, p, k)
    {
      FreeBlockIsUnused(z, p, k);
    }
    forall h: nat | Aligned(h, k) && UnusedRun(Allocated(z), |z|, h, k)
      ensures exists p: nat :: p < |z| && z[p].free && z[p].order >= k
    {
      var p := RunInsideFreeBlock(z, h, k);
    }
  }

  // ----- single steps -----

  lemma HeadsApart(z: Zone, n: nat, p: nat, r: nat)
    requires Tiled(z, n) && Head(z, p) && Head(z, r) && p != r
    ensures BlockOk(z, r, n) && (End(z, p) <= r || End(z, r) <= p)
  {
    assert BlockOk(z, r, n);
    if p < r { HeadsDisjoint(z, n, p, r); } else { HeadsDisjoint(z, n, r, p); }
  }

  lemma BuddyIsMutual(z: Zone, n: nat, p: nat)
    requires Tiled(z, n) && Head(z, p)
    ensures Buddy(Buddy(p, z[p].order), z[p].order) == p != Buddy(p, z[p].order)
  {
    assert BlockOk(z, p, n);
    BuddyHalves(p, z[p].order);
  }

  /** One round of PageSplit: the allocated block p keeps its lower half, the upper half becomes free. */
  function SplitOnce(z: Zone, p: nat, o: nat): Zone
    requires p + Pow2(o) < |z|
  {
    z[p := z[p].(order := o)][p + Pow2(o) := z[p + Pow2(o)].(order := o, free := true)]
  }

  lemma SplitOnceTiled(z: Zone, n: nat, p: nat, o: nat)
    requires Tiled(z, n) && Head(z, p) && z[p].order == o + 1
    ensures p + Pow2(o) < n && z[p + Pow2(o)].order == INVALID_ORDER
    ensures Tiled(SplitOnce(z, p, o), n)
  {
    hide Aligned;
    assert BlockOk(z, p, n);
    hide BlockOk;
    var z', m := SplitOnce(z, p, o), p + Pow2(o);
    forall r: nat | Head(z', r) ensures BlockOk(z', r, n) {
      SplitBlock(z, n, p, o, r);
    }
  }

  lemma SplitBlock(z: Zone, n: nat, p: nat, o: nat, r: nat)
    requires Tiled(z, n) && Head(z, p) && z[p].order == o + 1 && p + Pow2(o) < n && Head(SplitOnce(z, p, o), r)
    ensures BlockOk(SplitOnce(z, p, o), r, n)
  {
    hide Aligned;
    assert BlockOk(z, p, n);
    AlignedDown(p, o);
    if r != p && r != p + Pow2(o) {
      assert BlockOk(z, r, n);
      HeadsApart(z, n, p, r);
    }
  }

  lemma SplitPair(z: Zone, n: nat, p: nat, o: nat)
    requires Tiled(z, n) && Head(z, p) && z[p].order == o + 1
    ensures Buddy(p, o) == p + Pow2(o) && Buddy(p + Pow2(o), o) == p
  {
    assert BlockOk(z, p, n);
    AlignedDown(p, o);
  }

  lemma SplitOnceFree(z: Zone, n: nat, p: nat, o: nat)
    requires Tiled(z, n) && FreeOk(z) && Head(z, p) && !z[p].free && z[p].order == o + 1 <= MAX_ORDER
    requires p + Pow2(o) < |z|
    ensures FreeOk(SplitOnce(z, p, o))
  {
    hide Pow2, Aligned, Buddy, BlockOk, Tiled;
    var z', m := SplitOnce(z, p, o), p + Pow2(o);
    SplitPair(z, n, p, o);
    forall r: nat | r < |z'| && z'[r].free ensures Unpaired(z', r) {
      if r != m {
        assert Unpaired(z, r);
        BuddyIsMutual(z, n, r);
        assert Buddy(r, z[r].order) != m || z[r].order != o;
      }
    }
  }

  lemma SplitOnceOk(z: Zone, p: nat, o: nat)
    requires ZoneOk(z) && Head(z, p) && !z[p].free && z[p].order == o + 1 <= MAX_ORDER
    ensures p + Pow2(o) < |z| && !z[p + Pow2(o)].free && z[p + Pow2(o)].order == INVALID_ORDER
    ensures ZoneOk(SplitOnce(z, p, o))
    ensures Allocated(SplitOnce(z, p, o)) == Allocated(z)[p := Block(o, z[p].reference)]
    ensures RefsOk(z, p) ==> RefsOk(SplitOnce(z, p, o), p)
    ensures OrdersOk(z, p) ==> OrdersOk(SplitOnce(z, p, o), p)
  {
    SplitOnceTiled(z, |z|, p, o);
    SplitOnceFree(z, |z|, p, o);
  }

  /** One round of PageMerge: the heads lo and hi of two blocks of order o become one head. */
  function MergeOnce(z: Zone, lo: nat, hi: nat, o: nat): Zone
    requires lo < |z| && hi < |z|
  {
    z[hi := z[hi].(order := INVALID_ORDER, free := false)][lo := z[lo].(order := o + 1, free := false)]
  }

  lemma MergeOnceTiled(z: Zone, n: nat, lo: nat, hi: nat, o: nat)
    requires Tiled(z, n) && Head(z, lo) && Head(z, hi) && hi == lo + Pow2(o)
    requires z[lo].order == z[hi].order == o && Aligned(lo, o + 1)
    ensures Tiled(MergeOnce(z, lo, hi, o), n)
  {
    hide BlockOk, Aligned, Pow2;
    var z' := MergeOnce(z, lo, hi, o);
    forall r: nat | Head(z', r) ensures BlockOk(z', r, n) {
      MergeBlock(z, n, lo, hi, o, r);
    }
  }

  lemma MergeBlock(z: Zone, n: nat, lo: nat, hi: nat, o: nat, r: nat)
    requires Tiled(z, n) && Head(z, lo) && Head(z, hi) && hi == lo + Pow2(o)
    requires z[lo].order == z[hi].order == o && Aligned(lo, o + 1) && Head(MergeOnce(z, lo, hi, o), r)
    ensures BlockOk(MergeOnce(z, lo, hi, o), r, n)
  {
    hide Aligned, Pow2;
    assert BlockOk(z, lo, n) && BlockOk(z, hi, n) && BlockOk(z, r, n);
    Pow2Double(o);
    if r != lo { HeadsApart(z, n, lo, r); HeadsApart(z, n, hi, r); }
  }

  lemma MergeOnceFree(z: Zone, lo: nat, hi: nat, o: nat)
    requires FreeOk(z) && lo < |z| && hi < |z|
    ensures FreeOk(MergeOnce(z, lo, hi, o))
  {
    var z' := MergeOnce(z, lo, hi, o);
    forall r: nat | r < |z'| && z'[r].free ensures Unpaired(z', r) {
      assert Unpaired(z, r);
    }
  }

  lemma MergeOnceAllocated(z: Zone, p: nat, lo: nat, hi: nat, o: nat)
    requires lo < |z| && hi < |z| && lo != hi && Head(z, lo) && Head(z, hi) && (p == lo || p == hi)
    requires !z[p].free && z[if p == lo then hi else lo].free
    ensures Allocated(MergeOnce(z, lo, hi, o)) == (Allocated(z) - {p})[lo := Block(o + 1, z[lo].reference)]
    ensures RefsOk(z, p) && z[p].reference == 0 ==> z[lo].reference == 0 && RefsOk(MergeOnce(z, lo, hi, o), lo)
    ensures OrdersOk(z, p) ==> OrdersOk(MergeOnce(z, lo, hi, o), lo)
  {
  }

  lemma MergeOnceOk(z: Zone, p: nat, o: nat)
    requires ZoneOk(z) && Head(z, p) && !z[p].free && z[p].order == o
    requires Buddy(p, o) < |z| && z[Buddy(p, o)].free && z[Buddy(p, o)].order == o
    ensures var b := Buddy(p, o); var lo, hi := And(b, p), Or(b, p);
            && lo < |z| && hi < |z| && hi == lo + Pow2(o) && lo == Base(p, o + 1)
            && ((lo == p && hi == b) || (lo == b && hi == p))
            && ZoneOk(MergeOnce(z, lo, hi, o))
            && Allocated(MergeOnce(z, lo, hi, o)) == (Allocated(z) - {p})[lo := Block(o + 1, z[lo].reference)]
            && (RefsOk(z, p) && z[p].reference == 0 ==> z[lo].reference == 0 && RefsOk(MergeOnce(z, lo, hi, o), lo))
            && (OrdersOk(z, p) ==> OrdersOk(MergeOnce(z, lo, hi, o), lo))
  {
    assert BlockOk(z, p, |z|);
    BuddyHalves(p, o);
    var lo, hi := And(Buddy(p, o), p), Or(Buddy(p, o), p);
    MergeOnceTiled(z, |z|, lo, hi, o);
    MergeOnceFree(z, lo, hi, o);
    MergeOnceAllocated(z, p, lo, hi, o);
  }

  function SetFree(z: Zone, p: nat, free: bool): Zone
    requires p < |z|
  {
    z[p := z[p].(free := free)]
  }

  lemma SetFreeTiled(z: Zone, n: nat, p: nat, free: bool)
    requires Tiled(z, n) && p < |z|
    ensures Tiled(SetFree(z, p, free), n)
  {
    var z' := SetFree(z, p, free);
    forall r: nat | Head(z', r) ensures BlockOk(z', r, n) { assert BlockOk(z, r, n); }
  }

  /** Marking an allocated block free keeps the zone in order when no free buddy of its order is left. */
  lemma ReleaseOk(z: Zone, p: nat)
    requires ZoneOk(z) && Head(z, p) && !z[p].free && z[p].order <= MAX_ORDER && Unpaired(z, p)
    ensures ZoneOk(SetFree(z, p, true)) && Allocated(SetFree(z, p, true)) == Allocated(z) - {p}
  {
    var z' := SetFree(z, p, true);
    SetFreeTiled(z, |z|, p, true);
    forall r: nat | r < |z'| && z'[r].free ensures Unpaired(z', r) {
      assert Unpaired(z, p) && Unpaired(z, r);
      BuddyIsMutual(z, |z|, r);
    }
  }

  lemma TakeOk(z: Zone, p: nat)
    requires ZoneOk(z) && p < |z| && z[p].free
    ensures ZoneOk(SetFree(z, p, false))
    ensures 0 <= z[p].order <= MAX_ORDER && p !in Allocated(z)
    ensures Allocated(SetFree(z, p, false)) == Allocated(z)[p := Block(z[p].order, z[p].reference)]
    ensures RefsOk(z, p) ==> RefsOk(SetFree(z, p, false), p)
    ensures OrdersOk(z, -1) ==> OrdersOk(SetFree(z, p, false), p) && OrdersOk(SetFree(z, p, false), -1)
  {
    var z' := SetFree(z, p, false);
    SetFreeTiled(z, |z|, p, false);
    forall r: nat | r < |z'| && z'[r].free ensures Unpaired(z', r) {
      assert Unpaired(z, r);
    }
  }

  /** Creation appends one free block after the first i pages; all earlier blocks are larger, or of top order. */
  function Append(z: Zone, i: nat, o: nat): Zone
    requires i < |z|
  {
    z[i := z[i].(order := o, free := true)]
  }

  ghost predicate Prefix(z: Zone, i: nat, o: nat) {
    && Tiled(z, i) && FreeOk(z) && Aligned(i, o)
    && (forall p :: 0 <= p < |z| ==> (z[p].order >= 0 <==> z[p].free))
    && (forall p :: i <= p < |z| ==> z[p].order == INVALID_ORDER)
    && (forall p :: 0 <= p < |z| && z[p].free ==> z[p].order > o || o == MAX_ORDER)
  }

  lemma AppendBlock(z: Zone, i: nat, o: nat, r: nat)
    requires Tiled(z, i) && i + Pow2(o) <= |z| && Aligned(i, o)
      && (forall p :: i <= p < |z| ==> z[p].order == INVALID_ORDER)
    requires Head(Append(z, i, o), r)
    ensures BlockOk(Append(z, i, o), r, i + Pow2(o))
  {
    hide Aligned;
    if r != i {
      assert Head(z, r) && BlockOk(z, r, i);
    }
  }

  lemma AppendTiled(z: Zone, i: nat, o: nat)
    requires o <= MAX_ORDER && i + Pow2(o) <= |z| && Prefix(z, i, o)
    ensures Tiled(Append(z, i, o), i + Pow2(o))
  {
    hide BlockOk, FreeOk, Aligned, Pow2;
    var z' := Append(z, i, o);
    forall r: nat | Head(z', r) ensures BlockOk(z', r, i + Pow2(o)) {
      AppendBlock(z, i, o, r);
    }
  }

  lemma AppendFree(z: Zone, i: nat, o: nat)
    requires o <= MAX_ORDER && i + Pow2(o) <= |z| && Prefix(z, i, o)
    ensures FreeOk(Append(z, i, o))
  {
    var z' := Append(z, i, o);
    forall r: nat | r < |z'| && z'[r].free ensures Unpaired(z', r) {
      if r == i { BuddyHalves(i, o); } else { assert Unpaired(z, r); }
    }
  }

  /** Creation has laid out i pages in free blocks of order `last` or more; `left` pages remain. */
  ghost predicate Creating(z: Zone, i: nat, left: nat, last: nat) {
    && i + left == |z| && last <= MAX_ORDER && (last == MAX_ORDER || left < Pow2(last))
    && Tiled(z, i) && FreeOk(z) && Aligned(i, last) && OrdersOk(z, -1)
    && (forall p :: 0 <= p < |z| ==> (z[p].order >= 0 <==> z[p].free) && z[p].reference == 0)
    && (forall p :: i <= p < |z| ==> z[p].order == INVALID_ORDER)
    && (forall p :: 0 <= p < |z| && z[p].free ==> z[p].order >= last)
  }

  lemma NextOrder(left: nat, last: nat, fls: nat)
    requires last <= MAX_ORDER && (last == MAX_ORDER || left < Pow2(last)) && Pow2(fls) <= left < Pow2(fls + 1)
    ensures var o := if fls > MAX_ORDER then MAX_ORDER else fls;
      Pow2(o) <= left && o <= last && (o == MAX_ORDER || (o < last && left - Pow2(o) < Pow2(o)))
  {
    var o := if fls > MAX_ORDER then MAX_ORDER else fls;
    Pow2Monotone(o, fls);
    if last < MAX_ORDER && o >= last { Pow2Monotone(last, fls); }
  }

  lemma CreateStep(z: Zone, i: nat, left: nat, last: nat, fls: nat)
    requires Creating(z, i, left, last) && Pow2(fls) <= left < Pow2(fls + 1)
    ensures var o := if fls > MAX_ORDER then MAX_ORDER else fls;
            Pow2(o) <= left && i < |z| && !z[i].free && Creating(Append(z, i, o), i + Pow2(o), left - Pow2(o), o)
  {
    hide Tiled, FreeOk, Aligned, Pow2;
    var o := if fls > MAX_ORDER then MAX_ORDER else fls;
    NextOrder(left, last, fls);
    AlignedDownTo(i, o, last);
    AlignedStep(i, o);
    assert Prefix(z, i, o);
    AppendTiled(z, i, o);
    AppendFree(z, i, o);
  }

  // ----- the sum of allocated block sizes -----

  ghost function UsedPages(b: Blocks, n: nat): nat {
    if n == 0 then 0
    else UsedPages(b, n - 1) + (if n - 1 in b then Pow2(b[n - 1].order) else 0)
  }

  lemma {:induction false} UsedPagesUpdate(b: Blocks, n: nat, p: nat, v: Block)
    requires p < n
    ensures UsedPages(b[p := v], n) == UsedPages(b - {p}, n) + Pow2(v.order)
    ensures p in b ==> UsedPages(b, n) == UsedPages(b - {p}, n) + Pow2(b[p].order)
  {
    if n - 1 == p {
      UsedPagesLocal(b[p := v], b - {p}, n - 1);
      UsedPagesLocal(b, b - {p}, n - 1);
    } else {
      UsedPagesUpdate(b, n - 1, p, v);
    }
  }

  lemma {:induction false} UsedPagesLocal(b: Blocks, c: Blocks, n: nat)
    requires forall q: nat :: q < n ==> (q in b <==> q in c) && (q in b ==> b[q].order == c[q].order)
    ensures UsedPages(b, n) == UsedPages(c, n)
  {
    if n > 0 { UsedPagesLocal(b, c, n - 1); }
  }
}
