/** The buddy page allocator: bitmap-guided best fit over free lists, splitting, merging with the
    XOR buddy, and reference counts, on a page map that is updated in place. */
module Buddy {
  import opened Bits
  import opened BuddyZone

  const PAGE_SIZE := 4096
  const MAX_REQUEST: nat := 0x10_0000 // pages of the largest block, 2^MAX_ORDER

  datatype Option<T> = None | Some(value: T)

  /** Results of a free. ListOverrun stands for indexing the free lists one past their end. */
  datatype FreeResult = Ok | Again | DoubleFree | Invalid | ListOverrun

  function AlignUp(x: nat): (r: nat)
    ensures x <= r < x + PAGE_SIZE && r % PAGE_SIZE == 0
  {
    (x + (PAGE_SIZE - 1)) / PAGE_SIZE * PAGE_SIZE
  }

  /** Where a zone's pages start, how many there are, and how many whole pages the bookkeeping takes. */
  datatype Layout = Layout(start: nat, pageCount: nat, overhead: nat)

  /** The memory holds the system record, the array of page records and at least one page. */
  predicate Fits(mem: nat, size: nat, recordSize: nat, pageRecordSize: nat) {
    && 0 < recordSize <= size && mem + size < 0x4000_0000_0000_0000
    && AlignUp(mem + recordSize + AlignUp((size - recordSize) / PAGE_SIZE * pageRecordSize)) + PAGE_SIZE <= mem + size
  }

  /** The first page boundary behind the record and a map of whole pages that has a record for every page of the
      memory left by the system record. */
  ghost predicate StartsBehindMap(mem: nat, size: nat, recordSize: nat, pageRecordSize: nat, start: nat)
    requires recordSize <= size
  {
    var mapSize := (size - recordSize) / PAGE_SIZE * pageRecordSize;
    exists mapBytes: nat ::
      && mapBytes % PAGE_SIZE == 0 && mapSize <= mapBytes < mapSize + PAGE_SIZE
      && start % PAGE_SIZE == 0 && mem + recordSize + mapBytes <= start < mem + recordSize + mapBytes + PAGE_SIZE
  }

  function ComputeLayout(mem: nat, size: nat, recordSize: nat, pageRecordSize: nat): (l: Layout)
    requires Fits(mem, size, recordSize, pageRecordSize)
    ensures l.start % PAGE_SIZE == 0 && mem < l.start && 0 < l.pageCount < 0x4000_0000_0000_0000
    ensures l.start + l.pageCount * PAGE_SIZE <= mem + size
    ensures mem + recordSize + l.pageCount * pageRecordSize <= l.start
    ensures l.overhead == (l.start - mem) / PAGE_SIZE
    ensures mem + size < l.start + (l.pageCount + 1) * PAGE_SIZE
    ensures StartsBehindMap(mem, size, recordSize, pageRecordSize, l.start)
  {
    var mapPages := (size - recordSize) / PAGE_SIZE;
    var start := AlignUp(mem + recordSize + AlignUp(mapPages * pageRecordSize));
    var left := mem + size - start;
    MultiplyMonotone(left / PAGE_SIZE, mapPages, pageRecordSize);
    Layout(start, left / PAGE_SIZE, (size - left) / PAGE_SIZE)
  }

  // ----- free lists -----

  function Without(s: seq<nat>, x: nat): (r: seq<nat>)
    ensures |r| <= |s|
  {
    if s == [] then [] else if s[0] == x then s[1..] else [s[0]] + Without(s[1..], x)
  }

  ghost predicate NoDuplicates(s: seq<nat>) {
    forall i, j :: 0 <= i < j < |s| ==> s[i] != s[j]
  }

  lemma {:induction false} WithoutIsRemoval(s: seq<nat>, x: nat)
    requires NoDuplicates(s) && x in s
    ensures |Without(s, x)| == |s| - 1 && NoDuplicates(Without(s, x))
    ensures forall y :: y in Without(s, x) <==> y in s && y != x
  {
    if s[0] != x {
      WithoutIsRemoval(s[1..], x);
      assert s[0] !in s[1..];
      var w := Without(s[1..], x);
      assert forall j :: 0 <= j < |w| ==> w[j] in w && w[j] != s[0];
      assert forall y :: y in s <==> y == s[0] || y in s[1..];
    } else {
      assert forall y :: y in s <==> y == s[0] || y in s[1..];
    }
  }

  /** BuddyFfsSizet of the bitmap masked to the bits from `from` up; MAX_ORDER + 1 when none is set. */
  function FirstSetFrom(bitmap: set<nat>, from: nat): (r: nat)
    requires from <= MAX_ORDER + 1
    ensures from <= r <= MAX_ORDER + 1 && (r <= MAX_ORDER ==> r in bitmap)
    ensures forall o :: o in bitmap && from <= o <= MAX_ORDER ==> r <= o
    decreases MAX_ORDER + 1 - from
  {
    if from > MAX_ORDER || from in bitmap then from else FirstSetFrom(bitmap, from + 1)
  }

  /** List o holds exactly the free heads of order o; the counters and the bitmap agree with the lists. */
  ghost predicate ListsOk(z: Zone, lists: seq<seq<nat>>, count: seq<nat>, bitmap: set<nat>) {
    && |lists| == |count| == MAX_ORDER + 1
    && (forall o :: 0 <= o <= MAX_ORDER ==>
          ListOk(z, lists[o], o) && count[o] == |lists[o]| && (o in bitmap <==> lists[o] != []))
    && (forall o :: o in bitmap ==> o <= MAX_ORDER)
  }

  ghost predicate ListOk(z: Zone, list: seq<nat>, o: nat) {
    && NoDuplicates(list)
    && forall p: nat :: p in list <==> p < |z| && z[p].free && z[p].order == o
  }

  /** Freeing block p would climb past the top order: the enclosing 2^(MAX+1) run exists and is otherwise unused. */
  ghost predicate Overruns(b: Blocks, n: nat, p: nat) {
    UnusedRun(b - {p}, n, Base(p, MAX_ORDER + 1), MAX_ORDER + 1)
  }

  lemma SmallZonesNeverOverrun(b: Blocks, n: nat, p: nat)
    requires n < Pow2(MAX_ORDER + 1)
    ensures !Overruns(b, n, p)
  {
  }

  lemma BuddyApart(p: nat, o: nat)
    ensures Aligned(p, o) ==> Bits.Buddy(p, o) != p
  {
    if Aligned(p, o) { BuddyHalves(p, o); }
  }

  lemma OwnBlockOnly(z: Zone, p: nat)
    requires ZoneOk(z) && Head(z, p) && !z[p].free
    ensures UnusedRun(Allocated(z) - {p}, |z|, p, z[p].order)
  {
    var b := Allocated(z) - {p};
    assert BlockOk(z, p, |z|);
    forall q: nat | p <= q < End(z, p) ensures !InUse(b, q) {
      if InUse(b, q) {
        var r: nat :| InBlock(b, r, q);
        HeadsApart(z, |z|, p, r);
      }
    }
  }

  /** While the enclosing top run is otherwise unused, the merge loop finds a buddy to absorb. */
  lemma MergeCannotStop(z: Zone, p: nat)
    requires ZoneOk(z) && Head(z, p) && !z[p].free && z[p].order <= MAX_ORDER
    requires Overruns(Allocated(z), |z|, p)
    ensures var b := Bits.Buddy(p, z[p].order); b < |z| && z[b].free && z[b].order == z[p].order
  {
    var o := z[p].order;
    var b := Bits.Buddy(p, o);
    var top := Base(p, MAX_ORDER + 1);
    assert BlockOk(z, p, |z|);
    BuddyHalves(p, o);
    var lo := Base(p, o + 1);
    BaseIsAligned(p, o + 1);
    BaseIsAligned(p, MAX_ORDER + 1);
    Nested(lo, o + 1, top, MAX_ORDER + 1);
    BuddyRunUnused(z, p, b, top);
    UnusedBuddyIsFree(z, p, b);
  }

  lemma UnusedBuddyIsFree(z: Zone, p: nat, b: nat)
    requires ZoneOk(z) && Head(z, p) && !z[p].free && z[p].order <= MAX_ORDER && Aligned(p, z[p].order)
    requires b == Bits.Buddy(p, z[p].order) && UnusedRun(Allocated(z), |z|, b, z[p].order)
    ensures b < |z| && z[b].free && z[b].order == z[p].order
  {
    hide Aligned, Base, And, Or, Bits.Buddy, Allocated, UnusedRun, Unpaired, Pow2;
    var o := z[p].order;
    BuddyHalves(p, o);
    BaseIsAligned(p, o + 1);
    Pow2Double(o);
    var f := RunInsideFreeBlock(z, b, o);
    HeadsApart(z, |z|, p, f);
    if z[f].order > o {
      Nested(Base(p, o + 1), o + 1, f, z[f].order);
    } else {
      Nested(f, o, b, o);
    }
  }

  lemma BuddyRunUnused(z: Zone, p: nat, b: nat, top: nat)
    requires ZoneOk(z) && Head(z, p) && !z[p].free
    requires UnusedRun(Allocated(z) - {p}, |z|, top, MAX_ORDER + 1)
    requires top <= b && b + Pow2(z[p].order) <= top + Pow2(MAX_ORDER + 1)
    requires b == p + Pow2(z[p].order) || p == b + Pow2(z[p].order)
    ensures UnusedRun(Allocated(z), |z|, b, z[p].order)
  {
    forall q: nat | b <= q < b + Pow2(z[p].order) ensures !InUse(Allocated(z), q) {
      if InUse(Allocated(z), q) {
        var r: nat :| InBlock(Allocated(z), r, q);
        assert InBlock(Allocated(z) - {p}, r, q);
        assert InUse(Allocated(z) - {p}, q);
      }
    }
  }

  // ----- the merge loop, on values -----

  /** Where PageMerge stands: the block freed as (page) has grown to (pfn, order), nothing else is lost. */
  ghost predicate Merging(z: Zone, b0: BuddyZone.Blocks, page: nat, pfn: nat, order: nat) {
    && pfn < |z| && z[pfn] == Page(order, false, 0) && order <= MAX_ORDER + 1
    && pfn == Base(page, order)
    && ZoneOk(z) && RefsOk(z, pfn) && OrdersOk(z, pfn)
    && pfn !in b0 - {page} && Allocated(z) == (b0 - {page})[pfn := Block(order, 0)]
  }

  ghost predicate CanMerge(z: Zone, pfn: nat, order: nat) {
    var b := Bits.Buddy(pfn, order);
    b < |z| && z[b].order == order && z[b].free
  }

  lemma MergeStart(z: Zone, page: nat)
    requires page < |z| && ZoneOk(z) && RefsOk(z, page) && OrdersOk(z, page)
    requires 0 <= z[page].order <= MAX_ORDER && !z[page].free && z[page].reference == 0
    ensures Merging(z, Allocated(z), page, page, z[page].order)
  {
    assert BlockOk(z, page, |z|);
    BaseOfAligned(page, z[page].order);
    var b0 := Allocated(z);
    assert b0 == (b0 - {page})[page := Block(z[page].order, 0)];
  }

  lemma MergeNext(z: Zone, b0: BuddyZone.Blocks, page: nat, pfn: nat, order: nat)
    requires Merging(z, b0, page, pfn, order) && order <= MAX_ORDER && CanMerge(z, pfn, order)
    ensures var b := Bits.Buddy(pfn, order); var lo, hi := And(b, pfn), Or(b, pfn);
            && lo < |z| && hi < |z| && ((lo == pfn && hi == b) || (lo == b && hi == pfn)) && pfn != b
            && Merging(MergeOnce(z, lo, hi, order), b0, page, lo, order + 1)
  {
    hide Pow2, And, Or;
    var b := Bits.Buddy(pfn, order);
    var lo, hi := And(b, pfn), Or(b, pfn);
    MergeOnceOk(z, pfn, order);
    BaseOfBase(page, order, order + 1);
    assert b !in Allocated(z);
    assert (Allocated(z) - {pfn})[lo := Block(order + 1, 0)] == (b0 - {page})[lo := Block(order + 1, 0)];
  }

  /** The loop can go on for as long as the run around the freed block is otherwise unused. */
  lemma MergeStop(z: Zone, b0: BuddyZone.Blocks, page: nat, pfn: nat, order: nat)
    requires Merging(z, b0, page, pfn, order)
    ensures pfn < |z| && z[pfn] == Page(order, false, 0) && Aligned(pfn, order)
    ensures order <= MAX_ORDER && Overruns(b0, |z|, page) ==> CanMerge(z, pfn, order)
    ensures order == MAX_ORDER + 1 ==> Overruns(b0, |z|, page)
    ensures CanMerge(z, pfn, order) <==> var b := Bits.Buddy(pfn, order); b < |z| && z[b].order == order && z[b].free
    ensures !CanMerge(z, pfn, order) ==> Unpaired(z, pfn)
  {
    assert Allocated(z) - {pfn} == b0 - {page};
    assert BlockOk(z, pfn, |z|);
    BaseOfBase(page, order, MAX_ORDER + 1);
    if order <= MAX_ORDER {
      if Overruns(b0, |z|, page) { MergeCannotStop(z, pfn); }
    } else {
      OwnBlockOnly(z, pfn);
    }
  }

  class BuddySystem {
    const pages: array<Page>
    const pageStart: nat
    const overhead: nat          // usedPage right after creation
    var pageBuddy: seq<seq<nat>> // free lists, by order
    var count: seq<nat>
    var bitmap: set<nat>         // the set bits
    var usedPage: int

    ghost predicate Valid()
      reads this, pages
    {
      ValidBut(-1)
    }

    /** All is well but for the reference counter of page `skip`. */
    ghost predicate ValidBut(skip: int)
      reads this, pages
    {
      && pageStart > 0 && pageStart % PAGE_SIZE == 0
      && ZoneOk(pages[..])
      && OrdersOk(pages[..], -1)
      && RefsOk(pages[..], skip)
      && ListsOk(pages[..], pageBuddy, count, bitmap)
      && usedPage == overhead + UsedPages(Blocks(), pages.Length)
    }

    ghost function Blocks(): BuddyZone.Blocks
      reads pages
    {
      Allocated(pages[..])
    }

    /** The free lists, as the set of blocks they hold. */
    ghost function FreeSet(): set<(nat, nat)>
      reads this
    {
      set o: nat, p: nat | o < |pageBuddy| && p in pageBuddy[o] :: (p, o)
    }

    /** The free set is canonical: it is determined by the allocated blocks alone. */
    lemma FreeSetIsCanonical()
      requires Valid()
      ensures forall p: nat, o: nat :: (p, o) in FreeSet() <==> MaximalRun(Blocks(), pages.Length, p, o)
    {
      forall p: nat, o: nat
        ensures (p, o) in FreeSet() <==> MaximalRun(Blocks(), pages.Length, p, o)
      {
        FreeBlocksAreMaximalRuns(pages[..], p, o);
        if o <= MAX_ORDER { assert ListOk(pages[..], pageBuddy[o], o); }
      }
    }

    lemma BlockHead(p: nat)
      requires Valid() && p in Blocks()
      ensures p < pages.Length && !pages[p].free && pages[p].reference == Blocks()[p].refs > 0
      ensures InZone(PtrOf(p)) && PtrOf(p) % PAGE_SIZE == 0 && PtrOf(p) <= PtrOf(pages.Length - 1)
        && PageOf(PtrOf(p)) == p
    {
    }

    predicate InZone(ptr: int) {
      pageStart <= ptr < pageStart + pages.Length * PAGE_SIZE
    }

    function PageOf(ptr: int): (p: int)
      requires pageStart % PAGE_SIZE == 0
      ensures InZone(ptr) ==> 0 <= p < pages.Length
    {
      (ptr - pageStart) / PAGE_SIZE
    }

    function PtrOf(p: int): int {
      pageStart + p * PAGE_SIZE
    }

    // ----- free-list updates -----

    method AddPage(page: nat)
      requires page < pages.Length && 0 <= pages[page].order <= MAX_ORDER && !pages[page].free
      requires ListsOk(pages[..], pageBuddy, count, bitmap)
      modifies this`pageBuddy, this`count, this`bitmap, pages
      ensures pages[..] == old(SetFree(pages[..], page, true))
      ensures ListsOk(pages[..], pageBuddy, count, bitmap)
      ensures pageBuddy == old(pageBuddy[pages[page].order := pageBuddy[pages[page].order] + [page]])
    {
      var order := pages[page].order;
      assert ListOk(pages[..], pageBuddy[order], order);
      assert forall o :: 0 <= o <= MAX_ORDER ==> ListOk(pages[..], pageBuddy[o], o);
      ghost var z, list := pages[..], pageBuddy[order];
      pages[page] := pages[page].(free := true);
      pageBuddy := pageBuddy[order := pageBuddy[order] + [page]];
      bitmap := bitmap + {order};
      count := count[order := count[order] + 1];
      forall o | 0 <= o <= MAX_ORDER
        ensures ListOk(pages[..], pageBuddy[o], o) && count[o] == |pageBuddy[o]|
          && (o in bitmap <==> pageBuddy[o] != [])
      {
        assert ListOk(z, old(pageBuddy)[o], o);
      }
    }

    method DelPage(page: nat)
      requires page < pages.Length && 0 <= pages[page].order <= MAX_ORDER && pages[page].free
      requires ListsOk(pages[..], pageBuddy, count, bitmap)
      modifies this`pageBuddy, this`count, this`bitmap, pages
      ensures pages[..] == old(SetFree(pages[..], page, false))
      ensures ListsOk(pages[..], pageBuddy, count, bitmap)
      ensures pageBuddy == old(pageBuddy[pages[page].order := Without(pageBuddy[pages[page].order], page)])
    {
      var order := pages[page].order;
      ghost var z := pages[..];
      assert ListOk(z, pageBuddy[order], order);
      WithoutIsRemoval(pageBuddy[order], page);
      pageBuddy := pageBuddy[order := Without(pageBuddy[order], page)];
      pages[page] := pages[page].(free := false);
      if pageBuddy[order] == [] {
        bitmap := bitmap - {order};
      }
      count := count[order := count[order] - 1];
      forall o | 0 <= o <= MAX_ORDER
        ensures ListOk(pages[..], pageBuddy[o], o) && count[o] == |pageBuddy[o]|
          && (o in bitmap <==> pageBuddy[o] != [])
      {
        assert ListOk(z, old(pageBuddy)[o], o);
      }
    }

    // ----- search, split, merge -----

    /** Best fit: the newest block of the smallest order that is large enough. */
    method LocateFree(order: nat) returns (r: Option<nat>)
      requires order <= MAX_ORDER && OrdersOk(pages[..], -1) && ListsOk(pages[..], pageBuddy, count, bitmap)
      ensures r.None? ==> forall p: nat :: p < pages.Length && pages[p].free ==> pages[p].order < order
      ensures r.Some? ==>
        var p := r.value;
        && p < pages.Length && pages[p].free && order <= pages[p].order <= MAX_ORDER
        && (forall q: nat :: q < pages.Length && pages[q].free && pages[q].order >= order ==>
              pages[p].order <= pages[q].order)
        && pageBuddy[pages[p].order] != [] && pageBuddy[pages[p].order][|pageBuddy[pages[p].order]| - 1] == p
    {
      var found := order;
      assert (pageBuddy[order] == []) == (count[order] == 0);
      if pageBuddy[order] == [] {
        found := FirstSetFrom(bitmap, order);
        if found > MAX_ORDER {
          forall p: nat | p < pages.Length && pages[p].free ensures pages[p].order < order {
            FreeBlockIsListed(pages[..], pageBuddy, count, bitmap, p);
          }
          return None;
        }
      }
      var p := pageBuddy[found][|pageBuddy[found]| - 1];
      assert ListOk(pages[..], pageBuddy[found], found) && p in pageBuddy[found];
      forall q: nat | q < pages.Length && pages[q].free && pages[q].order >= order ensures found <= pages[q].order {
        FreeBlockIsListed(pages[..], pageBuddy, count, bitmap, q);
      }
      return Some(p);
    }

    method PageSplit(page: nat, order: nat)
      requires ZoneOk(pages[..]) && Head(pages[..], page) && !pages[page].free
      requires order <= pages[page].order <= MAX_ORDER
      requires RefsOk(pages[..], page) && OrdersOk(pages[..], page) && ListsOk(pages[..], pageBuddy, count, bitmap)
      modifies this`pageBuddy, this`count, this`bitmap, pages
      ensures ZoneOk(pages[..]) && RefsOk(pages[..], page) && ListsOk(pages[..], pageBuddy, count, bitmap)
      ensures pages[page] == old(pages[page]).(order := order)
      ensures Blocks() == old(Blocks()[page := Block(order, pages[page].reference)])
      ensures OrdersOk(pages[..], -1)
    {
      hide Pow2, ListsOk, Tiled, FreeOk;
      var i := pages[page].order;
      ghost var top, b0, refs := i, Blocks(), pages[page].reference;
      ghost var z := pages[..];
      assert b0 == b0[page := Block(i, refs)];
      while i > order
        invariant order <= i <= top <= MAX_ORDER
        invariant z == pages[..][page := pages[page].(order := i)] && pages[page] == old(pages[page])
        invariant ZoneOk(z) && RefsOk(z, page) && Allocated(z) == b0[page := Block(i, refs)]
        invariant ListsOk(pages[..], pageBuddy, count, bitmap)
        invariant OrdersOk(z, page)
      {
        var lower := i - 1;
        SplitOnceOk(z, page, lower);
        var buddy := page + Pow2(lower);
        ghost var before := pages[..];
        pages[buddy] := pages[buddy].(order := lower);
        ListsIgnoreUsed(before, pages[..], pageBuddy, count, bitmap);
        AddPage(buddy);
        z := SplitOnce(z, page, lower);
        i := lower;
      }
      ghost var before := pages[..];
      pages[page] := pages[page].(order := order);
      ListsIgnoreUsed(before, pages[..], pageBuddy, count, bitmap);
      assert pages[..] == z;
    }

    /** Absorbs free buddies of growing order; the result heads the merged, still unlisted block. */
    method PageMerge(page: nat) returns (head: nat)
      requires page < pages.Length && ZoneOk(pages[..]) && 0 <= pages[page].order <= MAX_ORDER
      requires !pages[page].free && pages[page].reference == 0
      requires RefsOk(pages[..], page) && OrdersOk(pages[..], page) && ListsOk(pages[..], pageBuddy, count, bitmap)
      modifies this`pageBuddy, this`count, this`bitmap, pages
      ensures head < pages.Length && pages[head].order >= 0
      ensures Merging(pages[..], old(Blocks()), page, head, pages[head].order)
      ensures ListsOk(pages[..], pageBuddy, count, bitmap)
      ensures pages[head].order <= MAX_ORDER ==> Unpaired(pages[..], head)
      ensures pages[head].order == MAX_ORDER + 1 <==> Overruns(old(Blocks()), pages.Length, page)
    {
      hide Merging, ListsOk, CanMerge, ZoneOk, RefsOk, OrdersOk, Overruns, Allocated, Unpaired, Aligned, Pow2;
      var order: nat := pages[page].order;
      var pfn: nat := page;
      ghost var z, b0 := pages[..], Blocks();
      MergeStart(z, page);
      while order <= MAX_ORDER
        invariant pfn < pages.Length && 0 <= order <= MAX_ORDER + 1 && Merging(z, b0, page, pfn, order)
        invariant z == pages[..][pfn := pages[pfn].(order := order)]
        invariant ListsOk(pages[..], pageBuddy, count, bitmap)
        decreases MAX_ORDER + 1 - order
      {
        var buddy := Bits.Buddy(pfn, order);
        MergeStop(z, b0, page, pfn, order);
        BuddyApart(pfn, order);
        if buddy >= pages.Length || pages[buddy].order != order || !pages[buddy].free {
          break;
        }
        MergeNext(z, b0, page, pfn, order);
        DelPage(buddy);
        ghost var deleted := pages[..];
        var private, combined := Or(buddy, pfn), And(buddy, pfn);
        z := MergeOnce(z, combined, private, order);
        pages[private] := pages[private].(order := INVALID_ORDER);
        ListsIgnoreUsed(deleted, pages[..], pageBuddy, count, bitmap);
        pfn := combined;
        order := order + 1;
      }
      MergeStop(z, b0, page, pfn, order);
      ghost var before := pages[..];
      pages[pfn] := pages[pfn].(order := order);
      assert pages[..] == z;
      ListsIgnoreUsed(before, pages[..], pageBuddy, count, bitmap);
      head := pfn;
    }

    // ----- the allocator's interface -----

    /** Lays out the zone in [mem, mem + size), all of it free. */
    constructor (mem: nat, size: nat, recordSize: nat, pageRecordSize: nat)
      requires mem > 0 && Fits(mem, size, recordSize, pageRecordSize)
      ensures Valid() && fresh(pages) && Blocks() == map[]
      ensures pages.Length > 0 && mem < pageStart && pageStart + pages.Length * PAGE_SIZE <= mem + size
      ensures mem + recordSize + pages.Length * pageRecordSize <= pageStart
      ensures overhead == (pageStart - mem) / PAGE_SIZE
      ensures mem + size < pageStart + (pages.Length + 1) * PAGE_SIZE
      ensures StartsBehindMap(mem, size, recordSize, pageRecordSize, pageStart)
    {
      var layout := ComputeLayout(mem, size, recordSize, pageRecordSize);
      pageStart := layout.start;
      overhead := layout.overhead;
      usedPage := layout.overhead;
      pageBuddy := seq(MAX_ORDER + 1, o => []);
      count := seq(MAX_ORDER + 1, o => 0);
      bitmap := {};
      pages := new Page[layout.pageCount](i => Page(INVALID_ORDER, false, 0));
      new;
      ZeroAligned(MAX_ORDER);
      assert ListsOk(pages[..], pageBuddy, count, bitmap) by {
        forall o | 0 <= o <= MAX_ORDER ensures ListOk(pages[..], pageBuddy[o], o) { }
      }
      FillFreeLists();
      UsedNone(pages.Length);
    }

    /** Cuts the zone from the left into the largest blocks that still fit. */
    method FillFreeLists()
      requires Creating(pages[..], 0, pages.Length, MAX_ORDER) && pages.Length < 0x4000_0000_0000_0000
      requires ListsOk(pages[..], pageBuddy, count, bitmap)
      modifies this`pageBuddy, this`count, this`bitmap, pages
      ensures ZoneOk(pages[..]) && RefsOk(pages[..], -1) && OrdersOk(pages[..], -1) && Blocks() == map[]
      ensures ListsOk(pages[..], pageBuddy, count, bitmap)
    {
      hide ListsOk, Creating, ZoneOk, RefsOk, OrdersOk, Pow2, Allocated;
      var i: nat, left: nat := 0, pages.Length;
      ghost var last: nat := MAX_ORDER;
      while left != 0
        invariant Creating(pages[..], i, left, last) && last <= MAX_ORDER && i + left == pages.Length
        invariant ListsOk(pages[..], pageBuddy, count, bitmap)
      {
        var order: nat := BuddyFls(left);
        CreateStep(pages[..], i, left, last, order);
        if order > MAX_ORDER {
          order := MAX_ORDER;
        }
        ghost var z := pages[..];
        pages[i] := pages[i].(order := order);
        ListsIgnoreUsed(z, pages[..], pageBuddy, count, bitmap);
        AddPage(i);
        assert pages[..] == Append(z, i, order);
        last := order;
        i, left := i + Pow2(order), left - Pow2(order);
      }
      CreateDone(pages[..], i, left, last);
    }

    /** A block for `count` pages, or None exactly when no aligned run of that order is unallocated; `overrun` when
        the order has no list, and the code looks past the end of its lists. */
    method AllocPage(count: nat) returns (r: Option<int>, overrun: bool)
      requires Valid() && count < 0x4000_0000_0000_0000
      modifies this`pageBuddy, this`count, this`bitmap, this`usedPage, pages
      ensures Valid()
      ensures overrun <==> count > MAX_REQUEST
      ensures count == 0 || overrun ==> r.None?
      ensures r.None? ==> Blocks() == old(Blocks())
      ensures 0 < count <= MAX_REQUEST ==>
        (r.None? <==> !HasRun(old(Blocks()), pages.Length, RequestOrder(count)))
      ensures r.Some? ==> count > 0 && InZone(r.value) && r.value == PtrOf(PageOf(r.value))
      ensures r.Some? ==> var p: nat, k := PageOf(r.value), RequestOrder(count);
        && p !in old(Blocks()) && Blocks() == old(Blocks())[p := Block(k, 1)]
        && BestFitRun(old(Blocks()), pages.Length, p, k)
    {
      if count == 0 {
        return None, false;
      }
      hide BestFitRun, HasRun, ListsOk, ZoneOk, RefsOk, OrdersOk, UsedPages, Pow2, RequestOrder, Allocated;
      var order := RequestOrder(count);
      RequestWithinLists(count);
      if order > MAX_ORDER {
        return None, true;
      }
      ghost var b0 := Blocks();
      NoFreeBlockNoRun(pages[..], order);
      var found := LocateFree(order);
      if found.None? {
        return None, false;
      }
      BestFit(pages[..], found.value, order);
      assert PageOf(PtrOf(found.value)) == found.value && InZone(PtrOf(found.value));
      var ptr := PrepareUsed(found.value, order);
      return Some(ptr), false;
    }

    /** Unlists a free block, cuts it down to the order and hands it out with one reference, whatever its counter
        said before. */
    method PrepareUsed(page: nat, order: nat) returns (ptr: int)
      requires ValidBut(page) && page < pages.Length && pages[page].free && order <= pages[page].order
      modifies this`pageBuddy, this`count, this`bitmap, this`usedPage, pages
      ensures Valid() && ptr == PtrOf(page)
      ensures page !in old(Blocks()) && Blocks() == old(Blocks())[page := Block(order, 1)]
    {
      hide ListsOk, ZoneOk, RefsOk, OrdersOk, UsedPages, Allocated;
      ghost var b0, refs := Blocks(), pages[page].reference;
      TakeOk(pages[..], page);
      DelPage(page);
      assert Blocks()[page := Block(order, refs)] == b0[page := Block(order, refs)];
      if pages[page].order > order {
        PageSplit(page, order);
      }
      assert Blocks() == b0[page := Block(order, refs)];
      ghost var before := pages[..];
      pages[page] := pages[page].(reference := 1);
      SetReferenceOk(before, page, 1);
      assert pages[..] == SetReference(before, page, 1);
      ListsIgnoreUsed(before, pages[..], pageBuddy, count, bitmap);
      assert Blocks() == b0[page := Block(order, 1)];
      UsedPagesUpdate(b0, pages.Length, page, Block(order, 1));
      assert b0 - {page} == b0;
      usedPage := usedPage + Pow2(order);
      ptr := PtrOf(page);
    }

    /** Adds a reference. On a page that heads no allocated block only that page's counter is off: on the head of a
        free block until PrepareUsed sets it again; on a page within a block it lets the page pass for a counted
        block of its own, of no order, with FreePage. */
    method IncreasePage(ptr: int) returns (ok: bool)
      requires Valid() && (InZone(ptr) ==> ptr % PAGE_SIZE == 0)
      modifies pages
      ensures ok <==> InZone(ptr)
      ensures !ok ==> Valid() && Blocks() == old(Blocks())
      ensures ok ==> ValidBut(PageOf(ptr)) && (Valid() <==> PageOf(ptr) in old(Blocks()))
      ensures ok && Valid() ==> var p: nat := PageOf(ptr); var b := old(Blocks());
        Blocks() == b[p := b[p].(refs := b[p].refs + 1)]
      ensures ok && !Valid() ==> Blocks() == old(Blocks()) && FreeSet() == old(FreeSet())
      ensures ok && !Valid() ==> var page := pages[PageOf(ptr)];
        !page.free ==> page.order == INVALID_ORDER && page.reference > 0
    {
      hide ListsOk, ZoneOk, OrdersOk, RefsOk, UsedPages, Allocated;
      if !InZone(ptr) {
        return false;
      }
      var page := PageOf(ptr);
      ghost var z := pages[..];
      CountMore(z, page);
      pages[page] := pages[page].(reference := pages[page].reference + 1);
      assert pages[..] == SetReference(z, page, z[page].reference + 1);
      ListsIgnoreUsed(z, pages[..], pageBuddy, count, bitmap);
      return true;
    }

    /** Drops a reference; the last one returns the block, which merges with its free buddies. The caller's
        duty is the code's own assertions: a page address, of a free block or of a counted one. */
    method FreePage(ptr: int) returns (r: FreeResult)
      requires Valid()
      requires pageStart <= ptr <= PtrOf(pages.Length - 1) ==>
        ptr % PAGE_SIZE == 0 && (pages[PageOf(ptr)].free || pages[PageOf(ptr)].reference > 0)
      modifies this`pageBuddy, this`count, this`bitmap, this`usedPage, pages
      ensures r.Invalid? <==> !(pageStart <= ptr <= PtrOf(pages.Length - 1))
      ensures !r.Invalid? ==> InZone(ptr)
      ensures !r.Invalid? ==> (r.DoubleFree? <==> PageOf(ptr) !in old(Blocks()))
      ensures r.Invalid? || r.DoubleFree? ==> Valid() && Blocks() == old(Blocks())
      ensures r.Again? || r.Ok? || r.ListOverrun? ==> var p: nat := PageOf(ptr); var b := old(Blocks());
        && p in b
        && (r.Again? <==> b[p].refs > 1)
        && (r.Again? ==> Valid() && Blocks() == b[p := b[p].(refs := b[p].refs - 1)])
        && (r.Ok? ==> Valid() && Blocks() == b - {p})
        && (b[p].refs == 1 ==> (r.ListOverrun? <==> Overruns(b, pages.Length, p)))
    {
      hide ListsOk, ZoneOk, OrdersOk, RefsOk, UsedPages, Allocated, Overruns, Pow2;
      if ptr < pageStart || ptr > PtrOf(pages.Length - 1) {
        return Invalid;
      }
      var page: nat := PageOf(ptr);
      CountedPage(pages[..], page);
      if pages[page].free {
        return DoubleFree;
      }
      ghost var z, b0 := pages[..], Blocks();
      pages[page] := pages[page].(reference := pages[page].reference - 1);
      ListsIgnoreUsed(z, pages[..], pageBuddy, count, bitmap);
      SetReferenceOk(z, page, z[page].reference - 1);
      assert pages[..] == SetReference(z, page, z[page].reference - 1);
      if pages[page].reference > 0 {
        UsedPagesLocal(b0, Blocks(), pages.Length);
        return Again;
      }
      UsedPagesUpdate(b0, pages.Length, page, b0[page]);
      usedPage := usedPage - Pow2(pages[page].order);
      assert Blocks() - {page} == b0 - {page};
      OverrunsOfOthers(b0, Blocks(), pages.Length, page);
      var merged := Release(page);
      r := if merged then Ok else ListOverrun;
    }

    /** Merges an unreferenced block and lists the result; false when the result has no list. */
    method Release(page: nat) returns (listed: bool)
      requires page < pages.Length && ZoneOk(pages[..]) && 0 <= pages[page].order
      requires !pages[page].free && pages[page].reference == 0
      requires RefsOk(pages[..], page) && OrdersOk(pages[..], -1) && ListsOk(pages[..], pageBuddy, count, bitmap)
      modifies this`pageBuddy, this`count, this`bitmap, pages
      ensures listed <==> !Overruns(old(Blocks()), pages.Length, page)
      ensures listed ==> ZoneOk(pages[..]) && RefsOk(pages[..], -1) && OrdersOk(pages[..], -1)
      ensures listed ==> ListsOk(pages[..], pageBuddy, count, bitmap) && Blocks() == old(Blocks()) - {page}
    {
      ghost var b0 := Blocks();
      var head := PageMerge(page);
      if pages[head].order > MAX_ORDER {
        return false;
      }
      ReleaseOk(pages[..], head);
      AddPage(head);
      assert Blocks() == b0 - {page};
      return true;
    }
  }

  lemma SmallRequest(count: nat, k: nat)
    requires count <= MAX_REQUEST && (k > 0 ==> Pow2(k - 1) < count)
    ensures k <= MAX_ORDER
  {
    PowersOfTwo();
    if k > MAX_ORDER { Pow2Monotone(MAX_ORDER, k - 1); }
  }

  lemma SameBlocksSameFreeSet(s: BuddySystem, t: BuddySystem)
    requires s.Valid() && t.Valid() && s.pages.Length == t.pages.Length && s.Blocks() == t.Blocks()
    ensures s.FreeSet() == t.FreeSet()
  {
    s.FreeSetIsCanonical();
    t.FreeSetIsCanonical();
  }

  /** Frees a block as often as it is referenced. */
  method FreeFully(s: BuddySystem, p: nat) returns (ok: bool)
    requires s.Valid() && p in s.Blocks()
    modifies s`pageBuddy, s`count, s`bitmap, s`usedPage, s.pages
    ensures ok <==> !Overruns(old(s.Blocks()), s.pages.Length, p)
    ensures ok ==> s.Valid() && s.Blocks() == old(s.Blocks()) - {p}
  {
    assert s.pageStart % PAGE_SIZE == 0;
    hide BuddySystem.Valid, Overruns;
    ghost var b0 := s.Blocks();
    s.BlockHead(p);
    var refs := s.pages[p].reference;
    while refs > 1
      invariant s.Valid() && p in s.Blocks() && s.Blocks()[p].refs == refs >= 1
      invariant s.Blocks() - {p} == b0 - {p}
    {
      s.BlockHead(p);
      var r := s.FreePage(s.PtrOf(p));
      refs := refs - 1;
    }
    s.BlockHead(p);
    OverrunsOfOthers(b0, s.Blocks(), s.pages.Length, p);
    var r := s.FreePage(s.PtrOf(p));
    ok := r.Ok?;
  }

  lemma OverrunsOfOthers(b: Blocks, b': Blocks, n: nat, p: nat)
    requires b' - {p} == b - {p}
    ensures Overruns(b', n, p) <==> Overruns(b, n, p)
  {
  }

  /** The blocks left when the first i of `order` have been freed. */
  ghost function Rest(b: Blocks, order: seq<nat>, i: nat): Blocks
    requires i <= |order|
  {
    b - (set p | p in order[..i])
  }

  /** Freeing every allocated block, in whatever order, goes through exactly if none overruns the lists when its
      turn comes, and then brings back the free set the zone was created with. */
  method FreeEverything(s: BuddySystem, order: seq<nat>) returns (ok: bool)
    requires s.Valid() && NoDuplicates(order) && forall p: nat :: p in order <==> p in s.Blocks()
    modifies s`pageBuddy, s`count, s`bitmap, s`usedPage, s.pages
    ensures ok <==> forall i :: 0 <= i < |order| ==>
      !Overruns(old(Rest(s.Blocks(), order, i)), s.pages.Length, order[i])
    ensures ok ==> s.Valid() && s.Blocks() == map[]
    ensures ok ==> forall p: nat, o: nat :: (p, o) in s.FreeSet() <==> MaximalRun(map[], s.pages.Length, p, o)
  {
    hide BuddySystem.Valid, Overruns;
    ghost var b0 := s.Blocks();
    for i := 0 to |order|
      invariant s.Valid() && s.Blocks() == Rest(b0, order, i)
      invariant forall j :: 0 <= j < i ==> !Overruns(Rest(b0, order, j), s.pages.Length, order[j])
    {
      RestStep(b0, order, i);
      ok := FreeFully(s, order[i]);
      if !ok {
        return;
      }
    }
    assert s.Blocks() == map[];
    s.FreeSetIsCanonical();
    return true;
  }

  lemma RestStep(b: Blocks, order: seq<nat>, i: nat)
    requires i < |order| && NoDuplicates(order) && order[i] in b
    ensures order[i] in Rest(b, order, i) && Rest(b, order, i + 1) == Rest(b, order, i) - {order[i]}
  {
    assert order[..i + 1] == order[..i] + [order[i]];
  }

  /** Requests beyond the largest block are exactly the ones that would index the free lists past their end. */
  lemma RequestWithinLists(count: nat)
    requires 0 < count < 0x4000_0000_0000_0000
    ensures RequestOrder(count) <= MAX_ORDER <==> count <= MAX_REQUEST
  {
    PowersOfTwo();
    var k := RequestOrder(count);
    if k <= MAX_ORDER { Pow2Monotone(k, MAX_ORDER); }
    if count <= MAX_REQUEST { SmallRequest(count, k); }
  }

  lemma LargestRequest()
    ensures RequestOrder(MAX_REQUEST) == MAX_ORDER
  {
    var k := RequestOrder(MAX_REQUEST);
    SmallRequest(MAX_REQUEST, k);
    PowersOfTwo();
    if k < MAX_ORDER { Pow2Monotone(k, MAX_ORDER - 1); }
  }

  /** In a zone of 2^(MAX+1) pages, freeing one of two top blocks while the other is free leaves the free lists. */
  method OverrunRun(s: BuddySystem) returns (r: FreeResult)
    requires s.Valid() && s.Blocks() == map[] && s.pages.Length == Pow2(MAX_ORDER + 1)
    modifies s`pageBuddy, s`count, s`bitmap, s`usedPage, s.pages
    ensures r == ListOverrun
  {
    assert s.pageStart % PAGE_SIZE == 0;
    hide BuddySystem.Valid;
    PowersOfTwo();
    ZeroAligned(MAX_ORDER);
    LargestRequest();
    assert UnusedRun(s.Blocks(), s.pages.Length, 0, MAX_ORDER);
    var a, overrun := s.AllocPage(MAX_REQUEST);
    var p: nat := s.PageOf(a.value);
    BaseIsAligned(p, MAX_ORDER + 1);
    BaseOfSmall(p, MAX_ORDER + 1);
    assert s.Blocks() - {p} == map[];
    assert Overruns(s.Blocks(), s.pages.Length, p);
    s.BlockHead(p);
    r := s.FreePage(a.value);
  }

  lemma CreateDone(z: Zone, i: nat, left: nat, last: nat)
    requires Creating(z, i, left, last) && left == 0
    ensures ZoneOk(z) && RefsOk(z, -1) && OrdersOk(z, -1) && Allocated(z) == map[]
  {
  }

  lemma MultiplyMonotone(a: nat, b: nat, c: nat)
    requires a <= b
    ensures a * c <= b * c
  {
  }

  lemma {:induction false} UsedNone(n: nat)
    ensures UsedPages(map[], n) == 0
  {
    if n > 0 { UsedNone(n - 1); }
  }

  function SetReference(z: Zone, p: nat, r: int): Zone
    requires p < |z|
  {
    z[p := z[p].(reference := r)]
  }

  lemma SetReferenceOk(z: Zone, p: nat, r: int)
    requires ZoneOk(z) && p < |z|
    ensures ZoneOk(SetReference(z, p, r)) && (OrdersOk(z, -1) ==> OrdersOk(SetReference(z, p, r), -1))
    ensures Head(z, p) && !z[p].free ==> Allocated(SetReference(z, p, r)) == Allocated(z)[p := Block(z[p].order, r)]
    ensures !(Head(z, p) && !z[p].free) ==> Allocated(SetReference(z, p, r)) == Allocated(z)
    ensures Head(z, p) && !z[p].free && r > 0 && RefsOk(z, p) ==> RefsOk(SetReference(z, p, r), -1)
    ensures RefsOk(z, -1) ==> RefsOk(SetReference(z, p, r), p) && RefsOk(z, p)
  {
    SetReferenceTiled(z, p, r);
    var z' := SetReference(z, p, r);
    forall q: nat | q < |z'| && z'[q].free ensures Unpaired(z', q) { assert Unpaired(z, q); }
  }

  /** What one more reference on a page does to the zone. */
  lemma CountMore(z: Zone, p: nat)
    requires ZoneOk(z) && OrdersOk(z, -1) && RefsOk(z, -1) && p < |z|
    ensures var z', b := SetReference(z, p, z[p].reference + 1), Allocated(z);
      && ZoneOk(z') && OrdersOk(z', -1) && RefsOk(z', p) && (RefsOk(z', -1) <==> p in b)
      && Allocated(z') == (if p in b then b[p := b[p].(refs := b[p].refs + 1)] else b)
      && UsedPages(Allocated(z'), |z|) == UsedPages(b, |z|)
      && (p !in b && !z[p].free ==> z'[p].order == INVALID_ORDER && z'[p].reference > 0)
  {
    hide UsedPages, FreeOk, BlockOk;
    var z', b := SetReference(z, p, z[p].reference + 1), Allocated(z);
    SetReferenceOk(z, p, z[p].reference + 1);
    UsedPagesLocal(Allocated(z'), b, |z|);
    assert z'[p].reference > 0;
  }

  lemma CountedPage(z: Zone, p: nat)
    requires ZoneOk(z) && RefsOk(z, -1) && p < |z| && (z[p].free || z[p].reference > 0)
    ensures z[p].free <==> p !in Allocated(z)
    ensures !z[p].free ==> Head(z, p) && Allocated(z)[p] == Block(z[p].order, z[p].reference)
  {
  }

  lemma SetReferenceTiled(z: Zone, p: nat, r: int)
    requires Tiled(z, |z|) && p < |z|
    ensures Tiled(SetReference(z, p, r), |z|)
  {
    var z' := SetReference(z, p, r);
    forall q: nat | Head(z', q) ensures BlockOk(z', q, |z|) { assert BlockOk(z, q, |z|); }
  }

  lemma BestFit(z: Zone, p: nat, k: nat)
    requires ZoneOk(z) && p < |z| && z[p].free && k <= z[p].order
    requires forall q: nat :: q < |z| && z[q].free && z[q].order >= k ==> z[p].order <= z[q].order
    ensures BestFitRun(Allocated(z), |z|, p, k)
  {
    FreeBlocksAreMaximalRuns(z, p, z[p].order);
    forall h: nat, j: nat | MaximalRun(Allocated(z), |z|, h, j) && k <= j ensures z[p].order <= j {
      FreeBlocksAreMaximalRuns(z, h, j);
    }
  }

  lemma FreeBlockIsListed(z: Zone, lists: seq<seq<nat>>, count: seq<nat>, bitmap: set<nat>, p: nat)
    requires ListsOk(z, lists, count, bitmap) && OrdersOk(z, -1) && p < |z| && z[p].free
    ensures z[p].order >= 0 ==> z[p].order in bitmap && p in lists[z[p].order]
  {
    var o: int := z[p].order;
    if o >= 0 {
      assert ListOk(z, lists[o], o);
      assert p in lists[o];
    }
  }

  /** Lists only see free pages. */
  lemma ListsIgnoreUsed(z: Zone, z': Zone, lists: seq<seq<nat>>, count: seq<nat>, bitmap: set<nat>)
    requires |z| == |z'|
    requires forall p :: 0 <= p < |z| ==> z[p].free == z'[p].free && (z[p].free ==> z[p].order == z'[p].order)
    ensures ListsOk(z, lists, count, bitmap) <==> ListsOk(z', lists, count, bitmap)
  {
    if |lists| == |count| == MAX_ORDER + 1 {
      forall o | 0 <= o <= MAX_ORDER ensures ListOk(z, lists[o], o) <==> ListOk(z', lists[o], o) { }
    }
  }
}
