/** Small objects over the page cache over the buddy system: where every object comes from in the end. */
module HeapLayer {
  import opened Bits
  import BuddyZone
  import Buddy
  import opened HeapSizes
  import opened HeapCache
  import opened PageCache
  import opened PageLayer

  /** The heap's page cache stands on the zone: its spans are backed by blocks of it. */
  ghost predicate Stacked(h: Heap, s: Buddy.BuddySystem)
    reads h, h.sizes, h.spanCache, h.spanCache.marks, h.spanCache.lists, h.spanCache.freeCount, s, s.pages
  {
    && h.Valid() && s.Valid() && h.spanCache.marks.Length == s.pages.Length
    && Backed(h.spanCache.spans, s.Blocks())
  }

  /** The object lies, with the size asked for, within an allocated block, past a slab's header. */
  ghost predicate InBlock(blocks: BuddyZone.Blocks, a: nat, size: nat) {
    exists p :: p in blocks && p * PAGE + HEADER <= a && a + size <= (p + Pow2(blocks[p].order)) * PAGE
  }

  /** Live objects lie within allocated blocks and never overlap. */
  lemma LiveObjectsInBlocks(h: Heap, s: Buddy.BuddySystem, x: nat, y: nat)
    requires Stacked(h, s) && x in h.live && y in h.live
    ensures InBlock(s.Blocks(), x, h.live[x])
    ensures x != y ==> x + h.live[x] <= y || y + h.live[y] <= x
  {
    hide Indexed, Safe, MarksExact, Listed, Headed, Using, Buddy.BuddySystem.Valid;
    ListLengths(h.spanCache.lists[..], h.spanCache.freeCount[..], h.spanCache.spans);
    HeldApart(h.spanCache.marks[..], h.spanCache.lists[..], h.spanCache.spans, h.systems);
    SlabOfLive(h.systems, h.live, x);
    var b :| b in h.systems && b * PAGE + HEADER <= x && x + h.live[x] <= (b + h.systems[b].pages) * PAGE;
    SlabInBlock(h.systems, h.spanCache.lists[..], h.spanCache.spans, s.Blocks(), b);
    if x != y {
      LiveObjectsDisjoint(h.systems, h.live, x, y);
    }
  }

  lemma SlabOfLive(systems: Systems, live: Live, x: nat)
    requires Safe(systems, live) && x in live
    ensures exists b :: b in systems && b * PAGE + HEADER <= x && x + live[x] <= (b + systems[b].pages) * PAGE
  {
    assert Owned(systems, x);
    var b :| b in systems && IsObject(systems[b], x);
    ObjectPages(b, systems[b], x);
    assert Shared(systems[b], live);
  }

  lemma SlabInBlock(systems: Systems, lists: seq<seq<nat>>, spans: Spans, blocks: BuddyZone.Blocks, b: nat)
    requires |lists| == SMALL_SPAN_PAGES_MAX + 1 && Held(systems, lists, spans) && Backed(spans, blocks) && b in systems
    ensures b in blocks && (b + systems[b].pages) * PAGE <= (b + Pow2(blocks[b].order)) * PAGE
  {
  }

  /** No aligned run of the order a slab's pages come to is unallocated. */
  ghost predicate NoRun(s: Buddy.BuddySystem, pageCount: nat)
    reads s.pages
  {
    0 < pageCount <= NX_PAGE_CACHE_MAX_PAGES ==> !BuddyZone.HasRun(s.Blocks(), s.pages.Length, RequestOrder(pageCount))
  }

  /** One block more, of the order the request comes to, with one reference. */
  ghost predicate NewBlock(before: BuddyZone.Blocks, after: BuddyZone.Blocks, p: nat, pageCount: nat) {
    && 0 < pageCount <= NX_PAGE_CACHE_MAX_PAGES && p !in before
    && after == before[p := BuddyZone.Block(RequestOrder(pageCount), 1)]
  }

  /** No slab of class i has a free object. */
  ghost predicate Full(h: Heap, i: nat)
    reads h
  {
    |h.lists| == MAX_SIZE_CLASS_NR && i < MAX_SIZE_CLASS_NR && h.AllTaken(i)
  }

  /** The spans cached in the list for a slab of that many pages. */
  ghost function Cached(h: Heap, pageCount: nat): seq<nat>
    reads h.spanCache.lists
  {
    if Slot(pageCount) < h.spanCache.lists.Length then h.spanCache.lists[Slot(pageCount)] else []
  }

  /** One of them has fewer pages than that. */
  ghost predicate ShortCached(h: Heap, pageCount: nat)
    reads h.spanCache, h.spanCache.lists
  {
    exists b :: b in Cached(h, pageCount) && b in h.spanCache.spans && h.spanCache.spans[b] < pageCount
  }

  lemma PageCountInRange(size: nat)
    requires 0 < size <= MAX_SMALL_OBJECT_SIZE
    ensures 0 < AlignUp(size) <= MAX_SMALL_OBJECT_SIZE && 0 < SizeToPageCount(AlignUp(size)) <= NX_PAGE_CACHE_MAX_PAGES
  {
    Aligned16(size);
  }

  /** The pages for a slab, asked of the buddy system as __PageCacheAlloc does: when no span is cached. */
  method TakePages(h: Heap, s: Buddy.BuddySystem, pageCount: nat) returns (granted: Option<nat>)
    requires Stacked(h, s) && 0 < pageCount <= NX_PAGE_CACHE_MAX_PAGES
    modifies s, s.pages
    ensures s.Valid()
    ensures granted.None? <==> old(NoRun(s, pageCount))
    ensures granted.None? ==> s.Blocks() == old(s.Blocks())
    ensures granted.Some? ==>
      && granted.value + pageCount <= h.spanCache.marks.Length
      && Apart(h.spanCache.spans, granted.value, pageCount)
      && NewBlock(old(s.Blocks()), s.Blocks(), granted.value, pageCount)
      && Backed(h.spanCache.spans[granted.value := pageCount], s.Blocks())
  {
    assert s.pageStart % Buddy.PAGE_SIZE == 0;
    hide Heap.Valid, Apart, Backed, Buddy.BuddySystem.Valid, BuddyZone.BestFitRun, BuddyZone.HasRun, RequestOrder;
    var ptr, overrun := s.AllocPage(pageCount);
    if ptr.None? {
      return None;
    }
    var p: nat := s.PageOf(ptr.value);
    NewBlockApart(s, h.spanCache.spans, old(s.Blocks()), p, pageCount);
    BackedGrows(h.spanCache.spans, old(s.Blocks()), p, pageCount);
    return Some(p);
  }

  lemma TablesOf(h: Heap)
    requires h.Valid()
    ensures forall slot, b :: 0 <= slot < h.spanCache.lists.Length && b in h.spanCache.lists[slot] ==>
      b in h.spanCache.spans
    ensures h.TableOk() && |h.lists| == MAX_SIZE_CLASS_NR && h.spanCache.lists.Length == SMALL_SPAN_PAGES_MAX + 1
  {
  }

  /** NX_HeapAlloc for a small object, down to the buddy system. */
  method Alloc(h: Heap, s: Buddy.BuddySystem, size: nat) returns (r: HeapResult)
    requires Stacked(h, s) && size <= MAX_SMALL_OBJECT_SIZE
    modifies h`systems, h`lists, h`counts, h`sizeClass, h`live
    modifies h.spanCache, h.spanCache.marks, h.spanCache.lists, h.spanCache.freeCount, s, s.pages
    ensures Stacked(h, s)
    ensures r.Object? ==> r.a !in old(h.live) && h.live == old(h.live)[r.a := size]
    ensures !r.Object? ==> h.live == old(h.live)
    ensures size == 0 ==> r == NoMemory && s.Blocks() == old(s.Blocks())
    ensures size > 0 && r.Object? ==> forall i: nat :: IsClassOf(i, AlignUp(size)) ==> h.OfClass(i, r.a)
    ensures size > 0 ==> forall i: nat :: IsClassOf(i, AlignUp(size)) ==>
      var pageCount := SizeToPageCount(AlignUp(size));
      var asked := old(Full(h, i)) && old(Cached(h, pageCount)) == [];
      && (r == NoMemory <==> asked && old(NoRun(s, pageCount)))
      && (r == SpanTooShort <==> old(Full(h, i)) && old(ShortCached(h, pageCount)))
      && (if asked && r != NoMemory then exists p: nat :: NewBlock(old(s.Blocks()), s.Blocks(), p, pageCount)
          else s.Blocks() == old(s.Blocks()))
  {
    hide Heap.Valid, Backed, Apart, NewBlock, NoRun, Buddy.BuddySystem.Valid, RequestOrder;
    hide SizeToPageCount, ClassSize, AlignUp;
    if size == 0 {
      r := h.Alloc(size, None);
      return;
    }
    TablesOf(h);
    PageCountInRange(size);
    var aligned := AlignUp(size);
    var pageCount := SizeToPageCount(aligned);
    var i := SizeToCache(h.sizes, aligned);
    forall j: nat | IsClassOf(j, aligned) ensures j == i {
      SameIndex(i, j, aligned);
    }
    var system := h.GetFreeSmallCacheSystem(i);
    var granted: Option<nat> := None;
    if system.None? && h.spanCache.lists[Slot(pageCount)] == [] {
      granted := TakePages(h, s, pageCount);
    }
    r := h.Alloc(size, granted);
  }

  /** NX_HeapFree for a live small object or none, down to the buddy system; `merged` is false when the block given
      back would merge past the largest order. */
  method Free(h: Heap, s: Buddy.BuddySystem, ptr: Option<nat>) returns (err: Error, merged: bool)
    requires Stacked(h, s) && (ptr.Some? ==> ptr.value in h.live)
    modifies h`systems, h`lists, h`counts, h`sizeClass, h`live
    modifies h.spanCache, h.spanCache.marks, h.spanCache.lists, h.spanCache.freeCount, s, s.pages
    ensures merged ==> Stacked(h, s)
    ensures err == if ptr.None? then Inval else Ok
    ensures h.live == if ptr.None? then old(h.live) else old(h.live) - {ptr.value}
    ensures merged ==> s.Blocks() == old(s.Blocks()) - (old(h.spanCache.spans).Keys - h.spanCache.spans.Keys)
    ensures !merged <==> exists b: nat ::
      && b in old(h.spanCache.spans) && b !in h.spanCache.spans
      && Buddy.Overruns(old(s.Blocks()), s.pages.Length, b)
  {
    hide Heap.Valid, Buddy.BuddySystem.Valid, Buddy.Overruns;
    var back: Option<nat>;
    err, back := h.Free(ptr);
    merged := true;
    if back.Some? {
      s.BlockHead(back.value);
      var freed := s.FreePage(s.PtrOf(back.value));
      merged := freed.Ok?;
    }
  }
}
