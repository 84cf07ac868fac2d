/** The page cache over the buddy system: every span is backed by a block of its own. */
module PageLayer {
  import opened Bits
  import BuddyZone
  import Buddy
  import opened PageCache

  /** Each span lies within the allocated block it was taken as, which nobody else has a reference to. */
  ghost predicate Backed(spans: Spans, blocks: BuddyZone.Blocks) {
    forall b :: b in spans ==> b in blocks && blocks[b].refs == 1 && spans[b] <= Pow2(blocks[b].order)
  }

  /** A block just allocated is apart from every span. */
  lemma NewBlockApart(s: Buddy.BuddySystem, spans: Spans, before: BuddyZone.Blocks, p: nat, count: nat)
    requires s.Valid() && p !in before && 0 < count <= NX_PAGE_CACHE_MAX_PAGES
    requires Backed(spans, before) && s.Blocks() == before[p := BuddyZone.Block(RequestOrder(count), 1)]
    ensures p + count <= s.pages.Length && Apart(spans, p, count)
  {
    var z := s.pages[..];
    assert p in s.Blocks() && count <= Pow2(RequestOrder(count));
    assert BuddyZone.BlockOk(z, p, |z|);
    forall c | c in spans ensures c + spans[c] <= p || p + count <= c {
      assert c in s.Blocks() && c != p;
      BuddyZone.HeadsApart(z, |z|, p, c);
    }
  }

  lemma BackedGrows(spans: Spans, blocks: BuddyZone.Blocks, p: nat, count: nat)
    requires Backed(spans, blocks) && p !in blocks && 0 < count <= NX_PAGE_CACHE_MAX_PAGES
    ensures var b := BuddyZone.Block(RequestOrder(count), 1); Backed(spans[p := count], blocks[p := b])
    ensures p !in spans
  {
  }

  /** NX_PageCacheAlloc with the buddy system behind it. */
  method Alloc(c: Cache, s: Buddy.BuddySystem, count: nat) returns (r: Option<nat>)
    requires c.Valid() && s.Valid() && c.marks.Length == s.pages.Length && Backed(c.spans, s.Blocks())
    modifies c, c.marks, c.lists, c.freeCount, s, s.pages
    ensures c.Valid() && s.Valid() && Backed(c.spans, s.Blocks())
    ensures r.None? ==> c.spans == old(c.spans) && s.Blocks() == old(s.Blocks())
    ensures r.Some? ==> c.InUse(r.value) && !old(c.InUse(r.value))
    ensures r.Some? && count < SMALL_SPAN_PAGES_MAX ==> c.spans[r.value] == count
    ensures r.Some? ==> 0 < count <= NX_PAGE_CACHE_MAX_PAGES
    ensures r.Some? && old(c.lists[Slot(count)]) != [] ==> c.spans == old(c.spans) && s.Blocks() == old(s.Blocks())
    ensures r.Some? && old(c.lists[Slot(count)]) == [] ==>
      && c.spans == old(c.spans)[r.value := count]
      && r.value !in old(s.Blocks())
      && s.Blocks() == old(s.Blocks())[r.value := BuddyZone.Block(RequestOrder(count), 1)]
      && BuddyZone.BestFitRun(old(s.Blocks()), s.pages.Length, r.value, RequestOrder(count))
    ensures forall b: nat :: r != Some(b) ==> (c.InUse(b) <==> old(c.InUse(b)))
    ensures 0 < count <= NX_PAGE_CACHE_MAX_PAGES ==>
      (r.None? <==>
        && old(c.lists[Slot(count)]) == []
        && !BuddyZone.HasRun(old(s.Blocks()), s.pages.Length, RequestOrder(count)))
  {
    hide Apart, Backed, MarksExact, Listed, Headed, Using;
    hide BuddyZone.ZoneOk, BuddyZone.OrdersOk, BuddyZone.RefsOk, BuddyZone.UsedPages, BuddyZone.HasRun, Buddy.ListsOk;
    hide BuddyZone.Allocated, BuddyZone.BestFitRun, RequestOrder;
    ListLengths(c.lists[..], c.freeCount[..], c.spans);
    var granted: Option<nat> := None;
    if 0 < count <= NX_PAGE_CACHE_MAX_PAGES && c.lists[Slot(count)] == [] {
      var ptr, overrun := s.AllocPage(count);
      if ptr.Some? {
        var p: nat := s.PageOf(ptr.value);
        NewBlockApart(s, c.spans, old(s.Blocks()), p, count);
        BackedGrows(c.spans, old(s.Blocks()), p, count);
        granted := Some(p);
      }
    }
    r := c.Alloc(count, granted);
  }

  /** NX_PageCacheFree with the buddy system behind it: a span past the threshold goes back as its block, whether it
      was in use or not. */
  method Free(c: Cache, s: Buddy.BuddySystem, page: int) returns (err: Error, merged: bool)
    requires c.Valid() && s.Valid() && c.marks.Length == s.pages.Length && Backed(c.spans, s.Blocks())
    requires page < c.marks.Length
    modifies c, c.marks, c.lists, c.freeCount, s, s.pages
    ensures err == Inval <==> page < 0
    ensures err == Ok ==> old(c.marks[page].idx) <= page
    ensures c.Valid() <==> err != Ok || old(c.InUse(page - c.marks[page].idx))
    ensures merged ==> s.Valid() && Backed(c.spans, s.Blocks())
    ensures merged ==> s.Blocks() == old(s.Blocks()) - (old(c.spans).Keys - c.spans.Keys)
    ensures !merged <==> exists b: nat ::
      b in old(c.spans) && b !in c.spans && Buddy.Overruns(old(s.Blocks()), s.pages.Length, b)
  {
    hide MarksExact, Listed, Headed, Apart;
    hide BuddyZone.ZoneOk, BuddyZone.OrdersOk, BuddyZone.UsedPages, Buddy.ListsOk, Buddy.Overruns;
    var back: Option<nat>;
    err, back := c.Free(page);
    merged := true;
    if back.Some? {
      s.BlockHead(back.value);
      var freed := s.FreePage(s.PtrOf(back.value));
      merged := freed.Ok?;
    }
  }
}
