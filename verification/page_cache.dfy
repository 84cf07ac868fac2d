/** Spans of pages kept between the buddy system and its users, and the marks that lead from a page to its span.
    Pages are counted from the base of the zone. */
module PageCache {

  const SMALL_SPAN_PAGES_MAX: nat := 128
  const NX_PAGE_CACHE_MAX_PAGES: nat := 2048
  const LARGE_SPAN_FREE_THRESHOLD_MAX: nat := 32
  const SMALL_SPAN_FREE_THRESHOLD_MAX: nat := 64
  const ONE_PAGE_SPAN_FREE_THRESHOLD_MAX: nat := 1024

  datatype Option<T> = None | Some(value: T)

  datatype Error = Ok | Inval | Fault

  datatype Mark = Mark(count: nat, idx: nat)

  /** Base and number of pages of every span taken from the buddy system, in use or cached. */
  type Spans = map<nat, nat>

  /** The list a span of `count` pages is cached in: one for each small count, the last for all large ones. */
  function Slot(count: nat): nat {
    if count >= SMALL_SPAN_PAGES_MAX then SMALL_SPAN_PAGES_MAX else count
  }

  /** How many spans a list may hold before further ones are given back. */
  function Threshold(slot: nat): (r: nat)
    ensures r == if slot == 1 then 1024 else if slot < 128 || slot > 128 then 64 else 32
  {
    if slot == SMALL_SPAN_PAGES_MAX then LARGE_SPAN_FREE_THRESHOLD_MAX
    else if slot == 1 then ONE_PAGE_SPAN_FREE_THRESHOLD_MAX
    else SMALL_SPAN_FREE_THRESHOLD_MAX
  }

  predicate Inside(spans: Spans, b: int, p: int) {
    b in spans && b <= p < b + spans[b]
  }

  /** Each page of a span is marked with the span's size and its own place in it, every other page with zeros. */
  ghost predicate MarksExact(marks: seq<Mark>, spans: Spans) {
    && (forall b :: b in spans ==> 0 < spans[b] && b + spans[b] <= |marks|)
    && (forall b, p :: 0 <= p < |marks| && Inside(spans, b, p) ==> marks[p] == Mark(spans[b], p - b))
    && (forall p :: 0 <= p < |marks| && marks[p] != Mark(0, 0) ==>
          marks[p].idx <= p && Inside(spans, p - marks[p].idx, p))
  }

  /** The lists hold cached spans only, each once and where its size belongs, and within their thresholds. */
  ghost predicate Listed(lists: seq<seq<nat>>, freeCount: seq<nat>, spans: Spans) {
    && |lists| == |freeCount| == SMALL_SPAN_PAGES_MAX + 1
    && (forall s :: 0 <= s < |lists| ==> freeCount[s] == |lists[s]| <= Threshold(s))
    && (forall s, i, j :: 0 <= s < |lists| && 0 <= i < j < |lists[s]| ==> lists[s][i] != lists[s][j])
    && (forall s, i :: 0 <= s < |lists| && 0 <= i < |lists[s]| ==>
          lists[s][i] in spans && Slot(spans[lists[s][i]]) == s)
  }

  predicate Headed(lists: seq<seq<nat>>, pageCount: map<nat, nat>, spans: Spans) {
    forall s, i :: 0 <= s < |lists| && 0 <= i < |lists[s]| ==>
      lists[s][i] in spans && lists[s][i] in pageCount && pageCount[lists[s][i]] == spans[lists[s][i]]
  }

  predicate Apart(spans: Spans, b: nat, count: nat) {
    forall c :: c in spans ==> c + spans[c] <= b || b + count <= c
  }

  /** No page is in two spans: its mark leads to one base only. */
  lemma SpansDisjoint(marks: seq<Mark>, spans: Spans, b: nat, c: nat)
    requires MarksExact(marks, spans) && b in spans && c in spans && b < c
    ensures b + spans[b] <= c
  {
    if b + spans[b] > c {
      assert Inside(spans, b, c) && Inside(spans, c, c);
    }
  }

  function MarkedWith(marks: seq<Mark>, b: nat, count: nat): seq<Mark>
    requires b + count <= |marks|
  {
    marks[..b] + seq(count, i requires 0 <= i < count => Mark(count, i)) + marks[b + count..]
  }

  function Cleared(marks: seq<Mark>, b: nat, count: nat): seq<Mark>
    requires b + count <= |marks|
  {
    marks[..b] + seq(count, i => Mark(0, 0)) + marks[b + count..]
  }

  lemma MarkingAddsSpan(marks: seq<Mark>, spans: Spans, b: nat, count: nat)
    requires MarksExact(marks, spans) && 0 < count && b + count <= |marks| && Apart(spans, b, count)
    ensures b !in spans && MarksExact(MarkedWith(marks, b, count), spans[b := count])
  {
    var after, more := MarkedWith(marks, b, count), spans[b := count];
    assert b !in spans;
    forall p | 0 <= p < |after| && after[p] != Mark(0, 0) ensures after[p].idx <= p
      && Inside(more, p - after[p].idx, p) {
      if b <= p < b + count {
        assert after[p] == Mark(count, p - b);
      } else {
        assert after[p] == marks[p];
        assert Inside(spans, p - marks[p].idx, p);
      }
    }
    forall c, p | 0 <= p < |after| && Inside(more, c, p) ensures after[p] == Mark(more[c], p - c) {
      if c != b {
        assert Inside(spans, c, p);
      }
    }
  }

  lemma ClearingRemovesSpan(marks: seq<Mark>, spans: Spans, b: nat)
    requires MarksExact(marks, spans) && b in spans
    ensures MarksExact(Cleared(marks, b, spans[b]), spans - {b})
  {
    var after, fewer := Cleared(marks, b, spans[b]), spans - {b};
    forall p | 0 <= p < |after| && after[p] != Mark(0, 0) ensures after[p].idx <= p
      && Inside(fewer, p - after[p].idx, p) {
      assert after[p] == marks[p];
      assert marks[p].idx <= p && Inside(spans, p - marks[p].idx, p);
      assert !(b <= p < b + spans[b]);
    }
    forall c, p | 0 <= p < |after| && Inside(fewer, c, p) ensures after[p] == Mark(fewer[c], p - c) {
      assert Inside(spans, c, p);
      assert !Inside(spans, b, p);
    }
  }

  predicate Using(lists: seq<seq<nat>>, spans: Spans, b: nat)
    requires |lists| == SMALL_SPAN_PAGES_MAX + 1
  {
    b in spans && b !in lists[Slot(spans[b])]
  }

  lemma TakeFromList(lists: seq<seq<nat>>, freeCount: seq<nat>, spans: Spans, s: nat, i: nat)
    requires Listed(lists, freeCount, spans) && s < |lists| && i < |lists[s]|
    ensures freeCount[s] > 0
    ensures var fewer := lists[s := lists[s][..i] + lists[s][i + 1..]];
      && Listed(fewer, freeCount[s := freeCount[s] - 1], spans)
      && forall b :: Using(fewer, spans, b) <==> Using(lists, spans, b) || b == lists[s][i]
  {
    var rest, b := lists[s][..i] + lists[s][i + 1..], lists[s][i];
    assert forall j :: 0 <= j < |rest| ==> rest[j] == lists[s][if j < i then j else j + 1];
    forall c | c in lists[s] && c != b ensures c in rest {
      var j :| 0 <= j < |lists[s]| && lists[s][j] == c;
      assert rest[if j < i then j else j - 1] == c;
    }
    assert b !in rest;
  }

  lemma PutOnList(lists: seq<seq<nat>>, freeCount: seq<nat>, pageCount: map<nat, nat>, spans: Spans, b: nat)
    requires Listed(lists, freeCount, spans) && Headed(lists, pageCount, spans) && b in spans && 0 < spans[b]
    requires freeCount[Slot(spans[b])] < Threshold(Slot(spans[b]))
    ensures var s := Slot(spans[b]);
      var more, counts := lists[s := [b] + lists[s]], freeCount[s := freeCount[s] + 1];
      && Headed(more, pageCount[b := spans[b]], spans)
      && (Listed(more, counts, spans) <==> Using(lists, spans, b))
      && (Using(lists, spans, b) ==> Freed(lists, spans, more, spans, b))
      && Kept(lists, spans, b) == spans
  {
    var s := Slot(spans[b]);
    HeadWritten(lists, pageCount, spans, b);
    if Using(lists, spans, b) {
      PutUnlisted(lists, freeCount, spans, b);
    } else {
      var j :| 0 <= j < |lists[s]| && lists[s][j] == b;
      var more := lists[s := [b] + lists[s]];
      assert more[s][0] == b && more[s][j + 1] == b;
    }
  }

  lemma PutUnlisted(lists: seq<seq<nat>>, freeCount: seq<nat>, spans: Spans, b: nat)
    requires Listed(lists, freeCount, spans) && Using(lists, spans, b) && 0 < spans[b]
    requires freeCount[Slot(spans[b])] < Threshold(Slot(spans[b]))
    ensures var s := Slot(spans[b]);
      var more := lists[s := [b] + lists[s]];
      && Listed(more, freeCount[s := freeCount[s] + 1], spans)
      && forall c :: Using(more, spans, c) <==> Using(lists, spans, c) && c != b
  {
  }

  lemma DropSpan(lists: seq<seq<nat>>, freeCount: seq<nat>, pageCount: map<nat, nat>, spans: Spans, b: nat)
    requires Listed(lists, freeCount, spans) && Headed(lists, pageCount, spans) && b in spans
    requires freeCount[Slot(spans[b])] >= Threshold(Slot(spans[b]))
    ensures Listed(lists, freeCount, spans - {b}) <==> Using(lists, spans, b)
    ensures Using(lists, spans, b) ==>
      Headed(lists, pageCount, spans - {b}) && Freed(lists, spans, lists, spans - {b}, b)
    ensures Kept(lists, spans, b) == spans - {b} != spans
  {
    if Using(lists, spans, b) {
      DropUnlisted(lists, freeCount, spans, b);
      HeadsKept(lists, pageCount, spans, b);
    } else {
      var s := Slot(spans[b]);
      var j :| 0 <= j < |lists[s]| && lists[s][j] == b;
      assert lists[s][j] !in spans - {b};
    }
    assert b !in spans - {b};
  }

  lemma DropUnlisted(lists: seq<seq<nat>>, freeCount: seq<nat>, spans: Spans, b: nat)
    requires Listed(lists, freeCount, spans) && Using(lists, spans, b)
    ensures Listed(lists, freeCount, spans - {b})
    ensures forall c :: Using(lists, spans - {b}, c) <==> Using(lists, spans, c) && c != b
  {
  }

  lemma AddSpan(lists: seq<seq<nat>>, freeCount: seq<nat>, spans: Spans, b: nat, count: nat)
    requires Listed(lists, freeCount, spans) && b !in spans && 0 < count
    ensures Listed(lists, freeCount, spans[b := count])
    ensures forall c :: Using(lists, spans[b := count], c) <==> Using(lists, spans, c) || c == b
  {
    assert forall s :: 0 <= s < |lists| ==> b !in lists[s];
    forall c ensures Using(lists, spans[b := count], c) <==> Using(lists, spans, c) || c == b {
      assert c == b ==> Slot(count) < |lists|;
    }
  }

  /** After freeing the span at `b`: it is cached while its list is below its threshold, else given back. */
  ghost predicate Freed(lists: seq<seq<nat>>, spans: Spans, lists': seq<seq<nat>>, spans': Spans, b: nat)
    requires |lists| == |lists'| == SMALL_SPAN_PAGES_MAX + 1
  {
    && b in spans
    && (forall c :: Using(lists', spans', c) <==> Using(lists, spans, c) && c != b)
    && spans' == Kept(lists, spans, b)
  }

  /** The spans left when the one at `b` is freed. */
  function Kept(lists: seq<seq<nat>>, spans: Spans, b: nat): Spans
    requires |lists| == SMALL_SPAN_PAGES_MAX + 1
  {
    if b in spans && |lists[Slot(spans[b])]| < Threshold(Slot(spans[b])) then spans else spans - {b}
  }

  lemma ListLengths(lists: seq<seq<nat>>, freeCount: seq<nat>, spans: Spans)
    requires Listed(lists, freeCount, spans)
    ensures |lists| == |freeCount| == SMALL_SPAN_PAGES_MAX + 1
    ensures forall s :: 0 <= s < |lists| ==> freeCount[s] == |lists[s]|
  {
  }

  /** A page is in a span exactly when it is marked, and then its mark tells which. */
  lemma MarkOf(marks: seq<Mark>, spans: Spans, p: nat)
    requires MarksExact(marks, spans) && p < |marks|
    ensures marks[p] == Mark(0, 0) <==> forall b :: !Inside(spans, b, p)
    ensures marks[p] != Mark(0, 0) ==>
      marks[p].idx <= p && Inside(spans, p - marks[p].idx, p) && Inside(spans, p - marks[p].idx, p - marks[p].idx)
      && 0 < spans[p - marks[p].idx] && p - marks[p].idx + spans[p - marks[p].idx] <= |marks|
  {
  }

  lemma HeadsKept(lists: seq<seq<nat>>, pageCount: map<nat, nat>, spans: Spans, b: nat)
    requires |lists| == SMALL_SPAN_PAGES_MAX + 1
    requires Headed(lists, pageCount, spans) && Using(lists, spans, b)
    requires forall s, i :: 0 <= s < |lists| && 0 <= i < |lists[s]| ==> Slot(spans[lists[s][i]]) == s
    ensures Headed(lists, pageCount, spans - {b})
  {
  }

  lemma HeadsTaken(lists: seq<seq<nat>>, pageCount: map<nat, nat>, spans: Spans, s: nat, i: nat)
    requires Headed(lists, pageCount, spans) && s < |lists| && i < |lists[s]|
    ensures Headed(lists[s := lists[s][..i] + lists[s][i + 1..]], pageCount, spans)
    ensures lists[s][i] in spans
    ensures forall j :: 0 <= j < |lists[s]| ==>
      lists[s][j] in spans && lists[s][j] in pageCount && pageCount[lists[s][j]] == spans[lists[s][j]]
  {
    var rest := lists[s][..i] + lists[s][i + 1..];
    assert forall j :: 0 <= j < |rest| ==> rest[j] == lists[s][if j < i then j else j + 1];
  }

  lemma HeadsGrow(lists: seq<seq<nat>>, pageCount: map<nat, nat>, spans: Spans, b: nat, count: nat)
    requires Headed(lists, pageCount, spans) && b !in spans
    ensures Headed(lists, pageCount, spans[b := count])
  {
  }

  lemma HeadWritten(lists: seq<seq<nat>>, pageCount: map<nat, nat>, spans: Spans, b: nat)
    requires |lists| == SMALL_SPAN_PAGES_MAX + 1 && Headed(lists, pageCount, spans) && b in spans
    ensures var s := Slot(spans[b]);
      Headed(lists[s := [b] + lists[s]], pageCount[b := spans[b]], spans)
  {
  }

  class Cache {
    const marks: array<Mark>
    const lists: array<seq<nat>>
    const freeCount: array<nat>
    var pageCount: map<nat, nat> // NX_PageSpan, written at the start of a cached span
    ghost var spans: Spans

    ghost predicate Valid()
      reads this, marks, lists, freeCount
    {
      && MarksExact(marks[..], spans) && Listed(lists[..], freeCount[..], spans)
      && Headed(lists[..], pageCount, spans)
    }

    ghost predicate InUse(b: nat)
      requires lists.Length == SMALL_SPAN_PAGES_MAX + 1
      reads this, lists
    {
      Using(lists[..], spans, b)
    }

    /** NX_PageCacheInit, for a zone of that many pages. */
    constructor (pages: nat)
      ensures Valid() && spans == map[] && marks.Length == pages
      ensures fresh(marks) && fresh(lists) && fresh(freeCount)
      ensures lists.Length == SMALL_SPAN_PAGES_MAX + 1 && forall s :: 0 <= s < lists.Length ==> lists[s] == []
    {
      marks := new Mark[pages](_ => Mark(0, 0));
      lists := new seq<nat>[SMALL_SPAN_PAGES_MAX + 1](_ => []);
      freeCount := new nat[SMALL_SPAN_PAGES_MAX + 1](_ => 0);
      pageCount, spans := map[], map[];
    }

    /** MarkSpan */
    method MarkSpan(span: nat, count: nat)
      requires span + count <= marks.Length
      modifies marks
      ensures marks[..] == MarkedWith(old(marks[..]), span, count)
    {
      var i := 0;
      while i < count
        invariant i <= count
        invariant forall p :: 0 <= p < marks.Length ==>
          marks[p] == if span <= p < span + i then Mark(count, p - span) else old(marks[p])
      {
        marks[span + i] := Mark(count, i);
        i := i + 1;
      }
    }

    /** ClearSpan */
    method ClearSpan(span: nat, count: nat)
      requires span + count <= marks.Length
      modifies marks
      ensures marks[..] == Cleared(old(marks[..]), span, count)
    {
      var i := 0;
      while i < count
        invariant i <= count
        invariant forall p :: 0 <= p < marks.Length ==>
          marks[p] == if span <= p < span + i then Mark(0, 0) else old(marks[p])
      {
        marks[span + i] := Mark(0, 0);
        i := i + 1;
      }
    }

    /** NX_PageToSpan: the base of the span that a page is in; a page of no span is taken for its own base. */
    method PageToSpan(page: int) returns (span: Option<nat>)
      requires Valid() && page < marks.Length
      ensures span.None? <==> page < 0
      ensures forall b :: Inside(spans, b, page) ==> span == Some(b)
      ensures span.Some? && (forall b :: !Inside(spans, b, page)) ==> span == Some(page)
    {
      if page < 0 {
        return None;
      }
      assert marks[..][page] == marks[page];
      return Some(page - marks[page].idx);
    }

    /** NX_SpanToCount: the size of a span, 0 for a page of no span. */
    method SpanToCount(span: int) returns (count: nat)
      requires Valid() && span < marks.Length
      ensures span in spans ==> count == spans[span]
      ensures (forall b :: !Inside(spans, b, span)) ==> count == 0
    {
      if span < 0 {
        return 0;
      }
      assert marks[..][span] == marks[span];
      assert span in spans ==> Inside(spans, span, span);
      return marks[span].count;
    }

    /** __PageCacheAlloc behind the checks of NX_PageCacheAlloc. `granted` is the answer of the buddy system, used
        when nothing is cached: pages outside every span it has given before. */
    method Alloc(count: nat, granted: Option<nat>) returns (r: Option<nat>)
      requires Valid()
      requires granted.Some? ==> granted.value + count <= marks.Length && Apart(spans, granted.value, count)
      modifies this, marks, lists, freeCount
      ensures Valid()
      ensures r.None? ==> spans == old(spans)
      ensures r.None? || old(lists[Slot(count)]) == [] ==> lists[..] == old(lists[..])
      ensures r.None? <==>
        (count == 0 || count > NX_PAGE_CACHE_MAX_PAGES || (granted.None? && old(lists[Slot(count)]) == []))
      ensures r.Some? ==> if old(lists[Slot(count)]) == [] then r == granted else r.value in old(lists[Slot(count)])
      ensures r.Some? ==> InUse(r.value) && !old(InUse(r.value))
      ensures r.Some? ==> spans == (if old(lists[Slot(count)]) == [] then old(spans)[r.value := count] else old(spans))
      ensures r.Some? ==> forall b :: b != r.value ==> (InUse(b) <==> old(InUse(b)))
      ensures r.Some? && count < SMALL_SPAN_PAGES_MAX ==> spans[r.value] == count
      ensures r.Some? ==> (spans[r.value] >= count <==> forall b :: b in old(lists[Slot(count)]) ==> spans[b] >= count)
      ensures r.Some? && count >= SMALL_SPAN_PAGES_MAX && old(lists[Slot(count)]) != [] ==>
        forall b :: b in old(lists[Slot(count)]) ==> spans[r.value] <= spans[b]
    {
      hide MarksExact, Headed, Apart;
      if count == 0 || count > NX_PAGE_CACHE_MAX_PAGES {
        return None;
      }
      var slot := Slot(count);
      var spanList := lists[slot];
      if spanList == [] {
        if granted.None? {
          return None;
        }
        MarkingAddsSpan(marks[..], spans, granted.value, count);
        AddSpan(lists[..], freeCount[..], spans, granted.value, count);
        HeadsGrow(lists[..], pageCount, spans, granted.value, count);
        MarkSpan(granted.value, count);
        spans := spans[granted.value := count];
        return granted;
      }
      HeadsTaken(lists[..], pageCount, spans, slot, 0);
      var best := 0;
      if count >= SMALL_SPAN_PAGES_MAX {
        best := BestFit(spanList);
      }
      var span := spanList[best];
      TakeFromList(lists[..], freeCount[..], spans, slot, best);
      HeadsTaken(lists[..], pageCount, spans, slot, best);
      ghost var before, counts := lists[..], freeCount[..];
      lists[slot] := spanList[..best] + spanList[best + 1..];
      freeCount[slot] := freeCount[slot] - 1;
      assert lists[..] == before[slot := spanList[..best] + spanList[best + 1..]];
      assert freeCount[..] == counts[slot := counts[slot] - 1];
      return Some(span);
    }

    /** The search for the smallest cached large span. */
    method BestFit(spanList: seq<nat>) returns (best: nat)
      requires spanList != [] && forall i :: 0 <= i < |spanList| ==> spanList[i] in pageCount
      ensures best < |spanList|
      ensures forall i :: 0 <= i < |spanList| ==> pageCount[spanList[best]] <= pageCount[spanList[i]]
    {
      best := 0;
      var i := 0;
      while i < |spanList|
        invariant i <= |spanList| && best < |spanList|
        invariant forall j :: 0 <= j < i ==> pageCount[spanList[best]] <= pageCount[spanList[j]]
      {
        if pageCount[spanList[i]] < pageCount[spanList[best]] {
          best := i;
        }
        i := i + 1;
      }
    }

    /** __PageCacheFree; `back` is what PageFreeVirtual is called with. A span that is cached already is listed a second
        time or given back while it is listed: the cache stays in order exactly when the span was in use. */
    method Free(page: int) returns (err: Error, back: Option<nat>)
      requires Valid() && page < marks.Length
      modifies this, marks, lists, freeCount
      ensures err == Inval <==> page < 0
      ensures err == Fault <==> page >= 0 && forall b :: !Inside(old(spans), b, page)
      ensures err != Ok ==> spans == old(spans) && lists[..] == old(lists[..]) && marks[..] == old(marks[..])
      ensures err == Ok ==> old(marks[page].idx) <= page && Inside(old(spans), old(page - marks[page].idx), page)
      ensures Valid() <==> err != Ok || old(InUse(page - marks[page].idx))
      ensures err == Ok && Valid() ==> Freed(old(lists[..]), old(spans), lists[..], spans, old(page - marks[page].idx))
      ensures err == Ok ==> spans == Kept(old(lists[..]), old(spans), old(page - marks[page].idx))
      ensures back == if spans == old(spans) then None else Some(old(page - marks[page].idx))
    {
      hide Listed, Headed, Using, MarksExact, Freed;
      var found := PageToSpan(page);
      if found.None? {
        return Inval, None;
      }
      var span := found.value;
      MarkOf(marks[..], spans, page);
      var count := SpanToCount(span);
      if count == 0 {
        return Fault, None;
      }
      var slot := Slot(count);
      ListLengths(lists[..], freeCount[..], spans);
      ghost var before, counts, heads := lists[..], freeCount[..], pageCount;
      if freeCount[slot] >= Threshold(slot) {
        ClearingRemovesSpan(marks[..], spans, span);
        DropSpan(before, counts, heads, spans, span);
        ClearSpan(span, count);
        spans := spans - {span};
        return Ok, Some(span);
      } else {
        PutOnList(before, counts, heads, spans, span);
        pageCount := pageCount[span := count];
        lists[slot] := [span] + lists[slot];
        freeCount[slot] := freeCount[slot] + 1;
        assert lists[..] == before[slot := [span] + before[slot]];
        assert freeCount[..] == counts[slot := counts[slot] + 1];
        return Ok, None;
      }
    }
  }
}
