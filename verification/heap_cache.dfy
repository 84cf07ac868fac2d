/** Small objects: slabs of equal objects over spans of the page cache. Addresses are bytes from the base of the
    zone. */
module HeapCache {
  import opened HeapSizes
  import opened PageCache
  import Sets

  const MAX_SMALL_SPAN_THRESOLD: nat := 8

  /** NX_HeapSmallCacheSystem, at the start of its span; `start` is where it laid out the first object. */
  datatype Slab = Slab(pages: nat, size: nat, start: nat, max: nat, free: seq<nat>, freeCount: nat)

  type Systems = map<nat, Slab>

  type Live = map<nat, nat>

  predicate IsObject(s: Slab, a: nat) {
    s.size > 0 && IsNth(s.start, s.size, s.max, a)
  }

  predicate SlabOk(b: nat, s: Slab) {
    && s.size > 0 && s.max > 0
    && b * PAGE + HEADER <= s.start && ObjectAt(s.start, s.size, s.max) <= (b + s.pages) * PAGE
    && s.freeCount == |s.free|
    && (forall i, j :: 0 <= i < j < |s.free| ==> s.free[i] != s.free[j])
    && (forall a :: a in s.free ==> IsObject(s, a))
  }

  /** The objects of a slab that are not free are the live ones, and large enough for what was asked. */
  ghost predicate Shared(s: Slab, live: Live) {
    forall a :: IsObject(s, a) ==> (a in live <==> a !in s.free) && (a in live ==> live[a] <= s.size)
  }

  predicate Owned(systems: Systems, a: nat) {
    exists b :: b in systems && IsObject(systems[b], a)
  }

  ghost predicate Safe(systems: Systems, live: Live) {
    && (forall b :: b in systems ==> SlabOk(b, systems[b]) && Shared(systems[b], live))
    && (forall a :: a in live ==> Owned(systems, a))
  }

  /** Slabs do not share pages. */
  predicate PagesApart(systems: Systems) {
    forall b, c :: b in systems && c in systems && b < c ==> b + systems[b].pages <= c
  }

  lemma ObjectPages(b: nat, s: Slab, a: nat)
    requires SlabOk(b, s) && IsObject(s, a)
    ensures b * PAGE + HEADER <= a && a + s.size <= (b + s.pages) * PAGE && b <= a / PAGE < b + s.pages
  {
    var k: nat :| k < s.max && a == ObjectAt(s.start, s.size, k);
    ObjectsApart(s.start, s.size, k, s.max);
    if k > 0 { ObjectsApart(s.start, s.size, 0, k); }
  }

  lemma OneOwner(systems: Systems, b: nat, c: nat, a: nat)
    requires PagesApart(systems) && b in systems && c in systems
    requires SlabOk(b, systems[b]) && SlabOk(c, systems[c])
    requires IsObject(systems[b], a) && IsObject(systems[c], a)
    ensures b == c
  {
    ObjectPages(b, systems[b], a);
    ObjectPages(c, systems[c], a);
  }

  /** Two live objects never overlap, and each lies within its slab behind the header, as large as requested. */
  lemma LiveObjectsDisjoint(systems: Systems, live: Live, x: nat, y: nat)
    requires Safe(systems, live) && PagesApart(systems) && x in live && y in live && x != y
    ensures x + live[x] <= y || y + live[y] <= x
    ensures exists b :: b in systems && b * PAGE + HEADER <= x && x + live[x] <= (b + systems[b].pages) * PAGE
  {
    hide IsObject;
    assert Owned(systems, x) && Owned(systems, y);
    var b :| b in systems && IsObject(systems[b], x);
    var c :| c in systems && IsObject(systems[c], y);
    ObjectPages(b, systems[b], x);
    ObjectPages(c, systems[c], y);
    assert Shared(systems[b], live) && Shared(systems[c], live);
    if b == c {
      ObjectsOfSlabApart(systems[b], x, y);
    }
  }

  lemma ObjectsOfSlabApart(s: Slab, x: nat, y: nat)
    requires IsObject(s, x) && IsObject(s, y) && x != y
    ensures x + s.size <= y || y + s.size <= x
  {
    var j: nat :| j < s.max && x == ObjectAt(s.start, s.size, j);
    var k: nat :| k < s.max && y == ObjectAt(s.start, s.size, k);
    if j < k {
      ObjectsApart(s.start, s.size, j, k);
    } else {
      ObjectsApart(s.start, s.size, k, j);
    }
  }

  // ----- counting -----

  function Objects(start: nat, size: nat, n: nat): set<nat> {
    if n == 0 then {} else Objects(start, size, n - 1) + {ObjectAt(start, size, n - 1)}
  }

  predicate IsNth(start: nat, size: nat, n: nat, a: nat) {
    exists k: nat :: k < n && a == ObjectAt(start, size, k)
  }

  lemma {:induction false} InObjects(start: nat, size: nat, n: nat, a: nat)
    requires size > 0
    ensures a in Objects(start, size, n) <==> IsNth(start, size, n, a)
  {
    hide ObjectAt;
    if n > 0 {
      var last: nat := n - 1;
      InObjects(start, size, last, a);
      forall k: nat | k < n && a == ObjectAt(start, size, k) ensures a in Objects(start, size, n) {
        assert k < last ==> IsNth(start, size, last, a);
      }
      if IsNth(start, size, last, a) {
        var k: nat :| k < last && a == ObjectAt(start, size, k);
        assert IsNth(start, size, n, a);
      }
    }
  }

  lemma {:induction false} ObjectsCount(start: nat, size: nat, n: nat)
    requires size > 0
    ensures |Objects(start, size, n)| == n
    ensures forall a :: a in Objects(start, size, n) <==> IsNth(start, size, n, a)
  {
    hide ObjectAt;
    if n > 0 {
      var last: nat := n - 1;
      ObjectsCount(start, size, last);
      forall k: nat | k < last ensures ObjectAt(start, size, k) != ObjectAt(start, size, last) {
        ObjectsApart(start, size, k, last);
      }
    }
    forall a ensures a in Objects(start, size, n) <==> IsNth(start, size, n, a) {
      InObjects(start, size, n, a);
    }
  }

  function Elements(s: seq<nat>): set<nat> {
    set a | a in s
  }

  lemma {:induction false} ElementsCount(s: seq<nat>)
    requires forall i, j :: 0 <= i < j < |s| ==> s[i] != s[j]
    ensures |Elements(s)| == |s|
  {
    if s != [] {
      var init, last := s[..|s| - 1], s[|s| - 1];
      ElementsCount(init);
      assert Elements(s) == Elements(init) + {last};
    }
  }

  ghost function LiveIn(s: Slab, live: Live): set<nat> {
    set a | a in live && IsObject(s, a)
  }

  /** Free and live objects of a slab add up to all its objects. */
  lemma SlabConservation(b: nat, s: Slab, live: Live)
    requires SlabOk(b, s) && Shared(s, live)
    ensures s.freeCount + |LiveIn(s, live)| == s.max
  {
    hide Objects, ObjectAt, IsNth, Places, HeaderPlaces;
    ObjectsCount(s.start, s.size, s.max);
    ElementsCount(s.free);
    assert Objects(s.start, s.size, s.max) == Elements(s.free) + LiveIn(s, live);
    assert Elements(s.free) !! LiveIn(s, live);
  }

  /** The test for giving a slab back singles out the last live object. */
  lemma LastOne(b: nat, s: Slab, live: Live, a: nat)
    requires SlabOk(b, s) && Shared(s, live) && a in live && IsObject(s, a)
    ensures s.freeCount + 1 >= s.max <==> LiveIn(s, live) == {a}
  {
    SlabConservation(b, s, live);
    assert a in LiveIn(s, live);
    if |LiveIn(s, live)| <= 1 {
      Sets.SubsetSize({a}, LiveIn(s, live));
      var rest := LiveIn(s, live) - {a};
      assert |rest| == |LiveIn(s, live)| - 1;
      assert rest == {};
    }
  }

  // ----- steps -----

  lemma AllFree(b: nat, s: Slab, a: nat)
    requires SlabOk(b, s) && s.freeCount == s.max && IsObject(s, a)
    ensures a in s.free
  {
    ObjectsCount(s.start, s.size, s.max);
    ElementsCount(s.free);
    Sets.SubsetSize(Elements(s.free) + {a}, Objects(s.start, s.size, s.max));
    assert a !in s.free ==> |Elements(s.free) + {a}| == |s.free| + 1;
  }

  lemma NotLiveYet(systems: Systems, live: Live, b: nat, s: Slab, a: nat)
    requires Safe(systems, live) && b !in systems && PagesApart(systems[b := s])
    requires SlabOk(b, s) && IsObject(s, a)
    ensures a !in live
  {
    ObjectPages(b, s, a);
    forall c | c in systems ensures !IsObject(systems[c], a) {
      assert c in systems[b := s] && b in systems[b := s];
      if IsObject(systems[c], a) {
        ObjectPages(c, systems[c], a);
      }
    }
    assert a in live ==> Owned(systems, a);
  }

  /** A new slab, all free, on pages of its own. */
  lemma NewSlab(systems: Systems, live: Live, b: nat, s: Slab)
    requires Safe(systems, live) && b !in systems && PagesApart(systems[b := s])
    requires SlabOk(b, s) && s.freeCount == s.max
    ensures Safe(systems[b := s], live)
  {
    hide PagesApart, SlabOk, IsObject;
    forall a | IsObject(s, a) ensures a !in live && a in s.free {
      NotLiveYet(systems, live, b, s, a);
      AllFree(b, s, a);
    }
    forall a | a in live ensures Owned(systems[b := s], a) {
      assert Owned(systems, a);
      var c :| c in systems && IsObject(systems[c], a);
      assert c in systems[b := s] && IsObject(systems[b := s][c], a);
    }
    forall c | c in systems ensures Shared(systems[c], live) { }
  }

  lemma SameObjects(s: Slab, s': Slab)
    requires s.size == s'.size && s.start == s'.start && s.max == s'.max
    ensures forall x :: IsObject(s', x) <==> IsObject(s, x)
  {
  }

  function Taken(s: Slab): Slab
    requires s.free != [] && s.freeCount > 0
  {
    s.(free := s.free[1..], freeCount := s.freeCount - 1)
  }

  /** Another slab is not concerned with what becomes of an object of slab b. */
  lemma OthersShared(systems: Systems, live: Live, b: nat, a: nat, live': Live)
    requires Safe(systems, live) && PagesApart(systems) && b in systems && IsObject(systems[b], a)
    requires forall x :: x != a ==> (x in live <==> x in live') && (x in live ==> live[x] == live'[x])
    ensures forall c :: c in systems && c != b ==> Shared(systems[c], live')
  {
    forall c, x | c in systems && c != b && IsObject(systems[c], x) ensures x != a {
      if x == a { OneOwner(systems, b, c, a); }
    }
    forall c | c in systems && c != b ensures Shared(systems[c], live') {
      assert Shared(systems[c], live);
    }
  }

  lemma StillOwned(systems: Systems, live: Live, b: nat, s': Slab, a: nat, x: nat)
    requires Safe(systems, live) && b in systems && IsObject(systems[b], a)
    requires s'.size == systems[b].size && s'.start == systems[b].start && s'.max == systems[b].max
    requires x in live || x == a
    ensures Owned(systems[b := s'], x)
  {
    assert x in live ==> Owned(systems, x);
    var c :| c in systems && IsObject(systems[c], x);
    assert c in systems[b := s'] && IsObject(systems[b := s'][c], x);
  }

  lemma KeepsApart(systems: Systems, b: nat, s': Slab)
    requires PagesApart(systems) && b in systems && s'.pages == systems[b].pages
    ensures PagesApart(systems[b := s'])
  {
  }

  /** One object of slab b changes hands. */
  lemma ObjectMoves(systems: Systems, live: Live, b: nat, s': Slab, a: nat, live': Live)
    requires Safe(systems, live) && PagesApart(systems) && b in systems && IsObject(systems[b], a)
    requires s'.pages == systems[b].pages
    requires s'.size == systems[b].size && s'.start == systems[b].start && s'.max == systems[b].max
    requires SlabOk(b, s') && Shared(s', live')
    requires forall x :: x != a ==> (x in live <==> x in live') && (x in live ==> live[x] == live'[x])
    ensures PagesApart(systems[b := s']) && Safe(systems[b := s'], live')
  {
    hide IsObject, Owned, Shared, SlabOk, PagesApart;
    KeepsApart(systems, b, s');
    OthersShared(systems, live, b, a, live');
    forall x | x in live' ensures Owned(systems[b := s'], x) {
      StillOwned(systems, live, b, s', a, x);
    }
  }

  lemma TakenOk(b: nat, s: Slab, live: Live, request: nat)
    requires SlabOk(b, s) && Shared(s, live) && s.free != [] && request <= s.size
    ensures s.freeCount > 0 && IsObject(s, s.free[0]) && s.free[0] !in live
    ensures SlabOk(b, Taken(s)) && Shared(Taken(s), live[s.free[0] := request])
  {
    SameObjects(s, Taken(s));
    hide IsObject;
    assert s.free == [s.free[0]] + s.free[1..];
  }

  lemma TakeObject(systems: Systems, live: Live, b: nat, request: nat)
    requires Safe(systems, live) && PagesApart(systems) && b in systems
    requires systems[b].free != [] && request <= systems[b].size
    ensures var s := systems[b]; var a := s.free[0];
      && a !in live && s.freeCount > 0
      && PagesApart(systems[b := Taken(s)])
      && Safe(systems[b := Taken(s)], live[a := request])
  {
    hide IsObject, Shared, SlabOk, PagesApart;
    var s := systems[b];
    TakenOk(b, s, live, request);
    ObjectMoves(systems, live, b, Taken(s), s.free[0], live[s.free[0] := request]);
  }

  lemma FirstIsObject(b: nat, s: Slab)
    requires SlabOk(b, s) && s.free != []
    ensures IsObject(s, s.free[0]) && (s.freeCount > 0 ==> IsObject(Taken(s), s.free[0]))
  {
    assert s.free[0] in s.free;
  }

  function Returned(s: Slab, a: nat): Slab {
    s.(free := s.free + [a], freeCount := s.freeCount + 1)
  }

  lemma ReturnedOk(b: nat, s: Slab, live: Live, a: nat)
    requires SlabOk(b, s) && Shared(s, live) && a in live && IsObject(s, a)
    ensures SlabOk(b, Returned(s, a)) && Shared(Returned(s, a), live - {a})
  {
    SameObjects(s, Returned(s, a));
    hide IsObject;
  }

  lemma PutObject(systems: Systems, live: Live, b: nat, a: nat)
    requires Safe(systems, live) && PagesApart(systems) && b in systems && a in live && IsObject(systems[b], a)
    ensures PagesApart(systems[b := Returned(systems[b], a)])
    ensures Safe(systems[b := Returned(systems[b], a)], live - {a})
  {
    hide IsObject, Shared, SlabOk, PagesApart;
    ReturnedOk(b, systems[b], live, a);
    ObjectMoves(systems, live, b, Returned(systems[b], a), a, live - {a});
  }

  lemma DropSlab(systems: Systems, live: Live, b: nat, a: nat)
    requires Safe(systems, live) && PagesApart(systems) && b in systems && a in live && IsObject(systems[b], a)
    requires systems[b].freeCount + 1 >= systems[b].max
    ensures PagesApart(systems - {b}) && Safe(systems - {b}, live - {a})
    ensures forall x :: x in live - {a} ==> !IsObject(systems[b], x)
  {
    var s, live' := systems[b], live - {a};
    assert Shared(s, live);
    OthersShared(systems, live, b, a, live');
    LastOne(b, s, live, a);
    forall x | x in live' ensures !IsObject(s, x) && Owned(systems - {b}, x) {
      assert x !in LiveIn(s, live);
      assert Owned(systems, x);
      var c :| c in systems && IsObject(systems[c], x);
      assert c in systems - {b} && IsObject((systems - {b})[c], x);
    }
  }

  // ----- the lists of slabs -----

  /** Every slab is in the list of its class, once, and its size is marked on its first page. */
  ghost predicate Indexed(lists: seq<seq<nat>>, counts: seq<nat>, systems: Systems, sizeClass: map<nat, nat>) {
    && |lists| == |counts| == MAX_SIZE_CLASS_NR
    && (forall i :: 0 <= i < |lists| ==> counts[i] == |lists[i]|)
    && (forall i, j, k :: 0 <= i < |lists| && 0 <= j < k < |lists[i]| ==> lists[i][j] != lists[i][k])
    && (forall i, j :: 0 <= i < |lists| && 0 <= j < |lists[i]| ==>
          lists[i][j] in systems && systems[lists[i][j]].size == ClassSize(i))
    && (forall b :: b in systems ==> InItsList(lists, b, systems[b].size))
    && (forall b :: b in systems ==> b in sizeClass && sizeClass[b] == systems[b].size)
  }

  predicate InItsList(lists: seq<seq<nat>>, b: nat, size: nat)
    requires |lists| == MAX_SIZE_CLASS_NR
  {
    exists i :: 0 <= i < MAX_SIZE_CLASS_NR && b in lists[i] && ClassSize(i) == size
  }

  /** Each slab is in use as a span of the page cache that is long enough for it. */
  ghost predicate Held(systems: Systems, spanLists: seq<seq<nat>>, spans: Spans)
    requires |spanLists| == SMALL_SPAN_PAGES_MAX + 1
  {
    forall b :: b in systems ==> Using(spanLists, spans, b) && systems[b].pages <= spans[b]
  }

  lemma HeldApart(marks: seq<Mark>, spanLists: seq<seq<nat>>, spans: Spans, systems: Systems)
    requires MarksExact(marks, spans) && |spanLists| == SMALL_SPAN_PAGES_MAX + 1 && Held(systems, spanLists, spans)
    ensures PagesApart(systems)
  {
    forall b, c | b in systems && c in systems && b < c ensures b + systems[b].pages <= c {
      SpansDisjoint(marks, spans, b, c);
    }
  }

  /** Taking the span at `b` disturbs no slab. */
  lemma HeldAfterAlloc(systems: Systems, lists: seq<seq<nat>>, spans: Spans, lists': seq<seq<nat>>, spans': Spans,
      b: nat)
    requires |lists| == |lists'| == SMALL_SPAN_PAGES_MAX + 1
    requires Held(systems, lists, spans) && !Using(lists, spans, b) && Using(lists', spans', b)
    requires forall c :: c != b ==> (Using(lists', spans', c) <==> Using(lists, spans, c))
    requires forall c :: c in spans && c != b ==> c in spans' && spans'[c] == spans[c]
    ensures b !in systems && b in spans' && Held(systems, lists', spans')
    ensures forall s: Slab :: s.pages <= spans'[b] ==> Held(systems[b := s], lists', spans')
  {
  }

  lemma SpanInZone(marks: seq<Mark>, spans: Spans, b: nat)
    requires MarksExact(marks, spans) && b in spans
    ensures b < |marks|
  {
  }

  function WithoutAt(list: seq<nat>, j: nat): seq<nat>
    requires j < |list|
  {
    list[..j] + list[j + 1..]
  }

  lemma WithoutAtList(list: seq<nat>, j: nat)
    requires j < |list| && forall i, k :: 0 <= i < k < |list| ==> list[i] != list[k]
    ensures forall x :: x in WithoutAt(list, j) <==> x in list && x != list[j]
    ensures forall i, k :: 0 <= i < k < |list| - 1 ==> WithoutAt(list, j)[i] != WithoutAt(list, j)[k]
  {
    var rest := WithoutAt(list, j);
    assert forall k :: 0 <= k < |rest| ==> rest[k] == list[if k < j then k else k + 1];
    forall x | x in list && x != list[j] ensures x in rest {
      var m :| 0 <= m < |list| && list[m] == x;
      assert rest[if m < j then m else m - 1] == x;
    }
  }

  lemma UnlistSlab(lists: seq<seq<nat>>, counts: seq<nat>, systems: Systems, sizeClass: map<nat, nat>, i: nat, j: nat)
    requires Indexed(lists, counts, systems, sizeClass) && i < |lists| && j < |lists[i]|
    ensures counts[i] > 0
    ensures var b := lists[i][j];
      Indexed(lists[i := WithoutAt(lists[i], j)], counts[i := counts[i] - 1], systems - {b}, sizeClass[b := 0])
  {
    var b, rest := lists[i][j], WithoutAt(lists[i], j);
    var lists' := lists[i := rest];
    WithoutAtList(lists[i], j);
    hide ClassSize, WithoutAt;
    forall k | 0 <= k < |lists| && k != i ensures b !in lists[k] {
      SameClass(i, k);
    }
    forall c | c in systems && c != b ensures InItsList(lists', c, systems[c].size) {
      assert InItsList(lists, c, systems[c].size);
      var k :| 0 <= k < MAX_SIZE_CLASS_NR && c in lists[k] && ClassSize(k) == systems[c].size;
      assert c in lists'[k];
    }
  }

  lemma SameClass(i: nat, k: nat)
    ensures ClassSize(i) == ClassSize(k) <==> i == k
  {
    if i < k { ClassesIncrease(i, k); }
    if k < i { ClassesIncrease(k, i); }
  }

  lemma ListSlab(lists: seq<seq<nat>>, counts: seq<nat>, systems: Systems, sizeClass: map<nat, nat>,
                 i: nat, b: nat, s: Slab)
    requires Indexed(lists, counts, systems, sizeClass) && i < |lists| && b !in systems && s.size == ClassSize(i)
    ensures Indexed(lists[i := [b] + lists[i]], counts[i := counts[i] + 1], systems[b := s], sizeClass[b := s.size])
  {
    hide ClassSize;
    var lists' := lists[i := [b] + lists[i]];
    var systems' := systems[b := s];
    forall c | c in systems' ensures InItsList(lists', c, systems'[c].size) {
      if c == b {
        assert b in lists'[i];
      } else {
        assert InItsList(lists, c, systems[c].size);
        var k :| 0 <= k < MAX_SIZE_CLASS_NR && c in lists[k] && ClassSize(k) == systems[c].size;
        assert c in lists'[k];
      }
    }
  }

  lemma ChangeSlab(lists: seq<seq<nat>>, counts: seq<nat>, systems: Systems, sizeClass: map<nat, nat>, b: nat, s: Slab)
    requires Indexed(lists, counts, systems, sizeClass) && b in systems && s.size == systems[b].size
    ensures Indexed(lists, counts, systems[b := s], sizeClass)
  {
    forall c | c in systems ensures InItsList(lists, c, systems[b := s][c].size) {
      assert InItsList(lists, c, systems[c].size);
    }
  }

  // ----- the heap -----

  datatype HeapResult = Object(a: nat) | NoMemory | SpanTooShort

  function AlignUp(size: nat): (r: nat)
    ensures r % 16 == 0 && size <= r < size + 16
  {
    (size + MIN_SIZE_CLASS_VALUE - 1) / MIN_SIZE_CLASS_VALUE * MIN_SIZE_CLASS_VALUE
  }

  /** The free list that BuildSmallCacheSystem lays out: all the objects, in order. */
  function Fresh(start: nat, size: nat, n: nat): seq<nat> {
    if n == 0 then [] else Fresh(start, size, n - 1) + [ObjectAt(start, size, n - 1)]
  }

  function FreshSlab(b: nat, pages: nat, size: nat): Slab
    requires size > 0 && HeaderPlaces(size) < Places(pages, size)
  {
    var max := Places(pages, size) - HeaderPlaces(size);
    var start := FirstObject(b, size);
    Slab(pages, size, start, max, Fresh(start, size, max), max)
  }

  lemma {:induction false} FreshObjects(start: nat, size: nat, n: nat)
    ensures |Fresh(start, size, n)| == n
    ensures forall k: nat :: k < n ==> Fresh(start, size, n)[k] == ObjectAt(start, size, k)
  {
    hide ObjectAt;
    if n > 0 {
      FreshObjects(start, size, n - 1);
    }
  }

  lemma FreshSlabOk(b: nat, pages: nat, size: nat)
    requires size > 0 && HeaderPlaces(size) < Places(pages, size)
    ensures SlabOk(b, FreshSlab(b, pages, size))
  {
    hide ObjectAt, HeaderPlaces, Places, FirstObject;
    var s := FreshSlab(b, pages, size);
    SlabFits(b, pages, size, s.max);
    FreshObjects(s.start, size, s.max);
    forall i: nat, j: nat | i < j < |s.free| ensures s.free[i] != s.free[j] {
      ObjectsApart(s.start, size, i, j);
    }
    forall a | a in s.free ensures IsObject(s, a) {
      var k: nat :| k < |s.free| && s.free[k] == a;
    }
  }

  /** The slab wastes less than a place before its first object and less than one behind its last. */
  lemma SlabIsFull(b: nat, pages: nat, size: nat)
    requires size > 0 && HeaderPlaces(size) < Places(pages, size)
    ensures var s := FreshSlab(b, pages, size);
      && s.start < b * PAGE + HEADER + size
      && (b + pages) * PAGE < ObjectAt(s.start, size, s.max) + size
      && |s.free| == s.max && forall k: nat :: k < s.max ==> s.free[k] == ObjectAt(s.start, size, k)
  {
    var s := FreshSlab(b, pages, size);
    FreshObjects(s.start, size, s.max);
    ObjectPlace(s.start, size, s.max);
    DistributeSum(HeaderPlaces(size), s.max, size);
    Remainder(HEADER + size - 1, size);
    Remainder(pages * PAGE, size);
  }

  lemma Remainder(n: nat, size: nat)
    requires size > 0
    ensures n / size * size <= n < n / size * size + size
  {
    assert n == size * (n / size) + n % size;
  }

  /** The spans after a request for `pageCount` pages: the granted ones are added when nothing is cached. */
  function Grown(spans: Spans, cached: seq<nat>, granted: Option<nat>, pageCount: nat): Spans {
    if cached == [] && granted.Some? then spans[granted.value := pageCount] else spans
  }

  /** At most one span has left the page cache, and `back` says which. */
  ghost predicate GivenBack(before: Spans, after: Spans, back: Option<nat>) {
    match back
    case None => after == before
    case Some(b) => b in before && after == before - {b}
  }

  class Heap {
    const sizes: array<nat>
    const spanCache: Cache
    var systems: Systems
    var lists: seq<seq<nat>>
    var counts: seq<nat>
    var sizeClass: map<nat, nat>
    ghost var live: Live // each live object with the size it was requested with

    ghost predicate TableOk()
      reads sizes
    {
      sizes.Length == MAX_SIZE_CLASS_NR && forall k :: 0 <= k < sizes.Length ==> sizes[k] == ClassSize(k)
    }

    ghost predicate Valid()
      reads this, sizes, spanCache, spanCache.marks, spanCache.lists, spanCache.freeCount
    {
      && TableOk() && sizes != spanCache.freeCount && spanCache.Valid()
      && Indexed(lists, counts, systems, sizeClass)
      && Held(systems, spanCache.lists[..], spanCache.spans)
      && Safe(systems, live)
    }

    /** NX_HeapCacheInit */
    constructor (spanCache: Cache)
      requires spanCache.Valid()
      ensures Valid() && live == map[] && systems == map[] && this.spanCache == spanCache && fresh(sizes)
      ensures |lists| == MAX_SIZE_CLASS_NR && forall i :: 0 <= i < |lists| ==> lists[i] == []
    {
      var sizes := HeapSizeClassInit();
      this.sizes, this.spanCache := sizes, spanCache;
      systems, sizeClass, live := map[], map[], map[];
      lists := seq(MAX_SIZE_CLASS_NR, _ => []);
      counts := seq(MAX_SIZE_CLASS_NR, _ => 0);
    }

    /** GetFreeSmallCacheSystem */
    method GetFreeSmallCacheSystem(i: nat) returns (r: Option<nat>)
      requires Valid() && i < MAX_SIZE_CLASS_NR
      ensures r.Some? ==> r.value in lists[i] && r.value in systems && systems[r.value].free != []
      ensures r.None? ==> forall b :: b in lists[i] ==> b in systems && systems[b].free == []
    {
      var k := 0;
      while k < |lists[i]|
        invariant k <= |lists[i]|
        invariant forall j :: 0 <= j < k ==> systems[lists[i][j]].free == []
      {
        if systems[lists[i][k]].free != [] {
          return Some(lists[i][k]);
        }
        k := k + 1;
      }
      return None;
    }

    /** GetFreeSmallCacheObject */
    method GetFreeSmallCacheObject(b: nat, ghost request: nat) returns (a: nat)
      requires Valid() && b in systems && systems[b].free != [] && request <= systems[b].size
      modifies this`systems, this`live
      ensures Valid()
      ensures a !in old(live) && live == old(live)[a := request]
      ensures b in systems && systems[b].size == old(systems[b].size) && IsObject(systems[b], a)
    {
      hide Indexed, SlabOk, Shared, Owned, IsObject;
      FirstIsObject(b, systems[b]);
      HeldApart(spanCache.marks[..], spanCache.lists[..], spanCache.spans, systems);
      TakeObject(systems, live, b, request);
      ChangeSlab(lists, counts, systems, sizeClass, b, Taken(systems[b]));
      a := systems[b].free[0];
      live := live[a := request];
      systems := systems[b := Taken(systems[b])];
    }

    /** BuildSmallCacheSystem, on the objects that fit into the span. */
    method BuildSmallCacheSystem(b: nat, pages: nat, size: nat, objectCount: nat) returns (s: Slab)
      requires size > 0 && objectCount == Places(pages, size) && HeaderPlaces(size) < objectCount
      ensures s == FreshSlab(b, pages, size)
    {
      hide Places, HeaderPlaces, ObjectAt, FirstObject;
      var systemUsedObjectCount := HeaderPlaces(size);
      var max := objectCount - systemUsedObjectCount;
      var free: seq<nat> := [];
      var freeCount: nat := 0;
      FirstStart(b, size);
      var first := b * PAGE + systemUsedObjectCount * size;
      var start := first;
      while freeCount < max
        invariant freeCount <= max && free == Fresh(FirstObject(b, size), size, freeCount)
        invariant start == ObjectAt(FirstObject(b, size), size, freeCount)
      {
        free := free + [start];
        NextObject(FirstObject(b, size), size, freeCount);
        freeCount := freeCount + 1;
        start := start + size;
      }
      return Slab(pages, size, first, max, free, freeCount);
    }

    /** The call of NX_PageCacheAlloc for a slab; `enough` tells whether the span has the pages asked for. */
    method TakeSpan(pageCount: nat, granted: Option<nat>) returns (r: Option<nat>, enough: bool)
      requires spanCache.Valid() && 0 < pageCount <= NX_PAGE_CACHE_MAX_PAGES
      requires spanCache.lists.Length == SMALL_SPAN_PAGES_MAX + 1
      requires Held(systems, spanCache.lists[..], spanCache.spans)
      requires granted.Some? ==>
        granted.value + pageCount <= spanCache.marks.Length && Apart(spanCache.spans, granted.value, pageCount)
      modifies spanCache, spanCache.marks, spanCache.lists, spanCache.freeCount
      ensures spanCache.Valid() && Held(systems, spanCache.lists[..], spanCache.spans)
      ensures r.None? <==> granted.None? && old(spanCache.lists[Slot(pageCount)]) == []
      ensures spanCache.spans == Grown(old(spanCache.spans), old(spanCache.lists[Slot(pageCount)]), granted, pageCount)
      ensures r.Some? && !enough <==>
        exists b :: b in old(spanCache.lists[Slot(pageCount)]) && old(spanCache.spans)[b] < pageCount
      ensures r.Some? && enough ==> r.value !in systems
      ensures r.Some? && enough ==>
        forall s: Slab :: s.pages <= pageCount ==> Held(systems[r.value := s], spanCache.lists[..], spanCache.spans)
    {
      hide MarksExact, Headed, Apart, Using, Held;
      ghost var spanLists, spans := spanCache.lists[..], spanCache.spans;
      r := spanCache.Alloc(pageCount, granted);
      if r.None? {
        return None, true;
      }
      var b := r.value;
      forall c | c != b
        ensures Using(spanCache.lists[..], spanCache.spans, c) <==> Using(spanLists, spans, c)
      {
        assert spanCache.InUse(c) <==> old(spanCache.InUse(c));
      }
      HeldAfterAlloc(systems, spanLists, spans, spanCache.lists[..], spanCache.spans, b);
      SpanInZone(spanCache.marks[..], spanCache.spans, b);
      var count := spanCache.SpanToCount(b);
      enough := count >= pageCount;
    }

    /** AllocSpan: a new slab, at the head of the list of its class. */
    method AllocSpan(i: nat, pageCount: nat, granted: Option<nat>) returns (r: HeapResult)
      requires Valid() && i < MAX_SIZE_CLASS_NR && 0 < pageCount <= NX_PAGE_CACHE_MAX_PAGES
      requires HeaderPlaces(ClassSize(i)) < Places(pageCount, ClassSize(i))
      requires granted.Some? ==>
        granted.value + pageCount <= spanCache.marks.Length && Apart(spanCache.spans, granted.value, pageCount)
      modifies this`systems, this`lists, this`counts, this`sizeClass
      modifies spanCache, spanCache.marks, spanCache.lists, spanCache.freeCount
      ensures Valid()
      ensures r == NoMemory <==> granted.None? && old(spanCache.lists[Slot(pageCount)]) == []
      ensures spanCache.spans == Grown(old(spanCache.spans), old(spanCache.lists[Slot(pageCount)]), granted, pageCount)
      ensures r == SpanTooShort <==>
        exists b :: b in old(spanCache.lists[Slot(pageCount)]) && old(spanCache.spans)[b] < pageCount
      ensures r.Object? ==> lists[i] == [r.a] + old(lists[i]) && r.a in systems && systems[r.a].free != []
      ensures !r.Object? ==> systems == old(systems) && lists == old(lists)
    {
      hide Indexed, Safe, MarksExact, Headed, Listed, Using, Held, Apart, PagesApart, ClassSize, HeaderPlaces;
      ListLengths(spanCache.lists[..], spanCache.freeCount[..], spanCache.spans);
      var span, enough := TakeSpan(pageCount, granted);
      if span.None? {
        return NoMemory;
      }
      if !enough {
        return SpanTooShort; // the slab would run over what follows the span
      }
      var b, size := span.value, sizes[i];
      var s := BuildSmallCacheSystem(b, pageCount, size, pageCount * PAGE / size);
      FreshSlabOk(b, pageCount, size);
      HeldApart(spanCache.marks[..], spanCache.lists[..], spanCache.spans, systems[b := s]);
      NewSlab(systems, live, b, s);
      IndexedLengths(lists, counts, systems, sizeClass);
      ListSlab(lists, counts, systems, sizeClass, i, b, s);
      systems := systems[b := s];
      counts := counts[i := counts[i] + 1];
      lists := lists[i := [b] + lists[i]];
      sizeClass := sizeClass[b := s.size];
      return Object(b);
    }

    /** No slab of class i has a free object. */
    ghost predicate AllTaken(i: nat)
      requires |lists| == MAX_SIZE_CLASS_NR && i < MAX_SIZE_CLASS_NR
      reads this
    {
      forall b :: b in lists[i] ==> b in systems && systems[b].free == []
    }

    /** a is an object of a slab in the list of class i, whose objects have the size of that class. */
    ghost predicate OfClass(i: nat, a: nat)
      reads this
    {
      && |lists| == MAX_SIZE_CLASS_NR && i < MAX_SIZE_CLASS_NR
      && exists b :: b in lists[i] && b in systems && systems[b].size == ClassSize(i) && IsObject(systems[b], a)
    }

    /** AllocSmallObject: the slabs of the class are tried first; `request` is what the caller asked for. */
    method AllocSmallObject(i: nat, pageCount: nat, granted: Option<nat>, ghost request: nat) returns (r: HeapResult)
      requires Valid() && i < MAX_SIZE_CLASS_NR && 0 < pageCount <= NX_PAGE_CACHE_MAX_PAGES
      requires HeaderPlaces(ClassSize(i)) < Places(pageCount, ClassSize(i)) && request <= ClassSize(i)
      requires granted.Some? && AllTaken(i) ==>
        granted.value + pageCount <= spanCache.marks.Length && Apart(spanCache.spans, granted.value, pageCount)
      modifies this`systems, this`lists, this`counts, this`sizeClass, this`live
      modifies spanCache, spanCache.marks, spanCache.lists, spanCache.freeCount
      ensures Valid()
      ensures r.Object? ==> r.a !in old(live) && live == old(live)[r.a := request] && OfClass(i, r.a)
      ensures !r.Object? ==> live == old(live)
      ensures r == NoMemory <==>
        (old(AllTaken(i)) && granted.None? && old(spanCache.lists[Slot(pageCount)]) == [])
      ensures r == SpanTooShort <==>
        (old(AllTaken(i)) && exists b ::
          b in old(spanCache.lists[Slot(pageCount)]) && old(spanCache.spans)[b] < pageCount)
      ensures spanCache.spans ==
        if old(AllTaken(i)) then Grown(old(spanCache.spans), old(spanCache.lists[Slot(pageCount)]), granted, pageCount)
        else old(spanCache.spans)
    {
      hide Safe, MarksExact, Headed, Using, Held, Apart, PagesApart, ClassSize, Places, HeaderPlaces, InItsList, Grown;
      var system := GetFreeSmallCacheSystem(i);
      if system.None? {
        var built := AllocSpan(i, pageCount, granted);
        if !built.Object? {
          return built;
        }
        system := GetFreeSmallCacheSystem(i);
        assert built.a in lists[i];
      }
      var a := GetFreeSmallCacheObject(system.value, request);
      return Object(a);
    }

    /** NX_HeapAlloc for a small object. */
    method Alloc(size: nat, granted: Option<nat>) returns (r: HeapResult)
      requires Valid() && size <= MAX_SMALL_OBJECT_SIZE
      requires granted.Some? ==>
        var pageCount := SizeToPageCount(AlignUp(size));
        granted.value + pageCount <= spanCache.marks.Length && Apart(spanCache.spans, granted.value, pageCount)
      modifies this`systems, this`lists, this`counts, this`sizeClass, this`live
      modifies spanCache, spanCache.marks, spanCache.lists, spanCache.freeCount
      ensures Valid()
      ensures r.Object? ==> r.a !in old(live) && live == old(live)[r.a := size]
      ensures !r.Object? ==> live == old(live)
      ensures size > 0 && r.Object? ==> forall i: nat :: IsClassOf(i, AlignUp(size)) ==> OfClass(i, r.a)
      ensures size > 0 ==> forall i: nat :: IsClassOf(i, AlignUp(size)) ==>
        var slot := Slot(SizeToPageCount(AlignUp(size)));
        && (r == NoMemory <==> old(AllTaken(i)) && granted.None? && old(spanCache.lists[slot]) == [])
        && (r == SpanTooShort <==>
              (old(AllTaken(i)) && exists b ::
                b in old(spanCache.lists[slot]) && old(spanCache.spans)[b] < SizeToPageCount(AlignUp(size))))
        && spanCache.spans == (if old(AllTaken(i))
                               then Grown(old(spanCache.spans), old(spanCache.lists[slot]), granted,
                                 SizeToPageCount(AlignUp(size)))
                               else old(spanCache.spans))
      ensures size == 0 ==> r == NoMemory && spanCache.spans == old(spanCache.spans)
    {
      hide Indexed, Safe, MarksExact, Headed, Listed, Using, Held, Apart, PagesApart, ClassSize, Places, HeaderPlaces;
      hide Grown;
      if size == 0 {
        return NoMemory;
      }
      Aligned16(size);
      var aligned := AlignUp(size);
      var pageCount := SizeToPageCount(aligned);
      var i := SizeToCache(sizes, aligned);
      SlabHoldsOne(i, aligned);
      forall j: nat | IsClassOf(j, aligned) ensures j == i {
        SameIndex(i, j, aligned);
      }
      IndexedLengths(lists, counts, systems, sizeClass);
      if lists[i] == [] {
        var built := AllocSpan(i, pageCount, granted);
        if !built.Object? {
          return built;
        }
        IndexedLengths(lists, counts, systems, sizeClass);
        assert built.a in lists[i];
      }
      r := AllocSmallObject(i, pageCount, granted, size);
    }

    /** The slab of a live object, found as HeapFree does: by the span of the object's page. */
    method SlabOf(obj: nat) returns (b: nat)
      requires Valid() && obj in live
      ensures b in systems && IsObject(systems[b], obj)
    {
      hide Indexed, MarksExact, Headed, Using, Listed, IsObject, SlabOk;
      ListLengths(spanCache.lists[..], spanCache.freeCount[..], spanCache.spans);
      assert Owned(systems, obj);
      ghost var owner :| owner in systems && IsObject(systems[owner], obj);
      PageOfObject(spanCache.marks[..], spanCache.lists[..], spanCache.spans, systems, owner, obj);
      var page := obj / PAGE;
      var span := spanCache.PageToSpan(page);
      return span.value;
    }

    /** NX_ListDel looks a slab up in the list it is linked into. */
    method IndexInList(i: nat, b: nat) returns (j: nat)
      requires Valid() && i < MAX_SIZE_CLASS_NR && b in systems && systems[b].size == ClassSize(i)
      ensures j < |lists[i]| && lists[i][j] == b
    {
      hide Safe, Held, MarksExact, Headed, Listed, Using, ClassSize;
      ListOfSlab(lists, counts, systems, sizeClass, i, b);
      j := 0;
      while lists[i][j] != b
        invariant j < |lists[i]| && b !in lists[i][..j]
        decreases |lists[i]| - j
      {
        j := j + 1;
      }
    }

    /** The call of NX_PageCacheFree for a slab. */
    method GiveBack(b: nat) returns (err: Error, back: Option<nat>)
      requires spanCache.Valid() && b in systems && spanCache.lists.Length == SMALL_SPAN_PAGES_MAX + 1
      requires Held(systems, spanCache.lists[..], spanCache.spans)
      modifies spanCache, spanCache.marks, spanCache.lists, spanCache.freeCount
      ensures spanCache.Valid() && err == Ok
      ensures Held(systems - {b}, spanCache.lists[..], spanCache.spans) && !spanCache.InUse(b)
      ensures GivenBack(old(spanCache.spans), spanCache.spans, back)
    {
      hide Headed, Listed;
      ghost var spanLists, spans := spanCache.lists[..], spanCache.spans;
      SlabSpan(spanCache.marks[..], spanLists, spans, systems, b);
      err, back := spanCache.Free(b);
      HeldAfterFree(systems, spanLists, spans, spanCache.lists[..], spanCache.spans, b);
    }

    /** The two ways PutFreeSmallCacheObject ends: the whole slab goes back to the page cache ... */
    method PutSlab(i: nat, b: nat, obj: nat) returns (err: Error, back: Option<nat>)
      requires Valid() && obj in live && b in systems && IsObject(systems[b], obj)
      requires i < MAX_SIZE_CLASS_NR && systems[b].size == ClassSize(i)
      requires systems[b].freeCount + 1 >= systems[b].max
      modifies this`systems, this`lists, this`counts, this`sizeClass, this`live
      modifies spanCache, spanCache.marks, spanCache.lists, spanCache.freeCount
      ensures Valid() && err == Ok && live == old(live) - {obj} && systems == old(systems) - {b}
      ensures GivenBack(old(spanCache.spans), spanCache.spans, back)
    {
      hide GivenBack, MarksExact, Headed, Using, Held, Listed, IsObject, SlabOk, PagesApart, ClassSize, Safe, Shared,
        Indexed;
      ListLengths(spanCache.lists[..], spanCache.freeCount[..], spanCache.spans);
      HeldApart(spanCache.marks[..], spanCache.lists[..], spanCache.spans, systems);
      IndexedLengths(lists, counts, systems, sizeClass);
      var j := IndexInList(i, b);
      UnlistSlab(lists, counts, systems, sizeClass, i, j);
      DropSlab(systems, live, b, obj);
      err, back := GiveBack(b);
      lists := lists[i := lists[i][..j] + lists[i][j + 1..]];
      counts := counts[i := counts[i] - 1];
      sizeClass := sizeClass[b := 0];
      systems := systems - {b};
      live := live - {obj};
    }

    /** ... or the object goes to the end of its slab's free list. */
    method PutObjectBack(b: nat, obj: nat)
      requires Valid() && obj in live && b in systems && IsObject(systems[b], obj)
      modifies this`systems, this`live
      ensures Valid() && live == old(live) - {obj}
      ensures systems == old(systems)[b := Returned(old(systems)[b], obj)]
    {
      hide MarksExact, Headed, Using, Held, Listed, IsObject, SlabOk, PagesApart, ClassSize, Safe, Shared, Indexed;
      ListLengths(spanCache.lists[..], spanCache.freeCount[..], spanCache.spans);
      HeldApart(spanCache.marks[..], spanCache.lists[..], spanCache.spans, systems);
      var s := Returned(systems[b], obj);
      PutObject(systems, live, b, obj);
      ChangeSlab(lists, counts, systems, sizeClass, b, s);
      KeepHeld(systems, spanCache.lists[..], spanCache.spans, b, s);
      systems := systems[b := s];
      live := live - {obj};
    }

    /** PutFreeSmallCacheObject: the slab is given back only for its last live object. */
    method PutFreeSmallCacheObject(i: nat, b: nat, obj: nat) returns (err: Error, back: Option<nat>)
      requires Valid() && obj in live && b in systems && IsObject(systems[b], obj)
      requires i < MAX_SIZE_CLASS_NR && systems[b].size == ClassSize(i)
      modifies this`systems, this`lists, this`counts, this`sizeClass, this`live
      modifies spanCache, spanCache.marks, spanCache.lists, spanCache.freeCount
      ensures Valid() && err == Ok && live == old(live) - {obj}
      ensures systems ==
        if old(LiveIn(systems[b], live)) == {obj} && old(counts[i]) + 1 >= MAX_SMALL_SPAN_THRESOLD
        then old(systems) - {b} else old(systems)[b := Returned(old(systems)[b], obj)]
      ensures GivenBack(old(spanCache.spans), spanCache.spans, back)
    {
      hide MarksExact, Headed, Using, Held, Listed, IsObject, SlabOk, PagesApart, ClassSize, Shared, Indexed;
      LastOne(b, systems[b], live, obj);
      IndexedLengths(lists, counts, systems, sizeClass);
      if systems[b].freeCount + 1 >= systems[b].max && counts[i] + 1 >= MAX_SMALL_SPAN_THRESOLD {
        err, back := PutSlab(i, b, obj);
      } else {
        PutObjectBack(b, obj);
        err, back := Ok, None;
      }
    }

    /** NX_HeapFree for a live small object, or for no object; `back` is what the page cache gives up for it. */
    method Free(ptr: Option<nat>) returns (err: Error, back: Option<nat>)
      requires Valid() && (ptr.Some? ==> ptr.value in live)
      modifies this`systems, this`lists, this`counts, this`sizeClass, this`live
      modifies spanCache, spanCache.marks, spanCache.lists, spanCache.freeCount
      ensures Valid()
      ensures err == if ptr.None? then Inval else Ok
      ensures live == if ptr.None? then old(live) else old(live) - {ptr.value}
      ensures forall b :: b in old(systems) && b !in systems ==>
        ptr.Some? && old(LiveIn(systems[b], live)) == {ptr.value}
      ensures GivenBack(old(spanCache.spans), spanCache.spans, back)
    {
      hide MarksExact, Headed, Using, Held, Listed, IsObject, SlabOk, PagesApart, ClassSize, Safe, Shared;
      if ptr.None? {
        return Inval, None;
      }
      var obj := ptr.value;
      var b := SlabOf(obj);
      ClassOfSlab(lists, counts, systems, sizeClass, b);
      var size := sizeClass[b];
      if size == 0 {
        return Fault, None;
      }
      var i := SizeToCache(sizes, size);
      ClassItself(i, size);
      err, back := PutFreeSmallCacheObject(i, b, obj);
    }
  }

  /** The size marked for a slab is a class, which the search for it finds again. */
  lemma ClassOfSlab(lists: seq<seq<nat>>, counts: seq<nat>, systems: Systems, sizeClass: map<nat, nat>, b: nat)
    requires Indexed(lists, counts, systems, sizeClass) && b in systems
    ensures b in sizeClass && sizeClass[b] == systems[b].size && 0 < sizeClass[b] <= MAX_SMALL_OBJECT_SIZE
    ensures exists i: nat :: i < MAX_SIZE_CLASS_NR && ClassSize(i) == sizeClass[b]
  {
    hide ClassSize;
    assert InItsList(lists, b, systems[b].size);
    var k: nat :| k < MAX_SIZE_CLASS_NR && b in lists[k] && ClassSize(k) == systems[b].size;
    ClassLandmarks();
    if k < 95 { ClassesIncrease(k, 95); }
  }

  lemma ClassItself(i: nat, size: nat)
    requires IsClassOf(i, size) && exists k: nat :: k < MAX_SIZE_CLASS_NR && ClassSize(k) == size
    ensures ClassSize(i) == size
  {
    hide ClassSize;
    var k: nat :| k < MAX_SIZE_CLASS_NR && ClassSize(k) == size;
    ClassUnique(i, k, size);
  }

  lemma ListOfSlab(lists: seq<seq<nat>>, counts: seq<nat>, systems: Systems, sizeClass: map<nat, nat>, i: nat, b: nat)
    requires Indexed(lists, counts, systems, sizeClass) && b in systems
    requires i < MAX_SIZE_CLASS_NR && systems[b].size == ClassSize(i)
    ensures b in lists[i]
  {
    hide ClassSize;
    assert InItsList(lists, b, systems[b].size);
    var k: nat :| k < MAX_SIZE_CLASS_NR && b in lists[k] && ClassSize(k) == systems[b].size;
    SameClass(i, k);
  }

  /** The page of an object leads to the base of its slab. */
  lemma PageOfObject(marks: seq<Mark>, spanLists: seq<seq<nat>>, spans: Spans, systems: Systems, b: nat, a: nat)
    requires MarksExact(marks, spans) && |spanLists| == SMALL_SPAN_PAGES_MAX + 1 && Held(systems, spanLists, spans)
    requires b in systems && SlabOk(b, systems[b]) && IsObject(systems[b], a)
    ensures Inside(spans, b, a / PAGE) && a / PAGE < |marks|
  {
    ObjectPages(b, systems[b], a);
  }

  lemma SlabSpan(marks: seq<Mark>, spanLists: seq<seq<nat>>, spans: Spans, systems: Systems, b: nat)
    requires MarksExact(marks, spans) && |spanLists| == SMALL_SPAN_PAGES_MAX + 1 && Held(systems, spanLists, spans)
    requires b in systems
    ensures b < |marks| && Inside(spans, b, b) && Using(spanLists, spans, b)
    ensures forall c :: Inside(spans, c, b) ==> c == b
    ensures marks[b].idx == 0
  {
    assert Inside(spans, b, b);
    assert marks[b] == Mark(spans[b], 0);
  }

  lemma HeldAfterFree(systems: Systems, lists: seq<seq<nat>>, spans: Spans, lists': seq<seq<nat>>, spans': Spans,
      b: nat)
    requires |lists| == |lists'| == SMALL_SPAN_PAGES_MAX + 1
    requires Held(systems, lists, spans) && Freed(lists, spans, lists', spans', b)
    ensures Held(systems - {b}, lists', spans') && !Using(lists', spans', b)
  {
  }

  lemma KeepHeld(systems: Systems, spanLists: seq<seq<nat>>, spans: Spans, b: nat, s: Slab)
    requires |spanLists| == SMALL_SPAN_PAGES_MAX + 1 && Held(systems, spanLists, spans)
    requires b in systems && s.pages == systems[b].pages
    ensures Held(systems[b := s], spanLists, spans)
  {
  }

  lemma Aligned16(size: nat)
    requires 0 < size <= MAX_SMALL_OBJECT_SIZE
    ensures size <= AlignUp(size) < size + 16 && AlignUp(size) <= MAX_SMALL_OBJECT_SIZE && AlignUp(size) % 16 == 0
  {
  }

  lemma SameIndex(i: nat, j: nat, size: nat)
    requires IsClassOf(i, size) && IsClassOf(j, size)
    ensures i == j
  {
    ClassUnique(i, j, size);
    ClassUnique(j, i, size);
    SameClass(i, j);
  }

  lemma IndexedLengths(lists: seq<seq<nat>>, counts: seq<nat>, systems: Systems, sizeClass: map<nat, nat>)
    requires Indexed(lists, counts, systems, sizeClass)
    ensures |lists| == |counts| == MAX_SIZE_CLASS_NR
    ensures forall i :: 0 <= i < |lists| ==> counts[i] == |lists[i]|
  {
  }

  lemma FirstStart(b: nat, size: nat)
    requires size > 0
    ensures FirstObject(b, size) == b * PAGE + HeaderPlaces(size) * size
    ensures ObjectAt(FirstObject(b, size), size, 0) == FirstObject(b, size)
  {
  }

  lemma NextObject(start: nat, size: nat, k: nat)
    requires size > 0
    ensures ObjectAt(start, size, k + 1) == ObjectAt(start, size, k) + size
  {
  }

  /** A cached span of 128 pages is taken for a slab of 256: the size guarantee of the heap is lost. */
  method ShortSpanRun() returns (r: HeapResult)
    ensures r == SpanTooShort
  {
    hide Safe, Indexed, MarksExact, Headed, ClassSize, Held;
    var c := new Cache(1024);
    assert c.lists[Slot(128)] == [];
    var span := c.Alloc(128, Some(0));
    assert Inside(c.spans, 0, 0) && c.InUse(0);
    SpanAtZero(c.marks[..], c.spans);
    var err, back := c.Free(0);
    assert 0 in c.lists[Slot(128)] && c.spans[0] == 128;
    var h := new Heap(c);
    ClassLandmarks();
    ClassesIncrease(94, 95);
    assert AlignUp(MAX_SMALL_OBJECT_SIZE) == MAX_SMALL_OBJECT_SIZE && IsClassOf(95, MAX_SMALL_OBJECT_SIZE);
    assert h.AllTaken(95);
    r := h.Alloc(MAX_SMALL_OBJECT_SIZE, None);
  }

  lemma SpanAtZero(marks: seq<Mark>, spans: Spans)
    requires MarksExact(marks, spans) && Inside(spans, 0, 0) && |marks| > 0
    ensures marks[0].idx == 0 && forall b :: Inside(spans, b, 0) ==> b == 0
  {
  }
}
