/** The user address space: a list of mappings edited in place by map, unmap and the heap break,
    proved against the plain page map of VmList. */
module Vmspace {
  import opened VmList

  const PAGE_ATTR_USER: nat := 7 // present, writable, user (src/arch/x86/include/arch/mmu.h)
  const WORD: int := 0x1_0000_0000_0000_0000 // 2^64
  const HEAP_LABEL := Label(PAGE_ATTR_USER, 0)

  datatype Error = NoMem | Inval | Fault
  datatype Result<T> = Ok(value: T) | Err(error: Error)

  function AlignDown(a: nat): (r: nat)
    ensures r % PAGE_SIZE == 0 && r <= a < r + PAGE_SIZE
  {
    a - a % PAGE_SIZE
  }

  function AlignUp(a: nat): (r: nat)
    ensures r % PAGE_SIZE == 0 && a <= r < a + PAGE_SIZE
  {
    AlignDown(a + (PAGE_SIZE - 1))
  }

  /** What VmspaceCheckAddrCollisions tests of one node: an endpoint of the request lies in it. */
  predicate EndpointIn(n: Node, start: int, end: int) {
    (n.start <= start < n.end) || (n.start < end <= n.end)
  }

  /** The node lies strictly inside the request. */
  predicate Surrounds(n: Node, start: int, end: int) {
    start < n.start && n.end < end
  }

  lemma EndpointTestMisses(n: Node, start: int, end: int)
    requires n.start < n.end && start < end
    ensures Overlaps(n, start, end) <==> EndpointIn(n, start, end) || Surrounds(n, start, end)
  {
  }

  ghost predicate SurroundsSome(ns: seq<Node>, start: int, end: int) {
    exists i :: 0 <= i < |ns| && Surrounds(ns[i], start, end)
  }

  /** The whole of [start, end) is unmapped. */
  ghost predicate Unmapped(ns: seq<Node>, start: int, end: int) {
    forall a: int :: start <= a < end ==> At(ns, a) == None
  }

  lemma UnmappedMeansNoOverlap(ns: seq<Node>, start: int, end: int)
    requires Sorted(ns) && start < end
    ensures Unmapped(ns, start, end) <==> forall i :: 0 <= i < |ns| ==> !Overlaps(ns[i], start, end)
  {
    if Unmapped(ns, start, end) {
      forall i | 0 <= i < |ns| ensures !Overlaps(ns[i], start, end) {
        var a := if ns[i].start < start then start else ns[i].start;
        if Overlaps(ns[i], start, end) {
          assert At(ns, a) == None;
          AtNode(ns, i, a);
        }
      }
    }
  }

  class Space {
    var nodes: seq<Node>      // spaceNodeList
    const spaceBase: nat
    const spaceTop: nat
    const heapStart: nat
    const heapEnd: nat
    var heapCurrent: nat
    const mapStart: nat
    const mapEnd: nat
    const hasTable: bool      // mmu.table is set

    ghost predicate Valid()
      reads this
    {
      ListOk(nodes)
    }

    constructor (base: nat, top: nat, heap0: nat, heap1: nat, map0: nat, map1: nat, table: bool)
      ensures Valid() && nodes == [] && heapCurrent == heap0
      ensures spaceBase == base && spaceTop == top && heapStart == heap0 && heapEnd == heap1
      ensures mapStart == map0 && mapEnd == map1 && hasTable == table
    {
      nodes := [];
      spaceBase, spaceTop := base, top;
      heapStart, heapEnd, heapCurrent := heap0, heap1, heap0;
      mapStart, mapEnd := map0, map1;
      hasTable := table;
    }

    /** Inserts after the node with the greatest end at or below the new start, or at the head. */
    method InsertLinearOrder(node: Node) returns (k: nat)
      requires Sorted(nodes)
      modifies this`nodes
      ensures k <= |old(nodes)| && nodes == Insert(old(nodes), k, node)
      ensures forall i :: 0 <= i < k ==> old(nodes)[i].end <= node.start
      ensures forall i :: k <= i < |old(nodes)| ==> node.start < old(nodes)[i].end
    {
      var prev := -1;
      for i := 0 to |nodes|
        invariant -1 <= prev < i && nodes == old(nodes)
        invariant prev >= 0 ==> nodes[prev].end <= node.start
        invariant forall j :: 0 <= j < i && nodes[j].end <= node.start ==> j <= prev
      {
        if nodes[i].end <= node.start {
          if prev < 0 {
            prev := i;
          } else if nodes[i].end > nodes[prev].end {
            prev := i;
          }
        }
      }
      k := prev + 1;
      if prev >= 0 {
        forall j | 0 <= j < k ensures nodes[j].end <= node.start { InOrder(nodes, j, prev); }
      }
      nodes := Insert(nodes, k, node);
    }

    /** Joins node k with a touching predecessor of the same attributes, if there is one. */
    method MergePrev(at: nat) returns (k: nat)
      requires at < |nodes| && NonEmpty(nodes)
      modifies this`nodes
      ensures k < |nodes| && Joined(old(nodes), nodes, at, k)
      ensures old(Sorted(nodes) && Unmergeable(nodes, at - 1, at + 1)) ==> Unmergeable(nodes, k, k + 1)
    {
      hide Sorted, PageAligned, NonEmpty, At, Kept, SameMap;
      ghost var ns := nodes;
      k := at;
      var i := 0;
      while i < |nodes| && !Mergeable(nodes[i], nodes[k])
        invariant i <= |nodes| && nodes == ns
        invariant forall j :: 0 <= j < i ==> !Mergeable(ns[j], ns[k])
      {
        i := i + 1;
      }
      if i == |nodes| {
        NothingJoined(ns, k);
      } else {
        JoinPrevOk(ns, k, i);
        nodes := nodes[k := nodes[k].(start := nodes[i].start)];
        nodes := Remove(nodes, i);
        if i < k { k := k - 1; }
      }
    }

    /** Joins node k with a touching successor of the same attributes, if there is one. */
    method MergeNext(at: nat) returns (k: nat)
      requires at < |nodes| && NonEmpty(nodes)
      modifies this`nodes
      ensures k < |nodes| && Joined(old(nodes), nodes, at, k)
      ensures old(Sorted(nodes) && Unmergeable(nodes, at, at + 1)) ==> Unmergeable(nodes, 0, 0)
    {
      hide Sorted, PageAligned, NonEmpty, At, Kept, SameMap;
      ghost var ns := nodes;
      k := at;
      var i := 0;
      while i < |nodes| && !Mergeable(nodes[k], nodes[i])
        invariant i <= |nodes| && nodes == ns
        invariant forall j :: 0 <= j < i ==> !Mergeable(ns[k], ns[j])
      {
        i := i + 1;
      }
      if i == |nodes| {
        NothingJoined(ns, k);
      } else {
        JoinNextOk(ns, k, i);
        nodes := nodes[k := nodes[k].(end := nodes[i].end)];
        nodes := Remove(nodes, i);
        if i < k { k := k - 1; }
      }
    }

    /** VmspaceMergeNode: both joins. */
    method MergeNode(at: nat) returns (k: nat)
      requires at < |nodes| && NonEmpty(nodes)
      modifies this`nodes
      ensures k < |nodes| && nodes[k].start <= old(nodes)[at].start && old(nodes)[at].end <= nodes[k].end
      ensures forall n :: n in old(nodes) && Surrounds(n, old(nodes)[at].start, old(nodes)[at].end) ==> n in nodes
      ensures old(Sorted(nodes)) ==> Sorted(nodes) && SameMap(nodes, old(nodes))
      ensures old(Sorted(nodes) && PageAligned(nodes) && Unmergeable(nodes, at - 1, at + 1)) ==> ListOk(nodes)
    {
      hide Sorted, PageAligned, Unmergeable, At;
      ghost var ns := nodes;
      k := MergePrev(at);
      ghost var ms := nodes;
      forall n | n in ns && Surrounds(n, ns[at].start, ns[at].end)
        ensures n in ms && n != ms[k] && n.end != ms[k].start && n.start != ms[k].end
      {
        InList(ns, n);
      }
      k := MergeNext(k);
      SameMapTransitive(ns, ms, nodes);
    }

    /** VmspaceSplitNode: cuts node `at` down to [start, end), its rests become nodes of their own. */
    method SplitNode(at: nat, start: nat, end: nat) returns (k: nat)
      requires Sorted(nodes) && at < |nodes| && nodes[at].start <= start < end <= nodes[at].end
      modifies this`nodes
      ensures k < |nodes| && nodes[k] == Node(start, end, old(nodes)[at].tag)
      ensures Remove(nodes, k) == CutOut(old(nodes), at, start, end)
    {
      hide Sorted, CutOut;
      ghost var ns := nodes;
      k := at;
      var node := nodes[at];
      SplitParts(ns, at, start, end);
      hide Insert, Remove;
      if node.start == start && node.end == end {
        return;
      }
      if node.start != start {
        Shrunk(ns, at, start, node.end);
        nodes := nodes[k := nodes[k].(start := start)];
        var p := InsertLinearOrder(Node(node.start, start, node.tag));
        InsertedBefore(ns, at, start, p);
        k := k + 1;
      }
      if node.end != end {
        ghost var ms := nodes;
        Shrunk(ms, k, start, end);
        nodes := nodes[k := nodes[k].(end := end)];
        var p := InsertLinearOrder(Node(end, node.end, node.tag));
        InsertedAfter(ms, k, end, p);
      }
    }

    method FindNode(start: nat, end: nat) returns (r: int)
      ensures -1 <= r < |nodes|
      ensures r >= 0 ==> nodes[r].start <= start && end <= nodes[r].end
      ensures r < 0 ==> forall i :: 0 <= i < |nodes| ==> !(nodes[i].start <= start && end <= nodes[i].end)
    {
      for i := 0 to |nodes|
        invariant forall j :: 0 <= j < i ==> !(nodes[j].start <= start && end <= nodes[j].end)
      {
        if start >= nodes[i].start && end <= nodes[i].end {
          return i;
        }
      }
      return -1;
    }

    method CheckAddrCollisions(start: nat, end: nat) returns (r: bool)
      ensures r <==> !NoEndpointIn(nodes, start, end)
    {
      for i := 0 to |nodes|
        invariant forall j :: 0 <= j < i ==> !EndpointIn(nodes[j], start, end)
      {
        if EndpointIn(nodes[i], start, end) {
          return true;
        }
      }
      return false;
    }

    predicate InMapArea(n: Node) {
      n.start >= mapStart && n.end <= mapEnd
    }

    /** A range of this size at g would overlap one of the first k nodes that is in the map area. */
    ghost predicate ClashesBefore(k: nat, g: int, size: nat)
      reads this
      requires k <= |nodes|
    {
      exists i :: 0 <= i < k && InMapArea(nodes[i]) && Overlaps(nodes[i], g, g + size)
    }

    ghost predicate Clashes(g: int, size: nat)
      reads this
    {
      ClashesBefore(|nodes|, g, size)
    }

    ghost predicate HasRoom(size: nat)
      reads this
    {
      exists g: nat :: mapStart <= g && g + size <= mapEnd && !Clashes(g, size)
    }

    /** The address first fit is after: the lowest one of the map area at which nothing there is in the way. */
    ghost predicate FirstFit(a: nat, size: nat)
      reads this
    {
      mapStart <= a && !Clashes(a, size) && forall g: int :: mapStart <= g < a ==> Clashes(g, size)
    }

    /** No place within the area even if node i, which is in it, and all later ones were not there. */
    ghost predicate FullBefore(i: nat, size: nat)
      reads this
      requires i < |nodes|
    {
      InMapArea(nodes[i]) && forall g: int :: mapStart <= g <= mapEnd - size ==> ClashesBefore(i, g, size)
    }

    ghost predicate Full(size: nat)
      reads this
    {
      exists i :: 0 <= i < |nodes| && FullBefore(i, size)
    }

    /** First fit. It gives up only when it meets a node with no room left before it; the last gap is handed out
        whatever the area's end, so the result stays inside the area exactly when there is room. */
    method GetAddrFromMapArea(size: nat) returns (r: Option<nat>)
      requires Sorted(nodes) && size > 0
      ensures r.None? <==> Full(size)
      ensures r.None? ==> !HasRoom(size)
      ensures r.Some? ==> FirstFit(r.value, size)
      ensures r.Some? ==> (r.value + size <= mapEnd <==> HasRoom(size))
    {
      var free := mapStart;
      for i := 0 to |nodes|
        invariant mapStart <= free
        invariant forall g: int :: mapStart <= g < free ==> ClashesBefore(i, g, size)
        invariant forall j :: 0 <= j < i && InMapArea(nodes[j]) ==> nodes[j].end <= free
        invariant forall j :: 0 <= j < i ==> !FullBefore(j, size)
      {
        if InMapArea(nodes[i]) {
          if free + size > mapEnd {
            assert FullBefore(i, size);
            MoreClashes(i, |nodes|, size);
            return None;
          }
          if free + size <= nodes[i].start {
            assert forall j :: i <= j < |nodes| ==> free + size <= nodes[j].start;
            NotFull(free, size);
            MoreClashes(i, |nodes|, size);
            return Some(free);
          }
          assert !ClashesBefore(i, free, size);
          ClashesUpTo(i, i + 1, free, size);
          free := nodes[i].end;
        }
        MoreClashes(i, i + 1, size);
      }
      return Some(free);
    }

    lemma ClashesUpTo(i: nat, k: nat, free: nat, size: nat)
      requires i < k <= |nodes| && InMapArea(nodes[i]) && free + size > nodes[i].start
      ensures forall g: int :: free <= g < nodes[i].end ==> ClashesBefore(k, g, size)
    {
      forall g: int | free <= g < nodes[i].end ensures ClashesBefore(k, g, size) {
        assert Overlaps(nodes[i], g, g + size);
      }
    }

    lemma MoreClashes(i: nat, k: nat, size: nat)
      requires i <= k <= |nodes|
      ensures forall g: int :: ClashesBefore(i, g, size) ==> ClashesBefore(k, g, size)
    {
    }

    lemma NotFull(free: nat, size: nat)
      requires mapStart <= free && free + size <= mapEnd && !Clashes(free, size)
      ensures !Full(size)
    {
      forall i | 0 <= i < |nodes| ensures !FullBefore(i, size) {
        MoreClashes(i, |nodes|, size);
      }
    }

    lemma FitIsUnique(a: nat, size: nat)
      requires FirstFit(a, size)
      ensures forall b: nat :: FirstFit(b, size) ==> b == a
    {
    }

    /** The node lies across a border of the map area: the search passes over it, the collision test does not. */
    predicate Straddles(n: Node) {
      n.start < mapStart < n.end || n.start < mapEnd < n.end
    }

    /** What can be in the way at the place found, in a page-aligned map area with room. */
    lemma OnlyStraddlersCollide(a: nat, size: nat, i: nat)
      requires Valid() && FirstFit(a, size) && HasRoom(size) && size > 0 && i < |nodes|
      requires mapStart % PAGE_SIZE == 0 && mapEnd % PAGE_SIZE == 0
      ensures a % PAGE_SIZE == 0 && a + AlignUp(size) <= mapEnd
      ensures Overlaps(nodes[i], a, a + AlignUp(size)) <==> EndpointIn(nodes[i], a, a + AlignUp(size))
      ensures Overlaps(nodes[i], a, a + AlignUp(size)) ==> Straddles(nodes[i])
    {
      FitIsAligned(a, size);
      AlignedFits(a, size, mapEnd);
      if Overlaps(nodes[i], a, a + AlignUp(size)) && InMapArea(nodes[i]) {
        AlignedFits(a, size, nodes[i].start);
      }
    }

    /** An automatic placement in a page-aligned map area with room: what it takes to succeed. */
    lemma PlacementCollides(a: nat, size: nat)
      requires Valid() && FirstFit(a, size) && HasRoom(size) && size > 0
      requires mapStart % PAGE_SIZE == 0 && mapEnd % PAGE_SIZE == 0
      ensures AlignDown(a) == a && !SurroundsSome(nodes, a, a + AlignUp(size))
      ensures NoEndpointIn(nodes, a, a + AlignUp(size)) <==>
        forall n :: n in nodes && Straddles(n) ==> !Overlaps(n, a, a + AlignUp(size))
    {
      var end := a + AlignUp(size);
      FitIsAligned(a, size);
      forall i | 0 <= i < |nodes|
        ensures !Surrounds(nodes[i], a, end)
        ensures EndpointIn(nodes[i], a, end) <==> Straddles(nodes[i]) && Overlaps(nodes[i], a, end)
      {
        OnlyStraddlersCollide(a, size, i);
      }
    }

    lemma FitIsAligned(a: nat, size: nat)
      requires Valid() && FirstFit(a, size) && mapStart % PAGE_SIZE == 0
      ensures a % PAGE_SIZE == 0
    {
      if a > mapStart {
        assert Clashes(a - 1, size);
        var i :| 0 <= i < |nodes| && InMapArea(nodes[i]) && Overlaps(nodes[i], a - 1, a - 1 + size);
        assert !Overlaps(nodes[i], a, a + size);
      }
    }

    /** The outcome of an automatic placement: no memory exactly when the search gives up, otherwise the page of
        the first fit unless the collision test hits a node there. */
    ghost predicate Placed(r: Result<nat>, size: nat)
      reads this
    {
      && (r == Err(NoMem) <==> Full(size))
      && (!Full(size) ==> exists a: nat :: FirstFit(a, size) && PlacedAt(nodes, r, a, size))
    }

    /** A difference of machine words, which wraps below zero. */
    static function Wrapped(x: int): (r: nat)
      ensures 0 <= x ==> r == x
      ensures -WORD <= x < 0 ==> r == x + WORD
    {
      if x >= 0 then x else x % WORD
    }

    /** Maps a page-aligned range, at vaddr or, when that is 0, in the first gap of the map area. The collision
        test misses nodes strictly inside the range, so the list stays in order exactly when there are none. The
        test against the top of the space wraps, and lets any range through that is larger than the space's top. */
    method Map(vaddr: nat, size: nat, attr: nat, flags: nat) returns (r: Result<nat>)
      requires Valid()
      modifies this`nodes
      ensures r.Err? ==> nodes == old(nodes)
      ensures vaddr != 0 ==>
        (r.Ok? <==> size > 0 && attr > 0 && spaceBase <= vaddr <= Wrapped(spaceTop - size)
                    && NoEndpointIn(old(nodes), AlignDown(vaddr), AlignDown(vaddr) + AlignUp(size)))
      ensures vaddr != 0 ==> r == Ok(AlignDown(vaddr)) || r == Err(Inval)
      ensures vaddr != 0 && r.Ok? ==> (vaddr + size <= spaceTop <==> size <= spaceTop)
      ensures vaddr == 0 ==> if size == 0 || attr == 0 then r == Err(Inval) else old(Placed(r, size))
      ensures r.Ok? ==> size > 0 && r.value % PAGE_SIZE == 0
      ensures r.Ok? ==> (Valid() <==> !SurroundsSome(old(nodes), r.value, r.value + AlignUp(size)))
      ensures r.Ok? && Valid() ==> Unmapped(old(nodes), r.value, r.value + AlignUp(size))
      ensures r.Ok? && Valid() ==> Painted(nodes, old(nodes), r.value, r.value + AlignUp(size),
        Some(Label(attr, flags)))
    {
      hide Sorted, PageAligned, Unmergeable, At, Insert, SurroundsSome;
      if size == 0 || attr == 0 {
        return Err(Inval);
      }
      if vaddr != 0 && (vaddr < spaceBase || vaddr > Wrapped(spaceTop - size)) {
        return Err(Inval);
      }
      var addr := vaddr;
      if addr == 0 {
        var found := GetAddrFromMapArea(size);
        if found.None? {
          return Err(NoMem);
        }
        addr := found.value;
      }
      var start, end := AlignDown(addr), AlignDown(addr) + AlignUp(size);
      var collides := CheckAddrCollisions(start, end);
      if collides {
        return Err(Inval);
      }
      ghost var ns := nodes;
      var node := Node(start, end, Label(attr, flags));
      var k := InsertLinearOrder(node);
      ghost var ms := nodes;
      InsertedNonEmpty(ns, k, node);
      var at := MergeNode(k);
      if SurroundsSome(ns, start, end) {
        MapDisorders(ns, k, node, nodes, at);
      } else {
        MapPaints(ns, k, node);
        PaintedTransfer(nodes, ms, ns, start, end, Some(node.tag));
      }
      return Ok(start);
    }

    /** Unmaps a page-aligned range; refused exactly when the range is not mapped throughout with one label. */
    method Unmap(addr: nat, size: nat) returns (r: Result<nat>)
      requires Valid()
      modifies this`nodes
      ensures Valid()
      ensures r.Err? ==> nodes == old(nodes)
      ensures r == Err(Inval) <==>
        || addr == 0 || size == 0 || addr % PAGE_SIZE != 0
        || addr < spaceBase || addr >= spaceTop || addr + size > spaceTop
      ensures r == Err(Fault) ==> !Uniform(old(nodes), addr, addr + AlignUp(size))
      ensures r.Ok? ==> Uniform(old(nodes), addr, addr + AlignUp(size))
      ensures r.Ok? ==> Painted(nodes, old(nodes), addr, addr + AlignUp(size), None)
      ensures r.Err? ==> r.error == Inval || r.error == Fault
    {
      hide Sorted, PageAligned, Unmergeable, At, CutOut, Painted, Uniform, AlignUp, Remove;
      if addr == 0 || size == 0 {
        return Err(Inval);
      }
      if addr % PAGE_SIZE != 0 || addr < spaceBase || addr >= spaceTop || addr + size > spaceTop {
        return Err(Inval);
      }
      var end := addr + AlignUp(size);
      var k := FindNode(addr, end);
      OneNodeIffUniform(nodes, addr, end);
      if k < 0 {
        return Err(Fault);
      }
      CutOutPaints(nodes, k, addr, end);
      k := SplitNode(k, addr, end);
      nodes := Remove(nodes, k);
      return Ok(addr);
    }

    /** All pages below the heap break are mapped, none from there to the end of the heap area. */
    ghost predicate HeapOk()
      reads this
    {
      && 0 < heapStart && heapStart % PAGE_SIZE == 0 && heapEnd % PAGE_SIZE == 0
      && spaceBase <= heapStart <= heapEnd <= spaceTop
      && heapStart <= heapCurrent && (heapCurrent < heapEnd || heapCurrent == heapStart)
      && UniformAs(nodes, heapStart, AlignUp(heapCurrent), HEAP_LABEL)
      && Unmapped(nodes, AlignUp(heapCurrent), heapEnd)
    }

    /** Moves the heap break. With the heap in order every break inside the area succeeds, up or down. */
    method UpdateHeap(virAddr: nat) returns (r: Result<nat>)
      requires Valid() && HeapOk()
      modifies this`nodes, this`heapCurrent
      ensures Valid() && HeapOk()
      ensures r == (if !hasTable then Err(Fault)
                    else if virAddr == 0 then Ok(old(heapCurrent))
                    else if virAddr < heapStart then Err(Inval)
                    else if virAddr >= heapEnd then Err(NoMem)
                    else Ok(virAddr))
      ensures heapCurrent == if r.Ok? then r.value else old(heapCurrent)
      ensures SameOutside(nodes, old(nodes), heapStart, heapEnd)
    {
      hide Sorted, PageAligned, Unmergeable, At, UniformAs, Unmapped, Painted, Uniform, NoEndpointIn, SurroundsSome;
      hide Placed, AlignUp, AlignDown;
      if !hasTable {
        return Err(Fault);
      }
      if virAddr == 0 {
        return Ok(heapCurrent);
      }
      if virAddr < heapStart {
        return Err(Inval);
      }
      if virAddr >= heapEnd {
        return Err(NoMem);
      }
      var newHeap, oldHeap := AlignUp(virAddr), AlignUp(heapCurrent);
      AlignUpBelow(virAddr, heapEnd);
      AlignUpBelow(heapCurrent, heapEnd);
      ghost var ns := nodes;
      if newHeap > oldHeap {
        UnmappedPart(nodes, oldHeap, heapEnd, newHeap);
        NothingInTheWay(nodes, oldHeap, newHeap);
        ExactRange(oldHeap, newHeap);
        var mapped := Map(oldHeap, newHeap - oldHeap, PAGE_ATTR_USER, 0);
        if mapped.Err? {
          return mapped;
        }
        HeapPainted(nodes, ns, heapStart, oldHeap, oldHeap, newHeap, newHeap, heapEnd, Some(HEAP_LABEL));
      } else if newHeap < oldHeap {
        UniformPart(nodes, heapStart, oldHeap, newHeap, HEAP_LABEL);
        ExactRange(newHeap, oldHeap);
        var unmapped := Unmap(newHeap, oldHeap - newHeap);
        if unmapped.Err? {
          return unmapped;
        }
        HeapPainted(nodes, ns, heapStart, newHeap, newHeap, oldHeap, oldHeap, heapEnd, None);
      }
      heapCurrent := virAddr;
      return Ok(heapCurrent);
    }
  }

  ghost predicate NonEmpty(ns: seq<Node>) {
    forall i :: 0 <= i < |ns| ==> ns[i].start < ns[i].end
  }

  ghost predicate SameMap(ns: seq<Node>, was: seq<Node>) {
    forall a: int :: At(ns, a) == At(was, a)
  }

  predicate Grown(n: Node, was: Node) {
    n.start <= was.start && was.end <= n.end && n.tag == was.tag
  }

  /** Every node other than x that does not touch it is still there. */
  ghost predicate Kept(was: seq<Node>, ns: seq<Node>, x: Node) {
    forall n :: n in was && n != x && n.end != x.start && n.start != x.end ==> n in ns
  }

  lemma MergeableAreNeighbours(ns: seq<Node>, i: nat, k: nat)
    requires i < |ns| && k < |ns| && NonEmpty(ns) && Mergeable(ns[i], ns[k])
    ensures i != k && (Sorted(ns) ==> k == i + 1)
  {
    if Sorted(ns) {
      InOrder(ns, k, i);
      if i + 1 < |ns| {
        InOrder(ns, i, i + 1);
        InOrder(ns, i + 1, k);
      }
    }
  }

  /** What a join of node `at` promises, its new position being k: on any list the node has only grown and
      nodes that do not touch it are still there; on a sorted list the page map is the same. */
  ghost predicate Joined(was: seq<Node>, ns: seq<Node>, at: nat, k: nat)
    requires at < |was| && k < |ns|
  {
    && NonEmpty(ns) && Grown(ns[k], was[at]) && Kept(was, ns, was[at])
    && (Sorted(was) ==> Sorted(ns) && SameMap(ns, was) && (PageAligned(was) ==> PageAligned(ns)))
  }

  lemma NothingJoined(ns: seq<Node>, k: nat)
    requires NonEmpty(ns) && k < |ns|
    ensures Joined(ns, ns, k, k)
  {
  }

  lemma JoinPrevOk(ns: seq<Node>, k: nat, i: nat)
    requires NonEmpty(ns) && k < |ns| && i < |ns| && Mergeable(ns[i], ns[k])
    ensures i != k
    ensures var r := Remove(ns[k := ns[k].(start := ns[i].start)], i); var k' := if i < k then k - 1 else k;
      && k' < |r| && Joined(ns, r, k, k')
      && (Sorted(ns) && Unmergeable(ns, k - 1, k + 1) ==> Unmergeable(r, k', k' + 1))
  {
    hide Remove, Sorted, PageAligned, SameMap, Kept, Unmergeable;
    MergeableAreNeighbours(ns, i, k);
    RemoveView(ns[k := ns[k].(start := ns[i].start)], i);
    var r := Remove(ns[k := ns[k].(start := ns[i].start)], i);
    KeptByJoin(ns, r, k, i);
    JoinedNonEmpty(ns, ns[k].(start := ns[i].start), k, i);
    if Sorted(ns) { SortedJoin(ns, i, r); }
  }

  lemma JoinNextOk(ns: seq<Node>, k: nat, i: nat)
    requires NonEmpty(ns) && k < |ns| && i < |ns| && Mergeable(ns[k], ns[i])
    ensures i != k
    ensures var r := Remove(ns[k := ns[k].(end := ns[i].end)], i); var k' := if i < k then k - 1 else k;
      && k' < |r| && Joined(ns, r, k, k')
      && (Sorted(ns) && Unmergeable(ns, k, k + 1) ==> Unmergeable(r, 0, 0))
  {
    hide Remove, Sorted, PageAligned, SameMap, Kept, Unmergeable;
    MergeableAreNeighbours(ns, k, i);
    RemoveView(ns[k := ns[k].(end := ns[i].end)], i);
    var r := Remove(ns[k := ns[k].(end := ns[i].end)], i);
    KeptByJoin(ns, r, k, i);
    JoinedNonEmpty(ns, ns[k].(end := ns[i].end), k, i);
    if Sorted(ns) { SortedJoin(ns, k, r); }
  }

  lemma SortedJoin(ns: seq<Node>, k: nat, r: seq<Node>)
    requires Sorted(ns) && k + 1 < |ns| && Mergeable(ns[k], ns[k + 1])
    requires r == Remove(ns[k + 1 := ns[k + 1].(start := ns[k].start)], k)
      || r == Remove(ns[k := ns[k].(end := ns[k + 1].end)], k + 1)
    ensures Sorted(r) && SameMap(r, ns) && (PageAligned(ns) ==> PageAligned(r))
    ensures Unmergeable(ns, k, k + 2) ==> Unmergeable(r, k, k + 1)
    ensures Unmergeable(ns, k, k + 1) ==> Unmergeable(r, 0, 0)
  {
    assert r == Join(ns, k);
    JoinSorted(ns, k);
    JoinUnmergeable(ns, k);
    JoinKeepsMap(ns, k);
  }

  lemma JoinedNonEmpty(ns: seq<Node>, n: Node, k: nat, i: nat)
    requires NonEmpty(ns) && k < |ns| && i < |ns| && i != k && n.start < n.end
    ensures var r := Remove(ns[k := n], i); NonEmpty(r) && r[if i < k then k - 1 else k] == n
  {
  }

  lemma KeptByJoin(ns: seq<Node>, after: seq<Node>, k: nat, i: nat)
    requires k < |ns| && i < |ns| && i != k && (Mergeable(ns[i], ns[k]) || Mergeable(ns[k], ns[i]))
    requires |after| == |ns| - 1
    requires forall j :: 0 <= j < |ns| && j != i && j != k ==> after[if j < i then j else j - 1] == ns[j]
    ensures Kept(ns, after, ns[k])
  {
    forall n | n in ns && n != ns[k] && n.end != ns[k].start && n.start != ns[k].end ensures n in after {
      var j :| 0 <= j < |ns| && ns[j] == n;
      assert after[if j < i then j else j - 1] == n;
    }
  }

  lemma InList(ns: seq<Node>, n: Node)
    requires NonEmpty(ns) && n in ns
    ensures n.start < n.end
  {
  }

  lemma SameMapTransitive(ns: seq<Node>, ms: seq<Node>, ls: seq<Node>)
    ensures SameMap(ms, ns) && SameMap(ls, ms) ==> SameMap(ls, ns)
  {
  }

  lemma InsertedNonEmpty(ns: seq<Node>, k: nat, n: Node)
    requires Sorted(ns) && k <= |ns| && n.start < n.end
    ensures NonEmpty(ns) && NonEmpty(Insert(ns, k, n)) && k < |Insert(ns, k, n)| && Insert(ns, k, n)[k] == n
  {
    var r := Insert(ns, k, n);
    assert forall i :: 0 <= i < |r| ==> r[i] == (if i < k then ns[i] else if i == k then n else ns[i - 1]);
  }

  lemma InsertedBefore(ns: seq<Node>, at: nat, start: nat, p: nat)
    requires Sorted(ns) && at < |ns| && ns[at].start < start < ns[at].end
    requires var ms := ns[at := ns[at].(start := start)];
      && p <= |ms| && (forall i :: 0 <= i < p ==> ms[i].end <= ns[at].start)
      && (forall i :: p <= i < |ms| ==> ns[at].start < ms[i].end)
    ensures p == at && Sorted(Insert(ns[at := ns[at].(start := start)], at, Node(ns[at].start, start, ns[at].tag)))
  {
    var ms := ns[at := ns[at].(start := start)];
    assert ms[at].end == ns[at].end;
    Shrunk(ns, at, start, ns[at].end);
    if p < |ns| { InOrder(ns, p, at); }
    assert Fits(ms, at, Node(ns[at].start, start, ns[at].tag));
    InsertSorted(ms, at, Node(ns[at].start, start, ns[at].tag));
  }

  lemma InsertedAfter(ns: seq<Node>, at: nat, end: nat, p: nat)
    requires Sorted(ns) && at < |ns| && ns[at].start < end < ns[at].end
    requires var ms := ns[at := ns[at].(end := end)];
      && p <= |ms| && (forall i :: 0 <= i < p ==> ms[i].end <= end)
      && (forall i :: p <= i < |ms| ==> end < ms[i].end)
    ensures p == at + 1
  {
    var ms := ns[at := ns[at].(end := end)];
    assert ms[at].end == end;
    if at + 1 < |ns| {
      assert ms[at + 1] == ns[at + 1];
      InOrder(ns, at, at + 1);
    }
  }

  lemma Shrunk(ns: seq<Node>, at: nat, start: nat, end: nat)
    requires Sorted(ns) && at < |ns| && ns[at].start <= start < end <= ns[at].end
    ensures Sorted(ns[at := Node(start, end, ns[at].tag)])
  {
  }

  lemma SplitParts(ns: seq<Node>, at: nat, start: nat, end: nat)
    requires at < |ns| && ns[at].start <= start < end <= ns[at].end
    ensures var n := ns[at];
      var ms := if n.start == start then ns
        else Insert(ns[at := Node(start, n.end, n.tag)], at, Node(n.start, start, n.tag));
      var k := if n.start == start then at else at + 1;
      var ls := if n.end == end then ms else Insert(ms[k := Node(start, end, n.tag)], k + 1, Node(end, n.end, n.tag));
      && |ms| > k && ms[k] == Node(start, n.end, n.tag) && ls[k] == Node(start, end, n.tag)
      && Remove(ls, k) == CutOut(ns, at, start, end)
  {
    hide Insert, Remove;
    var n, q := ns[at], ns[at + 1..];
    var mid, cut := Node(start, n.end, n.tag), Node(start, end, n.tag);
    var p := if n.start == start then ns[..at] else ns[..at] + [Node(n.start, start, n.tag)];
    if n.start == start {
      assert ns == p + [mid] + q;
    } else {
      FrontPart(ns, at, mid, Node(n.start, start, n.tag));
    }
    if n.end == end {
      NoBackPart(p, mid, q);
      assert CutOut(ns, at, start, end) == p + q;
    } else {
      BackPart(p, mid, q, cut, Node(end, n.end, n.tag));
      assert CutOut(ns, at, start, end) == p + [Node(end, n.end, n.tag)] + q;
    }
  }

  lemma FrontPart(ns: seq<Node>, at: nat, mid: Node, part: Node)
    requires at < |ns|
    ensures Insert(ns[at := mid], at, part) == ns[..at] + [part] + [mid] + ns[at + 1..]
  {
  }

  lemma BackPart(p: seq<Node>, x: Node, q: seq<Node>, cut: Node, part: Node)
    ensures var ms := p + [x] + q;
      var ls := Insert(ms[|p| := cut], |p| + 1, part);
      && ms[|p|] == x && |ls| == |p| + 2 + |q| && ls[|p|] == cut && Remove(ls, |p|) == p + [part] + q
  {
  }

  lemma NoBackPart(p: seq<Node>, x: Node, q: seq<Node>)
    ensures (p + [x] + q)[|p|] == x && Remove(p + [x] + q, |p|) == p + q
  {
  }

  ghost predicate NoEndpointIn(ns: seq<Node>, start: int, end: int) {
    forall i :: 0 <= i < |ns| ==> !EndpointIn(ns[i], start, end)
  }

  /** What is made of an address found: its page if no node has an endpoint of the request in it. */
  ghost predicate PlacedAt(ns: seq<Node>, r: Result<nat>, a: nat, size: nat) {
    r == if NoEndpointIn(ns, AlignDown(a), AlignDown(a) + AlignUp(size)) then Ok(AlignDown(a)) else Err(Inval)
  }

  lemma AlignedFits(a: nat, size: nat, b: nat)
    requires a % PAGE_SIZE == 0 && b % PAGE_SIZE == 0 && size > 0
    ensures a + size <= b <==> a + AlignUp(size) <= b
  {
  }

  /** Inserting a range that overlaps nothing paints exactly that range. */
  lemma MapPaints(ns: seq<Node>, k: nat, n: Node)
    requires ListOk(ns) && k <= |ns| && n.start < n.end && n.start % PAGE_SIZE == 0 && n.end % PAGE_SIZE == 0
    requires forall i :: 0 <= i < k ==> ns[i].end <= n.start
    requires forall i :: k <= i < |ns| ==> n.start < ns[i].end
    requires NoEndpointIn(ns, n.start, n.end) && !SurroundsSome(ns, n.start, n.end)
    ensures var ms := Insert(ns, k, n);
      && Sorted(ms) && PageAligned(ms) && Unmergeable(ms, k - 1, k + 1)
      && Painted(ms, ns, n.start, n.end, Some(n.tag)) && Unmapped(ns, n.start, n.end)
  {
    forall i | 0 <= i < |ns| ensures !Overlaps(ns[i], n.start, n.end) {
      assert !Surrounds(ns[i], n.start, n.end) && !EndpointIn(ns[i], n.start, n.end);
      EndpointTestMisses(ns[i], n.start, n.end);
    }
    assert Fits(ns, k, n);
    InsertPaints(ns, k, n);
    UnmappedMeansNoOverlap(ns, n.start, n.end);
    InsertAligned(ns, k, n);
  }

  lemma InsertAligned(ns: seq<Node>, k: nat, n: Node)
    requires PageAligned(ns) && k <= |ns| && n.start % PAGE_SIZE == 0 && n.end % PAGE_SIZE == 0
    ensures PageAligned(Insert(ns, k, n))
  {
    var r := Insert(ns, k, n);
    assert forall i :: 0 <= i < |r| ==> r[i] == (if i < k then ns[i] else if i == k then n else ns[i - 1]);
  }

  /** A surrounded node stays in the list and overlaps the new one. */
  lemma MapDisorders(ns: seq<Node>, k: nat, n: Node, after: seq<Node>, at: nat)
    requires k <= |ns| && at < |after| && after[at].start <= n.start && n.end <= after[at].end
    requires NonEmpty(ns) && SurroundsSome(ns, n.start, n.end)
    requires forall m :: m in Insert(ns, k, n) && Surrounds(m, n.start, n.end) ==> m in after
    ensures !Sorted(after)
  {
    var i :| 0 <= i < |ns| && Surrounds(ns[i], n.start, n.end);
    assert ns[i] == Insert(ns, k, n)[if i < k then i else i + 1];
    var j :| 0 <= j < |after| && after[j] == ns[i];
    if Sorted(after) {
      InOrder(after, at, j);
      InOrder(after, j, at);
    }
  }

  lemma PaintedTransfer(ns: seq<Node>, ms: seq<Node>, was: seq<Node>, start: int, end: int, what: Option<Label>)
    requires SameMap(ns, ms) && Painted(ms, was, start, end, what)
    ensures Painted(ns, was, start, end, what)
  {
    forall a: int ensures At(ns, a) == if start <= a < end then what else At(was, a) {
      assert At(ns, a) == At(ms, a);
    }
  }

  ghost predicate SameOutside(ns: seq<Node>, was: seq<Node>, lo: int, hi: int) {
    forall a: int :: !(lo <= a < hi) ==> At(ns, a) == At(was, a)
  }

  lemma AlignUpBelow(a: nat, end: nat)
    requires end % PAGE_SIZE == 0
    ensures a <= end ==> AlignUp(a) <= end
  {
  }

  lemma ExactRange(start: nat, end: nat)
    requires start % PAGE_SIZE == 0 && end % PAGE_SIZE == 0 && start <= end
    ensures AlignDown(start) == start && AlignUp(end - start) == end - start && start + AlignUp(end - start) == end
  {
  }

  lemma OneNodeIffUniform(ns: seq<Node>, start: int, end: int)
    requires ListOk(ns) && start < end
    ensures Uniform(ns, start, end) <==> exists i :: 0 <= i < |ns| && ns[i].start <= start && end <= ns[i].end
  {
    if Uniform(ns, start, end) {
      var t :| UniformAs(ns, start, end, t);
      var i := UniformRangeInOneNode(ns, start, end, t);
    }
    if i :| 0 <= i < |ns| && ns[i].start <= start && end <= ns[i].end {
      forall a: int | start <= a < end ensures At(ns, a) == Some(ns[i].tag) { AtNode(ns, i, a); }
      assert UniformAs(ns, start, end, ns[i].tag);
    }
  }

  lemma NothingInTheWay(ns: seq<Node>, start: int, end: int)
    requires Sorted(ns) && start < end && Unmapped(ns, start, end)
    ensures NoEndpointIn(ns, start, end) && !SurroundsSome(ns, start, end)
  {
    UnmappedMeansNoOverlap(ns, start, end);
    forall i | 0 <= i < |ns| ensures !EndpointIn(ns[i], start, end) && !Surrounds(ns[i], start, end) {
      assert !Overlaps(ns[i], start, end);
      EndpointTestMisses(ns[i], start, end);
    }
  }

  lemma UnmappedPart(ns: seq<Node>, start: int, end: int, to: int)
    requires Unmapped(ns, start, end) && start <= to <= end
    ensures Unmapped(ns, start, to) && Unmapped(ns, to, end)
  {
  }

  lemma UniformPart(ns: seq<Node>, start: int, end: int, from: int, t: Label)
    requires UniformAs(ns, start, end, t) && start <= from <= end
    ensures UniformAs(ns, from, end, t) && UniformAs(ns, start, from, t) && Uniform(ns, from, end)
  {
    assert UniformAs(ns, from, end, t);
  }

  /** Repainting the pages between the two breaks leaves the heap uniform below and empty above. */
  lemma HeapPainted(ns: seq<Node>, was: seq<Node>, lo: int, m0: int, p0: int, p1: int, m1: int, hi: int,
      what: Option<Label>)
    requires Painted(ns, was, p0, p1, what) && lo <= m0 == p0 <= p1 == m1 <= hi
    requires UniformAs(was, lo, m0, HEAP_LABEL) && Unmapped(was, m1, hi)
    ensures what == Some(HEAP_LABEL) ==> UniformAs(ns, lo, p1, HEAP_LABEL) && Unmapped(ns, p1, hi)
    ensures what == None ==> UniformAs(ns, lo, p0, HEAP_LABEL) && Unmapped(ns, p0, hi)
    ensures SameOutside(ns, was, lo, hi)
  {
  }

  /** A concrete request the collision test lets through although the page at 8192 is mapped. */
  lemma CollisionTestIsIncomplete()
    ensures var ns := [Node(8192, 12288, HEAP_LABEL)];
      ListOk(ns) && NoEndpointIn(ns, 4096, 16384) && !Unmapped(ns, 4096, 16384) && SurroundsSome(ns, 4096, 16384)
  {
    var ns := [Node(8192, 12288, HEAP_LABEL)];
    assert Surrounds(ns[0], 4096, 16384);
    AtNode(ns, 0, 8192);
  }

  /** A range of 4 GB is mapped in a space that ends below 2 GB. */
  method MappedPastTop() returns (space: Space, r: Result<nat>)
    ensures space.spaceTop == 0x7fff_0000 && r == Ok(0x1000)
    ensures UniformAs(space.nodes, 0x1000, 0x1_0000_1000, Label(1, 0))
  {
    hide Sorted, PageAligned, Unmergeable, At, Painted;
    space := new Space(0x1000, 0x7fff_0000, 4096, 4096, 4096, 8192, true);
    ExactRange(0x1000, 0x1_0000_1000);
    assert !SurroundsSome([], 0x1000, 0x1_0000_1000);
    r := space.Map(0x1000, 0x1_0000_0000, 1, 0);
    PaintedUniform(space.nodes, 0x1000, 0x1_0000_1000, Label(1, 0));
  }

  lemma PaintedUniform(ns: seq<Node>, start: int, end: int, t: Label)
    requires Painted(ns, [], start, end, Some(t))
    ensures UniformAs(ns, start, end, t)
  {
  }

  /** In a map area of one page the second page placed automatically lands behind the area. */
  method PlacedBehindArea() returns (space: Space, first: Result<nat>, second: Result<nat>)
    ensures space.mapStart == 4096 && space.mapEnd == 8192
    ensures first == Ok(4096) && second == Ok(8192)
  {
    hide Sorted, PageAligned, Unmergeable, At, Painted;
    space := new Space(0, 0x10_0000, 4096, 4096, 4096, 8192, true);
    assert space.FirstFit(4096, 4096);
    first := space.Map(0, 4096, 1, 0);
    OnlyNode(space.nodes, 4096, 8192, Label(1, 0));
    assert space.FirstFit(8192, 4096) by {
      forall g: int | 4096 <= g < 8192 ensures space.Clashes(g, 4096) {
        assert space.InMapArea(space.nodes[0]) && Overlaps(space.nodes[0], g, g + 4096);
      }
    }
    assert !space.ClashesBefore(0, 4096, 4096) && !space.FullBefore(0, 4096) && !space.Full(4096);
    ExactRange(8192, 12288);
    assert NoEndpointIn(space.nodes, 8192, 12288) && PlacedAt(space.nodes, Ok(8192), 8192, 4096);
    space.FitIsUnique(8192, 4096);
    second := space.Map(0, 4096, 1, 0);
  }

  lemma OnlyNode(ns: seq<Node>, start: nat, end: nat, t: Label)
    requires ListOk(ns) && Painted(ns, [], start, end, Some(t))
    requires start < end && start % PAGE_SIZE == 0 && end % PAGE_SIZE == 0
    ensures ns == [Node(start, end, t)]
  {
    var ms := [Node(start, end, t)];
    forall a: int ensures At(ns, a) == At(ms, a) {
      assert At([], a) == None;
      if start <= a < end { AtNode(ms, 0, a); } else { NoneCovers(ms, a); }
    }
    ListIsCanonical(ns, ms);
  }

  /** Mapping or unmapping outside the heap area leaves the heap as it was. */
  lemma HeapUndisturbed(ns: seq<Node>, was: seq<Node>, start: int, end: int, what: Option<Label>, lo: int, brk: int,
      hi: int)
    requires Painted(ns, was, start, end, what) && lo <= brk <= hi && (end <= lo || hi <= start)
    ensures UniformAs(was, lo, brk, HEAP_LABEL) <==> UniformAs(ns, lo, brk, HEAP_LABEL)
    ensures Unmapped(was, brk, hi) <==> Unmapped(ns, brk, hi)
  {
    forall a: int | lo <= a < hi ensures At(ns, a) == At(was, a) {
      assert At(ns, a) == if start <= a < end then what else At(was, a);
    }
  }
}
