/** Lists of user-space mappings as values: sorted disjoint ranges, the page map they stand for, and
    the list edits the address space is built from. */
module VmList {

  const PAGE_SIZE := 4096

  datatype Option<T> = None | Some(value: T)

  datatype Label = Label(attr: nat, flags: nat)

  /** One mapped range [start, end). */
  datatype Node = Node(start: nat, end: nat, tag: Label)

  predicate Covers(n: Node, a: int) {
    n.start <= a < n.end
  }

  predicate Overlaps(n: Node, start: int, end: int) {
    n.start < end && start < n.end
  }

  /** Index of the first node that covers the address, -1 if none does. */
  function Find(ns: seq<Node>, a: int): (i: int)
    ensures -1 <= i < |ns|
    ensures i >= 0 ==> Covers(ns[i], a)
    ensures i == -1 ==> forall j :: 0 <= j < |ns| ==> !Covers(ns[j], a)
  {
    if ns == [] then -1
    else if Covers(ns[0], a) then 0
    else
      var i := Find(ns[1..], a);
      assert forall j :: 1 <= j < |ns| ==> ns[j] == ns[1..][j - 1];
      if i < 0 then -1 else i + 1
  }

  /** The page map: what is mapped at an address. */
  function At(ns: seq<Node>, a: int): Option<Label> {
    var i := Find(ns, a);
    if i < 0 then None else Some(ns[i].tag)
  }

  /** Non-empty ranges in ascending order, none overlapping another. */
  ghost predicate Sorted(ns: seq<Node>) {
    && (forall i :: 0 <= i < |ns| ==> ns[i].start < ns[i].end)
    && (forall i, j :: 0 <= i < j < |ns| ==> ns[i].end <= ns[j].start)
  }

  ghost predicate PageAligned(ns: seq<Node>) {
    forall i :: 0 <= i < |ns| ==> ns[i].start % PAGE_SIZE == 0 && ns[i].end % PAGE_SIZE == 0
  }

  predicate Mergeable(n: Node, m: Node) {
    n.end == m.start && n.tag == m.tag
  }

  /** No two neighbours could be one node; pairs from `lo` to `hi` are under change. */
  ghost predicate Unmergeable(ns: seq<Node>, lo: int, hi: int) {
    forall i :: 0 <= i < |ns| - 1 && !(lo <= i < hi) ==> !Mergeable(ns[i], ns[i + 1])
  }

  ghost predicate ListOk(ns: seq<Node>) {
    Sorted(ns) && PageAligned(ns) && Unmergeable(ns, 0, 0)
  }

  /** The page map differs from the old one exactly on [start, end), where it is `what`. */
  ghost predicate Painted(ns: seq<Node>, was: seq<Node>, start: int, end: int, what: Option<Label>) {
    forall a: int :: At(ns, a) == if start <= a < end then what else At(was, a)
  }

  // ----- the page map of a sorted list -----

  lemma AtNode(ns: seq<Node>, i: nat, a: int)
    requires Sorted(ns) && i < |ns| && Covers(ns[i], a)
    ensures At(ns, a) == Some(ns[i].tag)
  {
    var j := Find(ns, a);
    InOrder(ns, i, j);
    InOrder(ns, j, i);
  }

  lemma InOrder(ns: seq<Node>, i: nat, j: nat)
    requires Sorted(ns) && i < |ns| && j < |ns|
    ensures i < j ==> ns[i].end <= ns[j].start
  {
  }

  function Insert(ns: seq<Node>, k: nat, n: Node): seq<Node>
    requires k <= |ns|
  {
    ns[..k] + [n] + ns[k..]
  }

  function Remove(ns: seq<Node>, k: nat): seq<Node>
    requires k < |ns|
  {
    ns[..k] + ns[k + 1..]
  }

  /** k is where a node belongs: what ends before it is on the left, what starts after it on the right. */
  ghost predicate Fits(ns: seq<Node>, k: nat, n: Node) {
    && k <= |ns| && n.start < n.end
    && (forall i :: 0 <= i < k ==> ns[i].end <= n.start)
    && (forall i :: k <= i < |ns| ==> n.end <= ns[i].start)
  }

  lemma InsertView(ns: seq<Node>, k: nat, n: Node)
    requires k <= |ns|
    ensures var r := Insert(ns, k, n);
      && |r| == |ns| + 1 && r[k] == n
      && forall i {:trigger r[i]} :: 0 <= i < |r| ==> r[i] == (if i < k then ns[i] else if i == k then n else ns[i - 1])
  {
  }

  lemma InsertSorted(ns: seq<Node>, k: nat, n: Node)
    requires Sorted(ns) && Fits(ns, k, n)
    ensures Sorted(Insert(ns, k, n))
    ensures Unmergeable(ns, 0, 0) ==> Unmergeable(Insert(ns, k, n), k - 1, k + 1)
  {
    hide Insert;
    InsertView(ns, k, n);
  }

  lemma InsertPaints(ns: seq<Node>, k: nat, n: Node)
    requires Sorted(ns) && Fits(ns, k, n)
    ensures Sorted(Insert(ns, k, n))
    ensures Painted(Insert(ns, k, n), ns, n.start, n.end, Some(n.tag))
    ensures Unmergeable(ns, 0, 0) ==> Unmergeable(Insert(ns, k, n), k - 1, k + 1)
  {
    hide Insert, Sorted, At;
    var r := Insert(ns, k, n);
    InsertSorted(ns, k, n);
    forall a: int ensures At(r, a) == if n.start <= a < n.end then Some(n.tag) else At(ns, a) {
      InsertAt(ns, k, n, a);
    }
  }

  lemma InsertAt(ns: seq<Node>, k: nat, n: Node, a: int)
    requires Sorted(ns) && Fits(ns, k, n) && Sorted(Insert(ns, k, n))
    ensures At(Insert(ns, k, n), a) == if n.start <= a < n.end then Some(n.tag) else At(ns, a)
  {
    hide Insert, Sorted;
    var r := Insert(ns, k, n);
    InsertView(ns, k, n);
    var i := Find(ns, a);
    if Covers(n, a) {
      AtNode(r, k, a);
    } else if i >= 0 {
      AtNode(r, if i < k then i else i + 1, a);
    } else {
      NoneCovers(r, a);
    }
  }

  lemma NoneCovers(ns: seq<Node>, a: int)
    requires forall j :: 0 <= j < |ns| ==> !Covers(ns[j], a)
    ensures At(ns, a) == None
  {
  }

  lemma RemoveView(ns: seq<Node>, k: nat)
    requires k < |ns|
    ensures var r := Remove(ns, k);
      |r| == |ns| - 1 && forall i {:trigger r[i]} :: 0 <= i < |r| ==> r[i] == (if i < k then ns[i] else ns[i + 1])
  {
  }

  lemma RemoveSorted(ns: seq<Node>, k: nat)
    requires Sorted(ns) && k < |ns|
    ensures Sorted(Remove(ns, k))
  {
    hide Remove;
    RemoveView(ns, k);
  }

  lemma RemovePaints(ns: seq<Node>, k: nat)
    requires Sorted(ns) && k < |ns|
    ensures Sorted(Remove(ns, k))
    ensures Painted(Remove(ns, k), ns, ns[k].start, ns[k].end, None)
  {
    hide Remove, Sorted, At;
    RemoveSorted(ns, k);
    var r := Remove(ns, k);
    forall a: int ensures At(r, a) == if ns[k].start <= a < ns[k].end then None else At(ns, a) {
      RemoveAt(ns, k, a);
    }
  }

  lemma RemoveAt(ns: seq<Node>, k: nat, a: int)
    requires Sorted(ns) && k < |ns| && Sorted(Remove(ns, k))
    ensures At(Remove(ns, k), a) == if Covers(ns[k], a) then None else At(ns, a)
  {
    hide Remove, Sorted;
    var r := Remove(ns, k);
    RemoveView(ns, k);
    var i := Find(ns, a);
    if i >= 0 && !Covers(ns[k], a) {
      AtNode(r, if i < k then i else i - 1, a);
    } else {
      if Covers(ns[k], a) { AloneCovers(ns, k, a); }
      NoneCovers(r, a);
    }
  }

  /** Joining neighbours k and k+1 of the same tag. */
  function Join(ns: seq<Node>, k: nat): seq<Node>
    requires k + 1 < |ns|
  {
    ns[..k] + [Node(ns[k].start, ns[k + 1].end, ns[k].tag)] + ns[k + 2..]
  }

  lemma JoinView(ns: seq<Node>, k: nat)
    requires k + 1 < |ns|
    ensures var r := Join(ns, k);
      && |r| == |ns| - 1 && r[k] == Node(ns[k].start, ns[k + 1].end, ns[k].tag)
      && forall i {:trigger r[i]} :: 0 <= i < |r| && i != k ==> r[i] == (if i < k then ns[i] else ns[i + 1])
  {
  }

  lemma JoinSorted(ns: seq<Node>, k: nat)
    requires Sorted(ns) && k + 1 < |ns| && Mergeable(ns[k], ns[k + 1])
    ensures Sorted(Join(ns, k)) && (PageAligned(ns) ==> PageAligned(Join(ns, k)))
  {
    hide Join;
    JoinView(ns, k);
  }

  lemma JoinUnmergeable(ns: seq<Node>, k: nat)
    requires k + 1 < |ns| && Mergeable(ns[k], ns[k + 1])
    ensures Unmergeable(ns, k, k + 2) ==> Unmergeable(Join(ns, k), k, k + 1)
    ensures Unmergeable(ns, k, k + 1) ==> Unmergeable(Join(ns, k), 0, 0)
  {
    hide Join;
    JoinView(ns, k);
  }

  lemma JoinKeepsMap(ns: seq<Node>, k: nat)
    requires Sorted(ns) && k + 1 < |ns| && Mergeable(ns[k], ns[k + 1])
    ensures forall a: int :: At(Join(ns, k), a) == At(ns, a)
  {
    var r := Join(ns, k);
    JoinSorted(ns, k);
    forall a: int ensures At(r, a) == At(ns, a) {
      JoinAt(ns, k, a);
    }
  }

  lemma JoinCovers(ns: seq<Node>, k: nat)
    requires Sorted(ns) && k + 1 < |ns|
    ensures ns[k].start < ns[k].end && ns[k + 1].start < ns[k + 1].end
  {
  }

  lemma JoinAt(ns: seq<Node>, k: nat, a: int)
    requires Sorted(ns) && k + 1 < |ns| && Mergeable(ns[k], ns[k + 1]) && Sorted(Join(ns, k))
    ensures At(Join(ns, k), a) == At(ns, a)
  {
    hide Join, Sorted;
    var r := Join(ns, k);
    JoinView(ns, k);
    JoinCovers(ns, k);
    var i := Find(ns, a);
    if i >= 0 {
      AtNode(r, if i <= k then i else i - 1, a);
    } else {
      assert !Covers(ns[k], a) && !Covers(ns[k + 1], a);
      NoneCovers(r, a);
    }
  }

  lemma NeighboursDiffer(ns: seq<Node>, i: nat)
    requires ListOk(ns)
    ensures i + 1 < |ns| ==> !Mergeable(ns[i], ns[i + 1])
  {
  }

  /** Taking [start, end) out of node k leaves up to two pieces of it. */
  function CutOut(ns: seq<Node>, k: nat, start: nat, end: nat): seq<Node>
    requires k < |ns|
  {
    var n := ns[k];
    ns[..k] + (if n.start != start then [Node(n.start, start, n.tag)] else [])
      + (if end != n.end then [Node(end, n.end, n.tag)] else []) + ns[k + 1..]
  }

  lemma CutOutView(ns: seq<Node>, k: nat, start: nat, end: nat)
    requires k < |ns| && ns[k].start <= start < end <= ns[k].end
    ensures var r, d := CutOut(ns, k, start, end), |CutOut(ns, k, start, end)| - |ns|;
      && (forall j :: 0 <= j < k ==> r[j] == ns[j])
      && (forall j {:trigger r[j]} :: k + 1 + d <= j < |r| ==> r[j] == ns[j - d])
      && -1 <= d <= 1
      && (ns[k].start < start ==> d >= 0 && r[k] == Node(ns[k].start, start, ns[k].tag))
      && (end < ns[k].end ==> d >= 0 && r[k + d] == Node(end, ns[k].end, ns[k].tag))
      && (forall j :: k <= j <= k + d ==>
            ns[k].start <= r[j].start && r[j].end <= ns[k].end && (r[j].end <= start || end <= r[j].start))
      && (d == -1 <==> ns[k].start == start && ns[k].end == end)
      && (d == 0 ==> ns[k].start == start || ns[k].end == end)
      && (d == 1 ==> ns[k].start < start && end < ns[k].end)
  {
  }

  lemma CutOutSorted(ns: seq<Node>, k: nat, start: nat, end: nat)
    requires ListOk(ns) && k < |ns| && ns[k].start <= start < end <= ns[k].end
    requires start % PAGE_SIZE == 0 && end % PAGE_SIZE == 0
    ensures ListOk(CutOut(ns, k, start, end))
  {
    hide CutOut, Sorted, PageAligned, Mergeable;
    var r := CutOut(ns, k, start, end);
    CutOutInOrder(ns, k, start, end);
    CutOutAligned(ns, k, start, end);
    forall i | 0 <= i < |r| - 1 ensures !Mergeable(r[i], r[i + 1]) {
      CutOutUnmergeable(ns, k, start, end, i);
    }
  }

  lemma CutOutInOrder(ns: seq<Node>, k: nat, start: nat, end: nat)
    requires Sorted(ns) && k < |ns| && ns[k].start <= start < end <= ns[k].end
    ensures Sorted(CutOut(ns, k, start, end))
  {
    hide CutOut;
    CutOutView(ns, k, start, end);
  }

  lemma CutOutAligned(ns: seq<Node>, k: nat, start: nat, end: nat)
    requires PageAligned(ns) && k < |ns| && ns[k].start <= start < end <= ns[k].end
    requires start % PAGE_SIZE == 0 && end % PAGE_SIZE == 0
    ensures PageAligned(CutOut(ns, k, start, end))
  {
    hide CutOut;
    CutOutView(ns, k, start, end);
  }

  lemma CutOutAt(ns: seq<Node>, k: nat, start: nat, end: nat, a: int)
    requires ListOk(ns) && k < |ns| && ns[k].start <= start < end <= ns[k].end
    requires Sorted(CutOut(ns, k, start, end))
    ensures At(CutOut(ns, k, start, end), a) == if start <= a < end then None else At(ns, a)
  {
    hide CutOut, Unmergeable, PageAligned;
    var r := CutOut(ns, k, start, end);
    CutOutView(ns, k, start, end);
    var d := |r| - |ns|;
    var i := Find(ns, a);
    if i == k && a < start {
      AtNode(r, k, a);
    } else if i == k && end <= a {
      AtNode(r, k + d, a);
    } else if 0 <= i < k {
      AtNode(r, i, a);
    } else if k < i {
      AtNode(r, i + d, a);
    } else {
      if start <= a < end { AtNode(ns, k, a); }
      CutOutCoversNone(ns, k, start, end, a);
      NoneCovers(r, a);
    }
  }

  lemma CutOutCoversNone(ns: seq<Node>, k: nat, start: nat, end: nat, a: int)
    requires Sorted(ns) && k < |ns| && ns[k].start <= start < end <= ns[k].end
    requires start <= a < end || At(ns, a) == None
    ensures var r := CutOut(ns, k, start, end); forall j :: 0 <= j < |r| ==> !Covers(r[j], a)
  {
    var r := CutOut(ns, k, start, end);
    CutOutView(ns, k, start, end);
    var d := |r| - |ns|;
    if start <= a < end { AloneCovers(ns, k, a); }
    hide CutOut, Sorted, Find;
    forall j | 0 <= j < |r| ensures !Covers(r[j], a) {
      assert j < k || k <= j <= k + d || r[j] == ns[j - d];
    }
  }

  lemma AloneCovers(ns: seq<Node>, k: nat, a: int)
    requires Sorted(ns) && k < |ns| && Covers(ns[k], a)
    ensures forall j :: 0 <= j < |ns| && j != k ==> !Covers(ns[j], a)
  {
    forall j | 0 <= j < |ns| && j != k ensures !Covers(ns[j], a) {
      InOrder(ns, j, k);
      InOrder(ns, k, j);
    }
  }

  lemma CutOutPaints(ns: seq<Node>, k: nat, start: nat, end: nat)
    requires ListOk(ns) && k < |ns| && ns[k].start <= start < end <= ns[k].end
    requires start % PAGE_SIZE == 0 && end % PAGE_SIZE == 0
    ensures ListOk(CutOut(ns, k, start, end))
    ensures Painted(CutOut(ns, k, start, end), ns, start, end, None)
  {
    CutOutSorted(ns, k, start, end);
    forall a: int ensures At(CutOut(ns, k, start, end), a) == if start <= a < end then None else At(ns, a) {
      CutOutAt(ns, k, start, end, a);
    }
  }

  lemma CutOutUnmergeable(ns: seq<Node>, k: nat, start: nat, end: nat, i: nat)
    requires ListOk(ns) && k < |ns| && ns[k].start <= start < end <= ns[k].end
    requires i + 1 < |CutOut(ns, k, start, end)|
    ensures var r := CutOut(ns, k, start, end); !Mergeable(r[i], r[i + 1])
  {
    var r := CutOut(ns, k, start, end);
    if i + 1 < k {
      NeighboursDiffer(ns, i);
    } else if i + 1 == k {
      NeighboursDiffer(ns, i);
      InOrder(ns, i, k);
      InOrder(ns, k, k + (if k + 1 < |ns| then 1 else 0));
    } else {
      var d := |r| - |ns|;
      assert forall j :: k + 1 + d <= j < |r| ==> r[j] == ns[j - d];
      if i - d >= 0 { NeighboursDiffer(ns, i - d); }
    }
  }

  /** In a list where touching equal nodes have been merged, a uniformly mapped range lies in one node. */
  lemma {:induction false} UniformRangeInOneNode(ns: seq<Node>, start: int, end: int, tag: Label) returns (i: nat)
    requires ListOk(ns) && start < end
    requires UniformAs(ns, start, end, tag)
    ensures i < |ns| && ns[i].start <= start && end <= ns[i].end && ns[i].tag == tag
  {
    assert At(ns, start) == Some(tag);
    i := Find(ns, start);
    if ns[i].end < end {
      assert At(ns, ns[i].end) == Some(tag);
      var j := Find(ns, ns[i].end);
      InOrder(ns, j, i);
      if i + 1 < |ns| {
        InOrder(ns, i + 1, j);
        InOrder(ns, i, i + 1);
      }
      NeighboursDiffer(ns, i);
    }
  }

  ghost predicate UniformAs(ns: seq<Node>, start: int, end: int, tag: Label) {
    forall a: int :: start <= a < end ==> At(ns, a) == Some(tag)
  }

  ghost predicate Uniform(ns: seq<Node>, start: int, end: int) {
    exists t: Label :: UniformAs(ns, start, end, t)
  }

  /** The list is canonical: it is determined by the page map it stands for. */
  lemma {:induction false} ListIsCanonical(ns: seq<Node>, ms: seq<Node>)
    requires ListOk(ns) && ListOk(ms) && forall a: int :: At(ns, a) == At(ms, a)
    ensures ns == ms
  {
    if ns == [] || ms == [] {
      NonEmptyMapsSomething(ns, ms);
      NonEmptyMapsSomething(ms, ns);
    } else {
      SameFirst(ns, ms);
      TailOk(ns);
      TailOk(ms);
      forall a: int ensures At(ns[1..], a) == At(ms[1..], a) {
        assert At(ns, a) == At(ms, a);
      }
      ListIsCanonical(ns[1..], ms[1..]);
    }
  }

  lemma NonEmptyMapsSomething(ns: seq<Node>, ms: seq<Node>)
    requires Sorted(ns) && forall a: int :: At(ns, a) == At(ms, a)
    ensures ns != [] ==> ms != []
  {
    if ns != [] {
      AtNode(ns, 0, ns[0].start);
      assert At(ms, ns[0].start).Some?;
    }
  }

  lemma CoversMeans(n: Node, a: int)
    ensures Covers(n, a) <==> n.start <= a < n.end
  {
  }

  lemma TailOk(ns: seq<Node>)
    requires ListOk(ns) && ns != []
    ensures ListOk(ns[1..])
    ensures forall a: int :: At(ns[1..], a) == if Covers(ns[0], a) then None else At(ns, a)
  {
    hide Sorted, At, Covers;
    assert Remove(ns, 0) == ns[1..];
    RemovePaints(ns, 0);
    forall a: int ensures Covers(ns[0], a) <==> ns[0].start <= a < ns[0].end {
      CoversMeans(ns[0], a);
    }
    assert forall i :: 0 <= i < |ns| - 1 ==> ns[1..][i] == ns[i + 1];
    forall i | 0 <= i < |ns[1..]| - 1 ensures !Mergeable(ns[1..][i], ns[1..][i + 1]) {
      assert !Mergeable(ns[i + 1], ns[i + 2]);
    }
  }

  lemma SameFirst(ns: seq<Node>, ms: seq<Node>)
    requires ListOk(ns) && ListOk(ms) && ns != [] && ms != [] && forall a: int :: At(ns, a) == At(ms, a)
    ensures ns[0] == ms[0]
  {
    FirstWithin(ns, ms);
    FirstWithin(ms, ns);
  }

  lemma BelowFirst(ns: seq<Node>, a: int)
    requires Sorted(ns) && ns != []
    ensures a < ns[0].start ==> At(ns, a) == None
  {
    if a < ns[0].start {
      forall j | 0 <= j < |ns| ensures !Covers(ns[j], a) { InOrder(ns, 0, j); }
    }
  }

  lemma FirstWithin(ns: seq<Node>, ms: seq<Node>)
    requires ListOk(ns) && ListOk(ms) && ns != [] && ms != [] && forall a: int :: At(ns, a) == At(ms, a)
    ensures ms[0].start <= ns[0].start && ns[0].end <= ms[0].end
    ensures ns[0].tag == ms[0].tag
  {
    var n := ns[0];
    forall a: int | n.start <= a < n.end ensures At(ms, a) == Some(n.tag) {
      AtNode(ns, 0, a);
      assert At(ns, a) == At(ms, a);
    }
    var i := UniformRangeInOneNode(ms, n.start, n.end, n.tag);
    if i > 0 {
      var m := ms[0];
      InOrder(ms, 0, i);
      BelowFirst(ns, m.start);
      AtNode(ms, 0, m.start);
    }
  }
}
