/** Reference-counted VFS nodes, one per mount and path. Hash buckets and locks are left out; paths are given by
    their components, which VfsPath.RenderIsInjective makes the same as by their text. */
module VfsIndex {
  import Sets

  datatype Key = Key(mount: nat, path: seq<string>)

  type Refs = map<Key, nat>

  function Ref(refs: Refs, k: Key): nat {
    if k in refs then refs[k] else 0
  }

  /** A node no longer referenced is not kept. */
  predicate Positive(refs: Refs) {
    forall k :: k in refs ==> refs[k] > 0
  }

  /** Holding `a` keeps the node of every component prefix of its path, the root included. */
  predicate Covers(a: Key, k: Key) {
    a.mount == k.mount && k.path <= a.path
  }

  function Inc(refs: Refs, k: Key): Refs {
    refs[k := Ref(refs, k) + 1]
  }

  function Dec(refs: Refs, k: Key): Refs {
    if Ref(refs, k) <= 1 then refs - {k} else refs[k := refs[k] - 1]
  }

  function KeysOn(refs: Refs, m: nat): set<Key> {
    set k | k in refs && k.mount == m
  }

  /** Exactly the component prefixes of `a` have one reference more. */
  ghost predicate Added(before: Refs, after: Refs, a: Key) {
    forall k :: Ref(after, k) == Ref(before, k) + if Covers(a, k) then 1 else 0
  }

  /** One reference less wherever `a` covers and there is any. */
  ghost predicate Removed(before: Refs, after: Refs, a: Key) {
    RemovedFrom(before, after, a, 0)
  }

  /** The same for the prefixes of at least `len` components only. */
  ghost predicate RemovedFrom(before: Refs, after: Refs, a: Key, len: nat) {
    forall k :: Ref(after, k) ==
      if Covers(a, k) && |k.path| >= len && Ref(before, k) > 0 then Ref(before, k) - 1 else Ref(before, k)
  }

  lemma RemoveStep(before: Refs, at: Refs, after: Refs, a: Key, len: nat)
    requires len <= |a.path| && Positive(before)
    requires if len == |a.path| then at == before else RemovedFrom(before, at, a, len + 1)
    requires after == Dec(at, Key(a.mount, a.path[..len]))
    ensures RemovedFrom(before, after, a, len)
  {
    var at' := Key(a.mount, a.path[..len]);
    assert forall k :: Covers(a, k) ==> k.path == a.path[..|k.path|];
    assert forall k :: Ref(after, k) == if k == at' && Ref(at, k) > 0 then Ref(at, k) - 1 else Ref(at, k);
  }

  lemma SameRefs(a: Refs, b: Refs)
    requires Positive(a) && Positive(b) && forall k :: Ref(a, k) == Ref(b, k)
    ensures a == b
  {
    forall k ensures k in a <==> k in b {
      assert Ref(a, k) == Ref(b, k);
    }
    forall k | k in a ensures a[k] == b[k] {
      assert Ref(a, k) == Ref(b, k);
    }
  }

  // ----- what an acquisition comes to -----

  /** What memory and file system say when a component has no node yet. */
  datatype Answer = NoNode | NoEntry | IsDir | NotDir

  datatype Outcome = Acquired | GetFailed(at: nat) | Refused(at: nat)

  /** The first component that stops the walk, if any; a component with a node is not asked about again. */
  function Predict(refs: Refs, m: nat, comps: seq<string>, trailing: bool, answers: seq<Answer>, i: nat): Outcome
    requires i <= |comps| == |answers|
    decreases |comps| - i
  {
    if i == |comps| then Acquired
    else if Key(m, comps[..i + 1]) in refs then Predict(refs, m, comps, trailing, answers, i + 1)
    else match answers[i]
      case NoNode => GetFailed(i)
      case NoEntry => Refused(i)
      case IsDir => Predict(refs, m, comps, trailing, answers, i + 1)
      case NotDir =>
        if i + 1 < |comps| || trailing then Refused(i)
        else Predict(refs, m, comps, trailing, answers, i + 1)
  }

  /** Component i has no node, and cannot be given one: there is no memory for it, the file system has no such entry, or
      it is no directory although a separator follows. */
  predicate Stops(refs: Refs, m: nat, comps: seq<string>, trailing: bool, answers: seq<Answer>, i: nat)
    requires i < |comps| == |answers|
  {
    && Key(m, comps[..i + 1]) !in refs
    && (answers[i] == NoNode || answers[i] == NoEntry || (answers[i] == NotDir && (i + 1 < |comps| || trailing)))
  }

  /** The outcome names the first component that stops the walk, and why. */
  lemma {:induction false} OutcomeMeaning(refs: Refs, m: nat, comps: seq<string>, trailing: bool, answers: seq<Answer>,
      from: nat, o: Outcome)
    requires from <= |comps| == |answers|
    ensures o == Predict(refs, m, comps, trailing, answers, from) <==>
      match o
      case Acquired => forall i :: from <= i < |comps| ==> !Stops(refs, m, comps, trailing, answers, i)
      case GetFailed(at) =>
        from <= at < |comps| && Stops(refs, m, comps, trailing, answers, at) && answers[at] == NoNode
        && forall i :: from <= i < at ==> !Stops(refs, m, comps, trailing, answers, i)
      case Refused(at) =>
        from <= at < |comps| && Stops(refs, m, comps, trailing, answers, at) && answers[at] != NoNode
        && forall i :: from <= i < at ==> !Stops(refs, m, comps, trailing, answers, i)
    decreases |comps| - from
  {
    if from < |comps| && !Stops(refs, m, comps, trailing, answers, from) {
      OutcomeMeaning(refs, m, comps, trailing, answers, from + 1, o);
    }
  }

  /** The references left by a walk that ends with `o`. */
  ghost predicate After(before: Refs, after: Refs, m: nat, comps: seq<string>, o: Outcome) {
    match o
    case Acquired => Added(before, after, Key(m, comps))
    case Refused(_) => after == before
    case GetFailed(at) =>
      // only the last reference taken is dropped
      if at == 0 then after == before
      else at <= |comps| && Added(before, after, Key(m, comps[..at - 1]))
  }

  lemma PredictStep(refs: Refs, m: nat, comps: seq<string>, trailing: bool, answers: seq<Answer>, i: nat)
    requires i <= |comps| == |answers|
    ensures Predict(refs, m, comps, trailing, answers, i) ==
      if i == |comps| then Acquired
      else if Key(m, comps[..i + 1]) !in refs && answers[i] == NoNode then GetFailed(i)
      else if Key(m, comps[..i + 1]) !in refs
        && (answers[i] == NoEntry || ((i + 1 < |comps| || trailing) && answers[i] == NotDir)) then Refused(i)
      else Predict(refs, m, comps, trailing, answers, i + 1)
  {
  }

  lemma WalkStarts(before: Refs, m: nat, comps: seq<string>)
    ensures Added(before, Inc(before, Key(m, [])), Key(m, comps[..0]))
  {
  }

  lemma WalkEnds(before: Refs, refs: Refs, m: nat, comps: seq<string>, o: Outcome)
    requires if o.Acquired? then Added(before, refs, Key(m, comps)) else o.Refused? && refs == before
    ensures After(before, refs, m, comps, o)
  {
  }

  lemma DropLast(before: Refs, refs: Refs, m: nat, comps: seq<string>, i: nat)
    requires i <= |comps| && Added(before, refs, Key(m, comps[..i])) && Positive(before) && Positive(refs)
    ensures After(before, Dec(refs, Key(m, comps[..i])), m, comps, GetFailed(i))
  {
    var last := Key(m, comps[..i]);
    var after := Dec(refs, last);
    assert Ref(refs, last) > 0;
    if i == 0 {
      SameRefs(before, after);
    } else {
      forall k ensures Covers(last, k) <==> Covers(Key(m, comps[..i - 1]), k) || k == last {
        PrefixOneMore(comps, i - 1, k.path);
      }
    }
  }

  /** Taking and giving back the same path restores every count, and so the list of nodes. */
  lemma AddedThenRemoved(before: Refs, at: Refs, after: Refs, a: Key)
    requires Positive(before) && Positive(after) && Added(before, at, a) && Removed(at, after, a)
    ensures after == before
  {
    SameRefs(before, after);
  }

  lemma WalkAdds(before: Refs, refs: Refs, m: nat, comps: seq<string>, i: nat)
    requires i < |comps| && Added(before, refs, Key(m, comps[..i]))
    ensures Added(before, Inc(refs, Key(m, comps[..i + 1])), Key(m, comps[..i + 1]))
    ensures Positive(before) && Positive(refs)
      ==> (Key(m, comps[..i + 1]) in refs <==> Key(m, comps[..i + 1]) in before)
  {
    var old', new' := Key(m, comps[..i]), Key(m, comps[..i + 1]);
    forall k ensures Covers(new', k) <==> Covers(old', k) || k == new' {
      PrefixOneMore(comps, i, k.path);
    }
    assert !Covers(old', new');
    assert Ref(refs, new') == Ref(before, new');
    assert forall k :: Ref(Inc(refs, new'), k) == Ref(refs, k) + if k == new' then 1 else 0;
  }

  lemma PrefixOneMore(s: seq<string>, i: nat, p: seq<string>)
    requires i < |s|
    ensures p <= s[..i + 1] <==> p <= s[..i] || p == s[..i + 1]
  {
    if p <= s[..i + 1] && p != s[..i + 1] {
      assert p == s[..|p|];
    }
  }

  // ----- the nodes -----

  class Node {
    const mount: nat
    const path: seq<string>
    var refcnt: nat

    constructor (mount: nat, path: seq<string>)
      ensures this.mount == mount && this.path == path && refcnt == 1
    {
      this.mount, this.path := mount, path;
      refcnt := 1;
    }

    function Id(): Key {
      Key(mount, path)
    }
  }

  datatype Option<T> = None | Some(value: T)

  predicate Distinct(nodes: seq<Node>) {
    forall i, j :: 0 <= i < j < |nodes| ==> nodes[i].Id() != nodes[j].Id()
  }

  predicate HasNode(nodes: seq<Node>, k: Key) {
    exists n :: n in nodes && n.Id() == k
  }

  /** The count of a mount is the number of its nodes. */
  predicate Counted(refs: Refs, mountRefs: map<nat, nat>) {
    forall m :: m in mountRefs ==> mountRefs[m] == |KeysOn(refs, m)|
  }

  predicate Rooted(nodes: seq<Node>, roots: map<nat, Node>) {
    && (forall m :: m in roots ==> roots[m].Id() == Key(m, []))
    && (forall n :: n in nodes && n.path == [] && n.mount in roots ==> roots[n.mount] == n)
  }

  /** A mount in use has its root; a mount that has been freed has no fields left. */
  predicate Mounted(mounted: set<nat>, roots: map<nat, Node>, mountRefs: map<nat, nat>, refs: Refs) {
    && (forall m :: m in mounted ==> m in roots && Key(m, []) in refs)
    && (forall m :: m in roots ==> m in mountRefs)
  }

  lemma CountedInc(refs: Refs, k: Key, mountRefs: map<nat, nat>)
    requires Counted(refs, mountRefs) && (k in refs || k.mount in mountRefs)
    ensures Counted(Inc(refs, k), if k in refs then mountRefs else mountRefs[k.mount := mountRefs[k.mount] + 1])
  {
    forall m | m in mountRefs
      ensures |KeysOn(Inc(refs, k), m)| == |KeysOn(refs, m)| + if m == k.mount && k !in refs then 1 else 0
    {
      KeysOnInc(refs, k, m);
    }
    hide KeysOn;
  }

  lemma KeysOnInc(refs: Refs, k: Key, m: nat)
    ensures |KeysOn(Inc(refs, k), m)| == |KeysOn(refs, m)| + if m == k.mount && k !in refs then 1 else 0
  {
    assert KeysOn(Inc(refs, k), m) == KeysOn(refs, m) + if m == k.mount && k !in refs then {k} else {};
  }

  lemma CountedLower(refs: Refs, k: Key, mountRefs: map<nat, nat>)
    requires Counted(refs, mountRefs) && k in refs && refs[k] > 1
    ensures Counted(refs[k := refs[k] - 1], mountRefs)
  {
    forall m | m in mountRefs ensures KeysOn(refs[k := refs[k] - 1], m) == KeysOn(refs, m) {
    }
  }

  lemma CountedDrop(refs: Refs, k: Key, mountRefs: map<nat, nat>)
    requires Counted(refs, mountRefs) && k in refs && k.mount in mountRefs
    ensures mountRefs[k.mount] > 0 && Counted(refs - {k}, mountRefs[k.mount := mountRefs[k.mount] - 1])
  {
    assert k in KeysOn(refs, k.mount);
    forall m | m in mountRefs
      ensures |KeysOn(refs - {k}, m)| == |KeysOn(refs, m)| - if m == k.mount then 1 else 0
    {
      assert KeysOn(refs - {k}, m) == KeysOn(refs, m) - if m == k.mount then {k} else {};
    }
    hide KeysOn;
  }

  function Unlinked(nodes: seq<Node>, i: nat): seq<Node>
    requires i < |nodes|
  {
    nodes[..i] + nodes[i + 1..]
  }

  lemma RemoveNode(nodes: seq<Node>, i: nat)
    requires Distinct(nodes) && i < |nodes|
    ensures var rest := Unlinked(nodes, i);
      && Distinct(rest)
      && (forall j :: 0 <= j < |rest| ==> rest[j] in nodes)
      && (forall n :: n in rest <==> n in nodes && n.Id() != nodes[i].Id())
      && (forall k :: HasNode(rest, k) <==> HasNode(nodes, k) && k != nodes[i].Id())
  {
    var rest := Unlinked(nodes, i);
    forall n | n in nodes && n.Id() != nodes[i].Id() ensures n in rest {
      var j :| 0 <= j < |nodes| && nodes[j] == n;
      if j < i {
        assert nodes[..i][j] == n;
        assert n in nodes[..i];
      } else {
        assert nodes[i + 1..][j - i - 1] == n;
        assert n in nodes[i + 1..];
      }
    }
  }

  lemma AddNode(nodes: seq<Node>, n: Node)
    requires Distinct(nodes) && !HasNode(nodes, n.Id())
    ensures Distinct([n] + nodes)
    ensures forall x :: x in [n] + nodes <==> x in nodes || x == n
    ensures forall k :: HasNode([n] + nodes, k) <==> HasNode(nodes, k) || k == n.Id()
  {
    var more := [n] + nodes;
    forall k | k == n.Id() ensures HasNode(more, k) {
      assert more[0] == n && n in more;
    }
    forall k | HasNode(nodes, k) ensures HasNode(more, k) {
      var x :| x in nodes && x.Id() == k;
      assert x in more;
    }
    forall x | x in nodes ensures x.Id() != n.Id() {
      assert !(x in nodes && x.Id() == n.Id());
    }
    forall i, j | 0 <= i < j < |more| ensures more[i].Id() != more[j].Id() {
      if i == 0 { assert more[j] in nodes; }
    }
  }

  lemma RootedMore(nodes: seq<Node>, roots: map<nat, Node>, n: Node)
    requires Rooted(nodes, roots) && (n.path == [] ==> n.mount !in roots)
    ensures Rooted([n] + nodes, roots)
  {
  }

  lemma IncAt(refs: Refs, k: Key)
    requires k !in refs
    ensures Inc(refs, k) == refs[k := 1]
  {
  }

  lemma MountedMore(mounted: set<nat>, roots: map<nat, Node>, mountRefs: map<nat, nat>, refs: Refs, k: Key)
    requires Mounted(mounted, roots, mountRefs, refs) && k.mount in mountRefs
    ensures Mounted(mounted, roots, mountRefs[k.mount := mountRefs[k.mount] + 1], Inc(refs, k))
  {
  }

  lemma OneNode(nodes: seq<Node>, n: Node)
    requires Distinct(nodes) && n in nodes
    ensures forall x :: x in nodes && x.Id() == n.Id() ==> x == n
  {
  }

  lemma DecAt(refs: Refs, k: Key)
    requires k in refs
    ensures Dec(refs, k) == if refs[k] <= 1 then refs - {k} else refs[k := refs[k] - 1]
  {
  }

  lemma RootedLess(nodes: seq<Node>, rest: seq<Node>, roots: map<nat, Node>)
    requires Rooted(nodes, roots) && forall n :: n in rest ==> n in nodes
    ensures Rooted(rest, roots)
  {
  }

  lemma MountedLower(mounted: set<nat>, roots: map<nat, Node>, mountRefs: map<nat, nat>, refs: Refs, k: Key)
    requires Mounted(mounted, roots, mountRefs, refs) && k in refs && refs[k] > 1
    ensures Mounted(mounted, roots, mountRefs, refs[k := refs[k] - 1])
  {
  }

  lemma MountedDrop(mounted: set<nat>, roots: map<nat, Node>, mountRefs: map<nat, nat>, refs: Refs, k: Key)
    requires Mounted(mounted, roots, mountRefs, refs) && k in refs && !(k.path == [] && k.mount in mounted)
    requires k.mount in mountRefs && mountRefs[k.mount] > 0
    ensures Mounted(mounted, roots, mountRefs[k.mount := mountRefs[k.mount] - 1], refs - {k})
  {
  }

  class NodeIndex {
    var nodes: seq<Node>
    var roots: map<nat, Node>
    var mountRefs: map<nat, nat>
    var mounted: set<nat>
    ghost var refs: Refs

    /** The list holds exactly the nodes counted, one for each key. */
    ghost predicate Listed()
      reads `nodes, `refs, nodes
    {
      && Distinct(nodes)
      && (forall n :: n in nodes ==> n.Id() in refs && refs[n.Id()] == n.refcnt > 0)
      && (forall k :: k in refs ==> HasNode(nodes, k))
    }

    ghost predicate Valid()
      reads this, nodes
    {
      Listed() && Counted(refs, mountRefs) && Rooted(nodes, roots) && Mounted(mounted, roots, mountRefs, refs)
    }

    constructor ()
      ensures Valid() && refs == map[] && mounted == {} && nodes == []
    {
      nodes, roots, mountRefs, mounted, refs := [], map[], map[], {}, map[];
    }

    /** VfsNodeIncreaseRef */
    method IncreaseRef(n: Node)
      requires Valid() && n in nodes
      modifies this`refs, n
      ensures Valid() && refs == Inc(old(refs), n.Id())
    {
      hide Counted, Rooted;
      n.refcnt := n.refcnt + 1;
      refs := Inc(refs, n.Id());
      CountedInc(old(refs), n.Id(), mountRefs);
    }

    /** VfsNodeLookup */
    method Lookup(m: nat, path: seq<string>) returns (r: Option<Node>)
      requires Valid()
      modifies this`refs, nodes
      ensures Valid()
      ensures r.Some? <==> Key(m, path) in old(refs)
      ensures r.Some? ==> r.value in nodes && r.value.Id() == Key(m, path) && refs == Inc(old(refs), Key(m, path))
      ensures r.None? ==> refs == old(refs)
    {
      hide Counted, Rooted;
      var i := 0;
      while i < |nodes|
        invariant i <= |nodes|
        invariant Valid() && refs == old(refs)
        invariant forall j :: 0 <= j < i ==> nodes[j].Id() != Key(m, path)
      {
        if nodes[i].mount == m && nodes[i].path == path {
          IncreaseRef(nodes[i]);
          return Some(nodes[i]);
        }
        i := i + 1;
      }
      return None;
    }

    lemma NoNodeYet(k: Key)
      requires Valid() && k !in refs
      ensures !HasNode(nodes, k)
    {
    }

    /** VfsNodeGet; `ok` is whether memory, path length and the file system allow a node. */
    method Get(m: nat, path: seq<string>, ok: bool) returns (r: Option<Node>)
      requires Valid() && m in mountRefs && Key(m, path) !in refs && (path == [] ==> m !in roots)
      modifies this`nodes, this`refs, this`mountRefs
      ensures Valid()
      ensures r.Some? <==> ok
      ensures r.Some? ==> fresh(r.value) && r.value.Id() == Key(m, path)
      ensures r.Some? ==> nodes == [r.value] + old(nodes) && refs == Inc(old(refs), Key(m, path))
      ensures r.None? ==> nodes == old(nodes) && refs == old(refs) && mountRefs == old(mountRefs)
      ensures forall j :: 0 <= j < |nodes| ==> nodes[j] in old(nodes) || fresh(nodes[j])
      ensures mountRefs.Keys == old(mountRefs).Keys
    {
      hide Counted, Distinct, HasNode, Rooted, Mounted, Inc;
      if !ok {
        return None;
      }
      NoNodeYet(Key(m, path));
      var n := new Node(m, path);
      AddNode(nodes, n);
      RootedMore(nodes, roots, n);
      MountedMore(mounted, roots, mountRefs, refs, n.Id());
      CountedInc(refs, n.Id(), mountRefs);
      IncAt(refs, n.Id());
      refs := Inc(refs, n.Id());
      mountRefs := mountRefs[m := mountRefs[m] + 1];
      nodes := [n] + nodes;
      return Some(n);
    }

    /** VfsNodePut; the last reference goes to the mount's count as well, so the mount must still be there. */
    method Put(n: Node)
      requires Valid() && n in nodes && (n.refcnt > 1 || n.mount in mountRefs)
      requires n.path == [] && n.mount in mounted ==> n.refcnt > 1
      modifies this`nodes, this`refs, this`mountRefs, nodes
      ensures Valid()
      ensures refs == Dec(old(refs), n.Id())
      ensures old(n.refcnt) > 1 ==> nodes == old(nodes)
      ensures forall i :: 0 <= i < |nodes| ==> nodes[i] in old(nodes)
      ensures forall x :: x in old(nodes) && x != n ==> x in nodes
      ensures mountRefs.Keys == old(mountRefs).Keys
    {
      hide Counted, HasNode, Distinct, Rooted, Mounted, Dec, Unlinked;
      ghost var id, before := n.Id(), refs;
      OneNode(nodes, n);
      DecAt(refs, id);
      n.refcnt := n.refcnt - 1;
      if n.refcnt > 0 {
        CountedLower(refs, id, mountRefs);
        MountedLower(mounted, roots, mountRefs, refs, id);
        refs := refs[id := refs[id] - 1];
        return;
      }
      assert ListedBut(n);
      Unlink(n);
    }

    /** All is well but that n, in the list, has no reference any more. */
    ghost predicate ListedBut(n: Node)
      reads `nodes, `refs, nodes
    {
      && Distinct(nodes) && n in nodes
      && n.Id() in refs && (forall x :: x in nodes && x != n ==> x.Id() in refs && refs[x.Id()] == x.refcnt > 0)
      && (forall k :: k in refs ==> HasNode(nodes, k))
    }

    /** The end of VfsNodePut, for the last reference. */
    method Unlink(n: Node)
      requires ListedBut(n) && !(n.path == [] && n.mount in mounted) && n.mount in mountRefs
      requires Counted(refs, mountRefs) && Rooted(nodes, roots) && Mounted(mounted, roots, mountRefs, refs)
      modifies this`nodes, this`refs, this`mountRefs
      ensures Valid() && refs == old(refs) - {n.Id()} && mountRefs.Keys == old(mountRefs).Keys
      ensures forall x :: x in old(nodes) && x != n ==> x in nodes
      ensures forall i :: 0 <= i < |nodes| ==> nodes[i] in old(nodes)
    {
      hide Counted, HasNode, Distinct, Rooted, Mounted, Unlinked;
      var i :| 0 <= i < |nodes| && nodes[i] == n;
      OneNode(nodes, n);
      RemoveNode(nodes, i);
      RootedLess(nodes, Unlinked(nodes, i), roots);
      CountedDrop(refs, n.Id(), mountRefs);
      MountedDrop(mounted, roots, mountRefs, refs, n.Id());
      refs := refs - {n.Id()};
      nodes := Unlinked(nodes, i);
      mountRefs := mountRefs[n.mount := mountRefs[n.mount] - 1];
    }

    /** The part of VfsNodeRelease for one ancestor: found again by its path, then dropped twice. */
    method PutPath(m: nat, path: seq<string>)
      requires Valid() && path != [] && m in mountRefs
      modifies this`nodes, this`refs, this`mountRefs, nodes
      ensures Valid() && refs == Dec(old(refs), Key(m, path))
      ensures forall i :: 0 <= i < |nodes| ==> nodes[i] in old(nodes)
      ensures forall x :: x in old(nodes) && x.mount != m ==> x in nodes
      ensures mountRefs.Keys == old(mountRefs).Keys
    {
      hide Counted, Distinct, HasNode;
      PositiveRefs();
      var found := Lookup(m, path);
      if found.Some? {
        Put(found.value);
        Put(found.value);
      }
    }

    lemma PositiveRefs()
      requires Valid()
      ensures Positive(refs)
    {
      forall k | k in refs ensures refs[k] > 0 {
        assert HasNode(nodes, k);
      }
    }

    lemma NodesDistinct()
      requires Listed()
      ensures Distinct(nodes)
    {
    }

    lemma RefOf(n: Node)
      requires Valid() && n in nodes
      ensures n.Id() in refs && refs[n.Id()] == n.refcnt > 0
    {
    }

    lemma MountInUse(m: nat)
      requires Valid() && m in mounted
      ensures m in roots && Key(m, []) in refs && m in mountRefs
    {
    }

    /** VfsNodeRelease: one reference less for the node and for each of its ancestors that has one. It reads the root
        off the mount, which must not have been freed. */
    method Release(n: Node)
      requires Valid() && n in nodes && n.mount in roots && Key(n.mount, []) in refs
      requires n.mount in mounted ==> refs[Key(n.mount, [])] > 1
      modifies this`nodes, this`refs, this`mountRefs, nodes
      ensures Valid()
      ensures Removed(old(refs), refs, n.Id())
      ensures forall i :: 0 <= i < |nodes| ==> nodes[i] in old(nodes)
      ensures forall x :: x in old(nodes) && x.mount != n.mount ==> x in nodes
      ensures mountRefs.Keys == old(mountRefs).Keys
    {
      hide Valid, RemovedFrom;
      var m, path, root := n.mount, n.path, roots[n.mount];
      ghost var id, before := n.Id(), refs;
      RootNode(m);
      PositiveRefs();
      RefOf(n);
      if root == n {
        Put(n);
        RemoveStep(before, before, refs, id, 0);
        return;
      }
      assert path != [] && path[..|path|] == path;
      Put(n);
      RemoveStep(before, before, refs, id, |path|);
      var last := |path|;
      while last > 1
        invariant 1 <= last <= |path| && Valid() && m in mountRefs && mountRefs.Keys == old(mountRefs).Keys
        invariant Ref(refs, Key(m, [])) == Ref(before, Key(m, []))
        invariant RemovedFrom(before, refs, id, last)
        invariant forall i :: 0 <= i < |nodes| ==> nodes[i] in old(nodes)
        invariant forall x :: x in old(nodes) && x.mount != m ==> x in nodes
      {
        last := last - 1;
        ghost var at := refs;
        PutPath(m, path[..last]);
        RemoveStep(before, at, refs, id, last);
      }
      RootNode(m);
      RefOf(root);
      ghost var at := refs;
      Put(root);
      RemoveStep(before, at, refs, id, 0);
    }

    /** The root of a mount is in the list as long as it is counted. */
    lemma RootNode(m: nat)
      requires Valid() && m in roots && Key(m, []) in refs
      ensures m in mountRefs && roots[m] in nodes && roots[m].Id() == Key(m, [])
      ensures forall n :: n in nodes && n.mount == m && n.path == [] ==> n == roots[m]
    {
      assert HasNode(nodes, Key(m, []));
    }

    lemma RootCounted(before: Refs, n: Key)
      requires Valid() && Positive(before) && Added(before, refs, n) && Key(n.mount, []) in before
      ensures Key(n.mount, []) in refs && refs[Key(n.mount, [])] > 1
    {
      assert Covers(n, Key(n.mount, []));
      assert Ref(refs, Key(n.mount, [])) == Ref(before, Key(n.mount, [])) + 1;
    }

    /** A walk is broken off: without memory only the node it has come to is put, ... */
    method PutLast(n: Node, ghost before: Refs)
      requires Valid() && n in nodes && n.mount in mounted
      requires Positive(before) && Added(before, refs, n.Id()) && Key(n.mount, []) in before
      modifies this`nodes, this`refs, this`mountRefs, nodes
      ensures Valid() && refs == Dec(old(refs), n.Id())
      ensures forall i :: 0 <= i < |nodes| ==> nodes[i] in old(nodes)
      ensures mountRefs.Keys == old(mountRefs).Keys
    {
      hide Valid, Added, Positive, Dec;
      MountInUse(n.mount);
      RootCounted(before, n.Id());
      RefOf(n);
      Put(n);
    }

    /** ... otherwise the node just made is released. */
    method GiveUp(n: Node, ghost before: Refs)
      requires Valid() && n in nodes && n.mount in mounted
      requires Positive(before) && Added(before, refs, n.Id()) && Key(n.mount, []) in before
      modifies this`nodes, this`refs, this`mountRefs, nodes
      ensures Valid() && refs == before
      ensures forall i :: 0 <= i < |nodes| ==> nodes[i] in old(nodes)
      ensures mountRefs.Keys == old(mountRefs).Keys
    {
      hide Valid, Added, Removed;
      MountInUse(n.mount);
      RootCounted(before, n.Id());
      ghost var at := refs;
      Release(n);
      PositiveRefs();
      AddedThenRemoved(before, at, refs, n.Id());
    }

    /** The node of one component: looked up, or made. */
    method LookupOrGet(m: nat, path: seq<string>, ok: bool) returns (r: Option<Node>, made: bool)
      requires Valid() && m in mounted && path != []
      modifies this`nodes, this`refs, this`mountRefs, nodes
      ensures Valid() && mountRefs.Keys == old(mountRefs).Keys
      ensures made <==> Key(m, path) !in old(refs)
      ensures r.None? <==> made && !ok
      ensures r.None? ==> refs == old(refs)
      ensures r.Some? ==> r.value in nodes && r.value.Id() == Key(m, path) && refs == Inc(old(refs), Key(m, path))
      ensures forall i :: 0 <= i < |nodes| ==> nodes[i] in old(nodes) || fresh(nodes[i])
      ensures r.None? ==> nodes == old(nodes)
    {
      hide Valid, Inc;
      MountInUse(m);
      r := Lookup(m, path);
      made := r.None?;
      if made {
        r := Get(m, path, ok);
      }
    }

    /** VfsNodeAcquire, on a mount and the non-empty components of a path within it; `trailing` tells whether a
        separator follows the last one. */
    method Acquire(m: nat, comps: seq<string>, trailing: bool, answers: seq<Answer>)
      returns (o: Outcome, np: Option<Node>)
      requires Valid() && m in mounted && |answers| == |comps|
      modifies this`nodes, this`refs, this`mountRefs, nodes
      ensures Valid()
      ensures o == Predict(old(refs), m, comps, trailing, answers, 0)
      ensures After(old(refs), refs, m, comps, o)
      ensures np.Some? <==> o == Acquired
      ensures np.Some? ==> np.value in nodes && np.value.Id() == Key(m, comps)
      ensures forall i :: 0 <= i < |nodes| ==> nodes[i] in old(nodes) || fresh(nodes[i])
      ensures mountRefs.Keys == old(mountRefs).Keys
    {
      hide Valid, Predict, Added, Removed, After, Inc, Dec, Covers;
      PositiveRefs();
      MountInUse(m);
      ghost var before, outcome := refs, Predict(refs, m, comps, trailing, answers, 0);
      RootNode(m);
      var n := roots[m];
      IncreaseRef(n);
      WalkStarts(before, m, comps);
      var i := 0;
      while i < |comps|
        invariant i <= |comps| && Valid() && n in nodes && n.Id() == Key(m, comps[..i])
        invariant Added(before, refs, Key(m, comps[..i]))
        invariant outcome == Predict(before, m, comps, trailing, answers, i) && mountRefs.Keys == old(mountRefs).Keys
        invariant forall j :: 0 <= j < |nodes| ==> nodes[j] in old(nodes) || fresh(nodes[j])
      {
        PredictStep(before, m, comps, trailing, answers, i);
        WalkAdds(before, refs, m, comps, i);
        PositiveRefs();
        var found, made := LookupOrGet(m, comps[..i + 1], answers[i] != NoNode);
        if found.None? {
          DropLast(before, refs, m, comps, i);
          PutLast(n, before);
          return GetFailed(i), None;
        }
        if made && (answers[i] == NoEntry || ((i + 1 < |comps| || trailing) && answers[i] == NotDir)) {
          GiveUp(found.value, before);
          WalkEnds(before, refs, m, comps, Refused(i));
          return Refused(i), None;
        }
        n := found.value;
        i := i + 1;
      }
      assert comps[..|comps|] == comps;
      PredictStep(before, m, comps, trailing, answers, i);
      WalkEnds(before, refs, m, comps, Acquired);
      return Acquired, Some(n);
    }

    lemma MountCount(m: nat)
      requires Valid() && m in mountRefs
      ensures mountRefs[m] == |KeysOn(refs, m)|
    {
    }

    /** NX_MemFree of a mount that is not, or no longer, in use: its fields are gone. */
    method FreeMount(m: nat)
      requires Valid() && m !in mounted
      modifies this`roots, this`mountRefs
      ensures Valid() && roots == old(roots) - {m} && mountRefs == old(mountRefs) - {m}
    {
      hide Listed, Counted;
      CountedLess(refs, mountRefs, m);
      roots, mountRefs := roots - {m}, mountRefs - {m};
    }

    /** The bookkeeping of NX_VfsMountFileSystem for a new mount; `nodeOk`, `fsOk` and `clash` are what memory,
        the file system and the list of mounts say. */
    method Mount(m: nat, nodeOk: bool, fsOk: bool, clash: bool) returns (ok: bool)
      requires Valid() && m !in mountRefs && forall k :: k in refs ==> k.mount != m
      modifies this, nodes
      ensures Valid()
      ensures ok <==> nodeOk && fsOk && !clash
      ensures ok ==> mounted == old(mounted) + {m} && Added(old(refs), refs, Key(m, []))
      ensures ok ==> roots.Keys == old(roots).Keys + {m}
      ensures !ok ==> mounted == old(mounted) && refs == old(refs) && roots == old(roots)
      ensures forall x :: x in old(nodes) && x.mount != m ==> x in nodes
      ensures forall i :: 0 <= i < |nodes| ==> nodes[i] in old(nodes) || fresh(nodes[i])
    {
      hide Listed, Counted, Added, Removed, Rooted, Distinct, Mounted;
      PositiveRefs();
      ghost var before := refs;
      FreshMount(refs, mountRefs, m);
      MountedFresh(mounted, roots, mountRefs, refs, m);
      mountRefs := mountRefs[m := 0];
      var root := Get(m, [], nodeOk);
      if root.None? {
        FreeMount(m);
        return false;
      }
      WalkStarts(before, m, []);
      NodesDistinct();
      RootAdded(nodes, roots, root.value);
      MountedRoot(mounted, roots, mountRefs, refs, m, root.value);
      roots := roots[m := root.value];
      if !fsOk || clash {
        ghost var at := refs;
        PositiveRefs();
        Release(root.value);
        PositiveRefs();
        AddedThenRemoved(before, at, refs, Key(m, []));
        FreeMount(m);
        return false;
      }
      mounted := mounted + {m};
      return true;
    }

    /** The bookkeeping of NX_VfsUnmountFileSystem: busy exactly while a node other than the root is kept; else the
        mount is freed, its root and its count with it. */
    method Unmount(m: nat) returns (busy: bool)
      requires Valid() && m in mounted
      modifies this, nodes
      ensures Valid()
      ensures busy <==> exists k :: k in old(refs) && k.mount == m && k.path != []
      ensures busy ==> refs == old(refs) && mounted == old(mounted) && roots == old(roots)
      ensures !busy ==> Removed(old(refs), refs, Key(m, [])) && mounted == old(mounted) - {m}
      ensures !busy ==> roots == old(roots) - {m} && m !in mountRefs
      ensures forall x :: x in old(nodes) && x.mount != m ==> x in nodes
      ensures forall i :: 0 <= i < |nodes| ==> nodes[i] in old(nodes)
    {
      hide Distinct, HasNode, Removed, Rooted, Counted;
      MountCount(m);
      OnlyRoot(refs, m);
      RootNode(m);
      if mountRefs[m] > 1 {
        return true;
      }
      mounted := mounted - {m};
      Release(roots[m]);
      FreeMount(m);
      return false;
    }
  }

  lemma RootAdded(nodes: seq<Node>, roots: map<nat, Node>, n: Node)
    requires Rooted(nodes, roots) && Distinct(nodes) && n in nodes && n.path == []
    ensures Rooted(nodes, roots[n.mount := n])
  {
  }

  lemma MountedFresh(mounted: set<nat>, roots: map<nat, Node>, mountRefs: map<nat, nat>, refs: Refs, m: nat)
    requires Mounted(mounted, roots, mountRefs, refs) && m !in mountRefs
    ensures Mounted(mounted, roots, mountRefs[m := 0], refs) && m !in roots && m !in mounted
  {
  }

  lemma MountedRoot(mounted: set<nat>, roots: map<nat, Node>, mountRefs: map<nat, nat>, refs: Refs, m: nat, n: Node)
    requires Mounted(mounted, roots, mountRefs, refs) && m in mountRefs
    ensures Mounted(mounted, roots[m := n], mountRefs, refs)
    ensures Key(m, []) in refs ==> Mounted(mounted + {m}, roots[m := n], mountRefs, refs)
  {
  }

  lemma CountedLess(refs: Refs, mountRefs: map<nat, nat>, m: nat)
    requires Counted(refs, mountRefs)
    ensures Counted(refs, mountRefs - {m})
  {
  }

  lemma FreshMount(refs: Refs, mountRefs: map<nat, nat>, m: nat)
    requires Counted(refs, mountRefs) && m !in mountRefs && forall k :: k in refs ==> k.mount != m
    ensures Counted(refs, mountRefs[m := 0]) && Key(m, []) !in refs
  {
    assert KeysOn(refs, m) == {};
  }

  lemma OnlyRoot(refs: Refs, m: nat)
    requires Key(m, []) in refs
    ensures |KeysOn(refs, m)| > 1 <==> exists k :: k in refs && k.mount == m && k.path != []
  {
    var root := Key(m, []);
    if k :| k in refs && k.mount == m && k.path != [] {
      Sets.SubsetSize({root, k}, KeysOn(refs, m));
    } else {
      assert KeysOn(refs, m) == {root};
    }
  }

  // ----- runs -----

  /** What is acquired and not yet released, and what failed acquisitions have left behind. */
  datatype System = System(refs: Refs, mounted: set<nat>, held: seq<Key>, leaked: seq<Key>)

  datatype Event =
    | Mounting(m: nat)
    | Unmounting(m: nat)
    | Acquiring(m: nat, comps: seq<string>, trailing: bool, answers: seq<Answer>)
    | Releasing(i: nat)

  function Left(m: nat, comps: seq<string>, o: Outcome): seq<Key> {
    if o.GetFailed? && 0 < o.at <= |comps| then [Key(m, comps[..o.at - 1])] else []
  }

  ghost predicate Step(s: System, e: Event, t: System) {
    Positive(t.refs) &&
    match e
    case Mounting(m) =>
      && m !in s.mounted && (forall k :: k in s.refs ==> k.mount != m)
      && Added(s.refs, t.refs, Key(m, []))
      && t.mounted == s.mounted + {m} && t.held == s.held && t.leaked == s.leaked
    case Unmounting(m) =>
      && m in s.mounted
      && (if exists k :: k in s.refs && k.mount == m && k.path != [] then t == s
          else Removed(s.refs, t.refs, Key(m, [])) && t == s.(refs := t.refs, mounted := s.mounted - {m}))
    case Acquiring(m, comps, trailing, answers) =>
      && m in s.mounted && |answers| == |comps|
      && var o := Predict(s.refs, m, comps, trailing, answers, 0);
      && After(s.refs, t.refs, m, comps, o)
      && t.mounted == s.mounted
      && t.held == (if o == Acquired then s.held + [Key(m, comps)] else s.held)
      && t.leaked == s.leaked + Left(m, comps, o)
    case Releasing(i) =>
      && i < |s.held| && s.held[i].mount in s.mounted && Removed(s.refs, t.refs, s.held[i])
      && t == s.(refs := t.refs, held := s.held[..i] + s.held[i + 1..])
  }

  /** How many of the acquisitions cover `k`. */
  function Count(held: seq<Key>, k: Key): nat {
    if held == [] then 0 else Count(held[1..], k) + if Covers(held[0], k) then 1 else 0
  }

  function Expected(s: System, k: Key): nat {
    (if k.path == [] && k.mount in s.mounted then 1 else 0) + Count(s.held, k) + Count(s.leaked, k)
  }

  /** Every count is the number of acquisitions below it, plus one for the root of a mount in use. */
  ghost predicate Balanced(s: System) {
    Positive(s.refs) && forall k :: Ref(s.refs, k) == Expected(s, k)
  }

  lemma {:induction false} CountAppend(a: seq<Key>, b: seq<Key>, k: Key)
    ensures Count(a + b, k) == Count(a, k) + Count(b, k)
  {
    if a == [] {
      assert a + b == b;
    } else {
      CountAppend(a[1..], b, k);
      assert a + b == [a[0]] + (a[1..] + b);
    }
  }

  lemma CountRemove(held: seq<Key>, i: nat, k: Key)
    requires i < |held|
    ensures Count(held, k) == Count(held[..i] + held[i + 1..], k) + if Covers(held[i], k) then 1 else 0
  {
    assert held == held[..i] + ([held[i]] + held[i + 1..]);
    CountAppend(held[..i], [held[i]] + held[i + 1..], k);
    CountAppend([held[i]], held[i + 1..], k);
    CountAppend(held[..i], held[i + 1..], k);
  }

  lemma {:induction false} CountPositive(held: seq<Key>, k: Key)
    ensures Count(held, k) > 0 <==> exists a :: a in held && Covers(a, k)
  {
    if held != [] {
      CountPositive(held[1..], k);
      assert held == [held[0]] + held[1..];
    }
  }

  lemma MountKeepsBalance(s: System, m: nat, t: System)
    requires Balanced(s) && Step(s, Mounting(m), t)
    ensures Balanced(t)
  {
    forall k ensures Ref(t.refs, k) == Expected(t, k) {
      assert Ref(s.refs, k) == Expected(s, k);
    }
  }

  lemma UnmountKeepsBalance(s: System, m: nat, t: System)
    requires Balanced(s) && Step(s, Unmounting(m), t)
    ensures Balanced(t)
  {
    hide Count;
    if t != s {
      assert Ref(s.refs, Key(m, [])) == Expected(s, Key(m, []));
      forall k ensures Ref(t.refs, k) == Expected(t, k) {
        assert Ref(s.refs, k) == Expected(s, k);
        assert Covers(Key(m, []), k) <==> k == Key(m, []);
      }
    }
  }

  lemma AcquireKeepsBalance(s: System, m: nat, comps: seq<string>, trailing: bool, answers: seq<Answer>, t: System)
    requires Balanced(s) && Step(s, Acquiring(m, comps, trailing, answers), t)
    ensures Balanced(t)
  {
    hide Covers, Predict;
    var o := Predict(s.refs, m, comps, trailing, answers, 0);
    PredictInRange(s.refs, m, comps, trailing, answers, 0);
    forall k ensures Ref(t.refs, k) == Expected(t, k) {
      assert Ref(s.refs, k) == Expected(s, k);
      CountAppend(s.held, [Key(m, comps)], k);
      CountAppend(s.leaked, Left(m, comps, o), k);
      CountOne(Key(m, comps), k);
      if o.GetFailed? && o.at > 0 { CountOne(Key(m, comps[..o.at - 1]), k); }
      assert s.leaked + [] == s.leaked;
    }
  }

  lemma CountOne(a: Key, k: Key)
    ensures Count([a], k) == if Covers(a, k) then 1 else 0
  {
    assert [a][1..] == [];
  }

  lemma {:induction false} PredictInRange(refs: Refs, m: nat, comps: seq<string>, trailing: bool,
      answers: seq<Answer>, i: nat)
    requires i <= |comps| == |answers|
    ensures var o := Predict(refs, m, comps, trailing, answers, i); o.GetFailed? ==> o.at < |comps|
    decreases |comps| - i
  {
    if i < |comps| {
      PredictInRange(refs, m, comps, trailing, answers, i + 1);
    }
  }

  lemma ReleaseKeepsBalance(s: System, i: nat, t: System)
    requires Balanced(s) && Step(s, Releasing(i), t)
    ensures Balanced(t)
  {
    hide Covers, Count;
    forall k ensures Ref(t.refs, k) == Expected(t, k) {
      assert Ref(s.refs, k) == Expected(s, k);
      CountRemove(s.held, i, k);
    }
  }

  lemma StepKeepsBalance(s: System, e: Event, t: System)
    requires Balanced(s) && Step(s, e, t)
    ensures Balanced(t)
  {
    hide Balanced, Step;
    match e
    case Mounting(m) => MountKeepsBalance(s, m, t);
    case Unmounting(m) => UnmountKeepsBalance(s, m, t);
    case Acquiring(m, comps, trailing, answers) => AcquireKeepsBalance(s, m, comps, trailing, answers, t);
    case Releasing(i) => ReleaseKeepsBalance(s, i, t);
  }

  ghost predicate IsRun(run: seq<System>, events: seq<Event>) {
    && |run| == |events| + 1
    && run[0] == System(map[], {}, [], [])
    && forall i :: 0 <= i < |events| ==> Step(run[i], events[i], run[i + 1])
  }

  lemma {:induction false} RunKeepsBalance(run: seq<System>, events: seq<Event>)
    requires IsRun(run, events)
    ensures Balanced(run[|events|])
    decreases |events|
  {
    var n := |events|;
    if n > 0 {
      RunKeepsBalance(run[..n], events[..n - 1]);
      assert Step(run[n - 1], events[n - 1], run[n]);
      StepKeepsBalance(run[n - 1], events[n - 1], run[n]);
    }
  }

  /** A node is kept exactly while something at or below its path is acquired, or its mount is in use and it is
      the root. */
  lemma KeptWhileCovered(s: System, k: Key)
    requires Balanced(s)
    ensures k in s.refs <==>
      (k.path == [] && k.mount in s.mounted) || exists a :: a in s.held + s.leaked && Covers(a, k)
  {
    assert Ref(s.refs, k) == Expected(s, k);
    CountPositive(s.held + s.leaked, k);
    CountAppend(s.held, s.leaked, k);
  }

  /** Unmounting is refused exactly while a path other than the root is acquired on the mount. */
  lemma BusyWhileAcquired(s: System, m: nat)
    requires Balanced(s)
    ensures (exists k :: k in s.refs && k.mount == m && k.path != []) <==>
      exists a :: a in s.held + s.leaked && a.mount == m && a.path != []
  {
    if k :| k in s.refs && k.mount == m && k.path != [] {
      KeptWhileCovered(s, k);
    }
    if a :| a in s.held + s.leaked && a.mount == m && a.path != [] {
      KeptWhileCovered(s, a);
      assert Covers(a, a);
    }
  }

  /** A successful unmount leaves nothing of the mount behind if and only if its root is not acquired either. */
  lemma UnmountedClean(s: System, m: nat, t: System)
    requires Balanced(s) && Step(s, Unmounting(m), t) && m !in t.mounted
    ensures (forall k :: k in t.refs ==> k.mount != m) <==> (forall a :: a in s.held + s.leaked ==> a.mount != m)
  {
    StepKeepsBalance(s, Unmounting(m), t);
    forall k | k in t.refs && k.mount == m ensures exists a :: a in s.held + s.leaked && a.mount == m {
      KeptWhileCovered(t, k);
    }
    forall a | a in s.held + s.leaked && a.mount == m ensures a in t.refs {
      KeptWhileCovered(t, a);
      assert Covers(a, a);
    }
  }

  /** What Release asks for holds of everything acquired on a mount that is in use. */
  lemma HeldCanBeReleased(s: System, a: Key)
    requires Balanced(s) && a in s.held && a.mount in s.mounted
    ensures a in s.refs && Key(a.mount, []) in s.refs && s.refs[Key(a.mount, [])] > 1
  {
    assert Covers(a, a) && Covers(a, Key(a.mount, []));
    CountPositive(s.held, a);
    CountPositive(s.held, Key(a.mount, []));
    assert Ref(s.refs, a) == Expected(s, a);
    assert Ref(s.refs, Key(a.mount, [])) == Expected(s, Key(a.mount, []));
  }

  /** No acquisition has lost its mount. */
  ghost predicate Releasable(s: System) {
    forall a :: a in s.held ==> a.mount in s.mounted
  }

  /** An unmount that goes through although something, which can only be the root, is acquired on the mount. */
  ghost predicate Strands(s: System, e: Event) {
    && e.Unmounting?
    && !(exists k :: k in s.refs && k.mount == e.m && k.path != [])
    && exists a :: a in s.held && a.mount == e.m
  }

  /** Acquisitions stay releasable through a step exactly when it is not such an unmount. */
  lemma StepKeepsReleasable(s: System, e: Event, t: System)
    requires Balanced(s) && Releasable(s) && Step(s, e, t)
    ensures Releasable(t) <==> !Strands(s, e)
  {
    hide Added, Removed, After, Balanced, Predict;
    match e
    case Releasing(i) => assert forall a :: a in t.held ==> a in s.held;
    case Unmounting(m) =>
    case Mounting(_) =>
    case Acquiring(_, _, _, _) =>
  }

  lemma {:induction false} RunKeepsReleasable(run: seq<System>, events: seq<Event>)
    requires IsRun(run, events) && forall i :: 0 <= i < |events| ==> !Strands(run[i], events[i])
    ensures Releasable(run[|events|])
    decreases |events|
  {
    hide Strands, Releasable, Step;
    var n := |events|;
    if n == 0 {
      NothingHeld();
    } else {
      assert IsRun(run[..n], events[..n - 1]);
      RunKeepsReleasable(run[..n], events[..n - 1]);
      RunKeepsBalance(run[..n], events[..n - 1]);
      assert Step(run[n - 1], events[n - 1], run[n]);
      StepKeepsReleasable(run[n - 1], events[n - 1], run[n]);
    }
  }

  lemma NothingHeld()
    ensures Releasable(System(map[], {}, [], []))
  {
  }

  /** An acquisition that has lost its mount is never given back. */
  lemma StrandedStays(s: System, e: Event, t: System, a: Key)
    requires Balanced(s) && Step(s, e, t) && a in s.held && a.mount !in s.mounted
    ensures a in t.held && a.mount !in t.mounted
  {
    KeptWhileCovered(s, a);
    assert Covers(a, a) && a in s.refs;
    if e.Releasing? {
      var j :| 0 <= j < |s.held| && s.held[j] == a;
      assert t.held[if j < e.i then j else j - 1] == a;
    }
  }

  /** A failed acquisition changes no count if and only if it did not fail to make a node below the first
      component. */
  lemma FailureRestores(before: Refs, after: Refs, m: nat, comps: seq<string>, o: Outcome)
    requires o != Acquired && After(before, after, m, comps, o)
    ensures after == before <==> !(o.GetFailed? && o.at > 0)
  {
    if o.GetFailed? && o.at > 0 {
      assert Covers(Key(m, comps[..o.at - 1]), Key(m, []));
      assert Ref(after, Key(m, [])) == Ref(before, Key(m, [])) + 1;
    }
  }
}
