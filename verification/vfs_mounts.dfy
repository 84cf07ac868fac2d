/** Mounts on directories: a mount holds an acquisition of the directory it covers for as long as it is in use, which
    is what keeps the mount below it from being taken away. */
module VfsMounts {
  import opened VfsIndex

  // ----- runs -----

  /** A mount and the directory it covers, named by the mount below and the path there. */
  datatype Cover = Cover(mount: nat, node: Key)

  /** `user` are the acquisitions of everybody else; a mount on "/" covers nothing. */
  datatype Tree = Tree(sys: System, user: seq<Key>, covers: seq<Cover>)

  datatype Change =
    | Simple(e: Event)                                  // an acquisition, or a mount on "/"
    | GivingBack(i: nat, j: nat)                        // of user[j], which is held[i]
    | Covering(m: nat, below: nat, comps: seq<string>, trailing: bool, answers: seq<Answer>)
    | Uncovering(m: nat)                                // an unmount

  function Nodes(covers: seq<Cover>): seq<Key> {
    seq(|covers|, i requires 0 <= i < |covers| => covers[i].node)
  }

  function Without<T>(s: seq<T>, i: nat): seq<T>
    requires i < |s|
  {
    s[..i] + s[i + 1..]
  }

  ghost predicate Busy(s: System, m: nat) {
    exists k :: k in s.refs && k.mount == m && k.path != []
  }

  /** Acquired, then mounted upon. */
  ghost predicate CoverStep(s: System, below: nat, comps: seq<string>, trailing: bool, answers: seq<Answer>, m: nat,
      t: System)
  {
    exists mid ::
      && Step(s, Acquiring(below, comps, trailing, answers), mid)
      && |mid.held| == |s.held| + 1 && Step(mid, Mounting(m), t)
  }

  /** Unmounted, then the covered directory released. */
  ghost predicate UncoverStep(s: System, m: nat, node: Key, t: System) {
    exists mid, i: nat ::
      Step(s, Unmounting(m), mid) && i < |mid.held| && mid.held[i] == node && Step(mid, Releasing(i), t)
  }

  ghost predicate TreeStep(s: Tree, c: Change, t: Tree) {
    match c
    case Simple(e) =>
      && (e.Acquiring? || e.Mounting?) && Step(s.sys, e, t.sys) && t.covers == s.covers
      && |s.sys.held| <= |t.sys.held|
      && t.user == s.user + t.sys.held[|s.sys.held|..]
    case GivingBack(i, j) =>
      && i < |s.sys.held| && j < |s.user| && s.sys.held[i] == s.user[j] && Step(s.sys, Releasing(i), t.sys)
      && t.user == Without(s.user, j) && t.covers == s.covers
    case Covering(m, below, comps, trailing, answers) =>
      && comps != [] && CoverStep(s.sys, below, comps, trailing, answers, m, t.sys)
      && t.user == s.user && t.covers == s.covers + [Cover(m, Key(below, comps))]
    case Uncovering(m) =>
      if Busy(s.sys, m) then Step(s.sys, Unmounting(m), t.sys) && t == s
      else if exists j :: 0 <= j < |s.covers| && s.covers[j].mount == m then
        exists j :: 0 <= j < |s.covers| && s.covers[j].mount == m
          && UncoverStep(s.sys, m, s.covers[j].node, t.sys)
          && t.user == s.user && t.covers == Without(s.covers, j)
      else Step(s.sys, Unmounting(m), t.sys) && t.user == s.user && t.covers == s.covers
  }

  /** Everything acquired is some user's or a cover's; covers are of mounts in use, on directories of mounts in use
      other than their roots. */
  ghost predicate TreeOk(t: Tree) {
    && Balanced(t.sys)
    && multiset(t.sys.held) == multiset(t.user) + multiset(Nodes(t.covers))
    && (forall j :: 0 <= j < |t.covers| ==> CoverOk(t.sys, t.covers[j]))
    && (forall i, j :: 0 <= i < j < |t.covers| ==> t.covers[i].mount != t.covers[j].mount)
  }

  predicate CoverOk(s: System, c: Cover) {
    c.mount in s.mounted && c.node.path != [] && c.node.mount in s.mounted
  }

  lemma WithoutAt<T>(s: seq<T>, i: nat)
    requires i < |s|
    ensures multiset(Without(s, i)) == multiset(s) - multiset{s[i]}
  {
    assert s == s[..i] + [s[i]] + s[i + 1..];
  }

  lemma NodesAt(covers: seq<Cover>, j: nat)
    requires j < |covers|
    ensures covers[j].node in multiset(Nodes(covers))
    ensures multiset(Nodes(Without(covers, j))) == multiset(Nodes(covers)) - multiset{covers[j].node}
  {
    assert Nodes(covers)[j] == covers[j].node;
    assert Nodes(Without(covers, j)) == Without(Nodes(covers), j);
    WithoutAt(Nodes(covers), j);
  }

  lemma NodesAppend(covers: seq<Cover>, c: Cover)
    ensures Nodes(covers + [c]) == Nodes(covers) + [c.node]
  {
  }

  lemma CoverHeld(t: Tree, j: nat)
    requires TreeOk(t) && j < |t.covers|
    ensures t.covers[j].node in t.sys.held && Busy(t.sys, t.covers[j].node.mount)
  {
    var node := t.covers[j].node;
    NodesAt(t.covers, j);
    assert node in multiset(t.sys.held);
    assert CoverOk(t.sys, t.covers[j]);
    KeptWhileCovered(t.sys, node);
    assert Covers(node, node) && node in t.sys.refs;
  }

  /** A mount stays busy while another one covers a directory of it; so an unmount finds the mount below in use when
      it comes to release that directory. */
  lemma CoveredIsBusy(t: Tree, c: Cover)
    requires TreeOk(t) && c in t.covers
    ensures Busy(t.sys, c.node.mount) && c.node.mount in t.sys.mounted && c.node in t.sys.held
    ensures !Busy(t.sys, c.mount) ==> c.node.mount != c.mount
  {
    var j :| 0 <= j < |t.covers| && t.covers[j] == c;
    CoverHeld(t, j);
    assert CoverOk(t.sys, t.covers[j]);
  }

  lemma SimpleKeeps(s: Tree, e: Event, t: Tree)
    requires TreeOk(s) && TreeStep(s, Simple(e), t)
    ensures TreeOk(t)
  {
    hide Balanced, Added, After, Predict;
    StepKeepsBalance(s.sys, e, t.sys);
    var more := t.sys.held[|s.sys.held|..];
    assert t.sys.held == s.sys.held + more;
    forall j | 0 <= j < |t.covers| ensures CoverOk(t.sys, t.covers[j]) { assert CoverOk(s.sys, s.covers[j]); }
  }

  lemma GivingBackKeeps(s: Tree, i: nat, j: nat, t: Tree)
    requires TreeOk(s) && TreeStep(s, GivingBack(i, j), t)
    ensures TreeOk(t)
  {
    hide Balanced, Removed;
    StepKeepsBalance(s.sys, Releasing(i), t.sys);
    WithoutAt(s.sys.held, i);
    WithoutAt(s.user, j);
    forall k | 0 <= k < |t.covers| ensures CoverOk(t.sys, t.covers[k]) { assert CoverOk(s.sys, s.covers[k]); }
  }

  lemma CoveringKeeps(s: Tree, m: nat, below: nat, comps: seq<string>, trailing: bool, answers: seq<Answer>, t: Tree)
    requires TreeOk(s) && TreeStep(s, Covering(m, below, comps, trailing, answers), t)
    ensures TreeOk(t)
  {
    hide Balanced, Step;
    var mid :|
      && Step(s.sys, Acquiring(below, comps, trailing, answers), mid)
      && |mid.held| == |s.sys.held| + 1 && Step(mid, Mounting(m), t.sys);
    StepKeepsBalance(s.sys, Acquiring(below, comps, trailing, answers), mid);
    StepKeepsBalance(mid, Mounting(m), t.sys);
    AcquiredOne(s.sys, below, comps, trailing, answers, mid);
    MountedOne(mid, m, t.sys);
    MoreCovers(s, Cover(m, Key(below, comps)), t);
  }

  lemma AcquiredOne(s: System, below: nat, comps: seq<string>, trailing: bool, answers: seq<Answer>, t: System)
    requires Step(s, Acquiring(below, comps, trailing, answers), t) && |t.held| == |s.held| + 1
    ensures t.held == s.held + [Key(below, comps)] && t.mounted == s.mounted && below in s.mounted
  {
  }

  lemma MountedOne(s: System, m: nat, t: System)
    requires Step(s, Mounting(m), t)
    ensures t.held == s.held && t.mounted == s.mounted + {m} && m !in s.mounted
  {
  }

  lemma MoreCovers(s: Tree, c: Cover, t: Tree)
    requires TreeOk(s) && Balanced(t.sys) && t.user == s.user && t.covers == s.covers + [c]
    requires t.sys.held == s.sys.held + [c.node] && t.sys.mounted == s.sys.mounted + {c.mount}
    requires c.mount !in s.sys.mounted && c.node.path != [] && c.node.mount in s.sys.mounted
    ensures TreeOk(t)
  {
    hide Balanced;
    NodesAppend(s.covers, c);
    forall j | 0 <= j < |t.covers| ensures CoverOk(t.sys, t.covers[j]) {
      if j < |s.covers| { assert CoverOk(s.sys, s.covers[j]); }
    }
    forall i, j | 0 <= i < j < |t.covers| ensures t.covers[i].mount != t.covers[j].mount {
      assert CoverOk(s.sys, s.covers[i]);
    }
  }

  /** What an unmount leaves of the covers: no directory of the mount that goes was covered. */
  lemma UnmountKeeps(s: Tree, m: nat, mid: System)
    requires TreeOk(s) && !Busy(s.sys, m) && Step(s.sys, Unmounting(m), mid)
    ensures Balanced(mid) && mid.held == s.sys.held && mid.mounted == s.sys.mounted - {m}
    ensures forall j :: 0 <= j < |s.covers| && s.covers[j].mount != m ==> CoverOk(mid, s.covers[j])
  {
    StepKeepsBalance(s.sys, Unmounting(m), mid);
    hide Balanced, Removed;
    forall j | 0 <= j < |s.covers| && s.covers[j].mount != m ensures CoverOk(mid, s.covers[j]) {
      assert CoverOk(s.sys, s.covers[j]);
      CoverHeld(s, j);
    }
  }

  lemma UncoveringKeeps(s: Tree, m: nat, t: Tree)
    requires TreeOk(s) && TreeStep(s, Uncovering(m), t)
    ensures TreeOk(t)
  {
    hide Balanced, Removed, Busy, Step, CoverOk;
    if Busy(s.sys, m) {
    } else if exists j :: 0 <= j < |s.covers| && s.covers[j].mount == m {
      var j :| 0 <= j < |s.covers| && s.covers[j].mount == m
        && UncoverStep(s.sys, m, s.covers[j].node, t.sys)
        && t.user == s.user && t.covers == Without(s.covers, j);
      var mid, i: nat :| Step(s.sys, Unmounting(m), mid) && i < |mid.held| && mid.held[i] == s.covers[j].node
        && Step(mid, Releasing(i), t.sys);
      UnmountKeeps(s, m, mid);
      ReleasedCover(s, j, mid, i, t);
    } else {
      UnmountKeeps(s, m, t.sys);
    }
  }

  lemma ReleasedCover(s: Tree, j: nat, mid: System, i: nat, t: Tree)
    requires TreeOk(s) && Balanced(mid) && mid.held == s.sys.held && j < |s.covers|
    requires forall k :: 0 <= k < |s.covers| && s.covers[k].mount != s.covers[j].mount ==> CoverOk(mid, s.covers[k])
    requires i < |mid.held| && mid.held[i] == s.covers[j].node && Step(mid, Releasing(i), t.sys)
    requires t.user == s.user && t.covers == Without(s.covers, j)
    ensures TreeOk(t)
  {
    hide Balanced, Step, Without, Nodes, CoverOk;
    StepKeepsBalance(mid, Releasing(i), t.sys);
    ReleasedOne(mid, i, t.sys);
    WithoutAt(mid.held, i);
    NodesAt(s.covers, j);
    FewerCovers(s, j, mid, t);
  }

  lemma ReleasedOne(s: System, i: nat, t: System)
    requires Step(s, Releasing(i), t)
    ensures i < |s.held| && t.held == Without(s.held, i) && t.mounted == s.mounted
  {
  }

  lemma FewerCovers(s: Tree, j: nat, mid: System, t: Tree)
    requires j < |s.covers| && t.covers == Without(s.covers, j) && t.sys.mounted == mid.mounted
    requires forall k, l :: 0 <= k < l < |s.covers| ==> s.covers[k].mount != s.covers[l].mount
    requires forall k :: 0 <= k < |s.covers| && s.covers[k].mount != s.covers[j].mount ==> CoverOk(mid, s.covers[k])
    ensures forall k :: 0 <= k < |t.covers| ==> CoverOk(t.sys, t.covers[k])
    ensures forall k, l :: 0 <= k < l < |t.covers| ==> t.covers[k].mount != t.covers[l].mount
  {
    forall k | 0 <= k < |t.covers| ensures CoverOk(t.sys, t.covers[k]) {
      assert t.covers[k] == s.covers[if k < j then k else k + 1];
      assert CoverOk(mid, s.covers[if k < j then k else k + 1]);
    }
  }

  ghost predicate IsTreeRun(run: seq<Tree>, changes: seq<Change>) {
    && |run| == |changes| + 1
    && run[0] == Tree(System(map[], {}, [], []), [], [])
    && forall i :: 0 <= i < |changes| ==> TreeStep(run[i], changes[i], run[i + 1])
  }

  lemma StepKeepsTree(s: Tree, c: Change, t: Tree)
    requires TreeOk(s) && TreeStep(s, c, t)
    ensures TreeOk(t)
  {
    hide TreeOk, TreeStep;
    match c
    case Simple(e) => SimpleKeeps(s, e, t);
    case GivingBack(i, j) => GivingBackKeeps(s, i, j, t);
    case Covering(m, below, comps, trailing, answers) => CoveringKeeps(s, m, below, comps, trailing, answers, t);
    case Uncovering(m) => UncoveringKeeps(s, m, t);
  }

  lemma {:induction false} RunKeepsTree(run: seq<Tree>, changes: seq<Change>)
    requires IsTreeRun(run, changes)
    ensures TreeOk(run[|changes|])
    decreases |changes|
  {
    hide TreeStep;
    var n := |changes|;
    if n > 0 {
      assert IsTreeRun(run[..n], changes[..n - 1]);
      RunKeepsTree(run[..n], changes[..n - 1]);
      assert TreeStep(run[n - 1], changes[n - 1], run[n]);
      StepKeepsTree(run[n - 1], changes[n - 1], run[n]);
    }
  }

  /** In every run a mount with a directory that another one covers is in use and cannot be unmounted. */
  lemma CoveredStaysMounted(run: seq<Tree>, changes: seq<Change>, c: Cover)
    requires IsTreeRun(run, changes) && c in run[|changes|].covers
    ensures var t := run[|changes|];
      c.mount in t.sys.mounted && c.node.mount in t.sys.mounted && Busy(t.sys, c.node.mount)
    ensures forall t :: TreeStep(run[|changes|], Uncovering(c.node.mount), t) ==> t == run[|changes|]
  {
    RunKeepsTree(run, changes);
    CoveredIsBusy(run[|changes|], c);
    var j :| 0 <= j < |run[|changes|].covers| && run[|changes|].covers[j] == c;
    assert CoverOk(run[|changes|].sys, run[|changes|].covers[j]);
  }

  // ----- the code -----

  /** The node index, and for each mount on a directory the node of that directory. */
  class Mounts {
    const index: NodeIndex
    var covered: map<nat, Node>

    constructor ()
      ensures fresh(index) && index.Valid() && index.refs == map[] && index.mounted == {} && covered == map[]
    {
      index := new NodeIndex();
      covered := map[];
    }

    /** What VfsNodeRelease asks for. */
    ghost predicate Releasable(n: Node)
      reads index, index.nodes
    {
      && n in index.nodes && n.mount in index.roots && Key(n.mount, []) in index.refs
      && (n.mount in index.mounted ==> index.refs[Key(n.mount, [])] > 1)
    }

    /** NX_VfsMountFileSystem for a path other than "/": the directory is acquired on the mount below, and released
        again if it is none or the mount fails. */
    method MountOn(m: nat, below: nat, comps: seq<string>, trailing: bool, answers: seq<Answer>,
        isDir: bool, nodeOk: bool, fsOk: bool, clash: bool)
      returns (ok: bool)
      requires index.Valid() && m !in index.mountRefs && forall k :: k in index.refs ==> k.mount != m
      requires below in index.mounted && |answers| == |comps|
      modifies this, index, index.nodes
      ensures index.Valid()
      ensures var o := Predict(old(index.refs), below, comps, trailing, answers, 0);
        && (ok <==> o == Acquired && isDir && nodeOk && fsOk && !clash)
        && (o != Acquired ==> After(old(index.refs), index.refs, below, comps, o))
        && (o == Acquired && !ok ==> index.refs == old(index.refs))
      ensures ok ==> AddedTwice(old(index.refs), index.refs, Key(below, comps), Key(m, []))
      ensures ok ==> index.mounted == old(index.mounted) + {m}
      ensures ok ==> m in covered && covered == old(covered)[m := covered[m]]
      ensures ok ==> covered[m].Id() == Key(below, comps) && Releasable(covered[m])
      ensures !ok ==> index.mounted == old(index.mounted) && covered == old(covered)
    {
      hide NodeIndex.Valid, Predict, After, Added, Removed, AddedTwice, Positive;
      index.PositiveRefs();
      index.MountInUse(below);
      ghost var before, a := index.refs, Key(below, comps);
      var o, np := index.Acquire(below, comps, trailing, answers);
      if np.None? {
        return false;
      }
      AcquiredAfter(before, index.refs, below, comps, o);
      if !isDir {
        index.GiveUp(np.value, before);
        return false;
      }
      ghost var acquired := index.refs;
      index.PositiveRefs();
      StillUnused(before, index.refs, a, m);
      ok := index.Mount(m, nodeOk, fsOk, clash);
      if !ok {
        index.GiveUp(np.value, before);
        return false;
      }
      BothAdded(before, acquired, index.refs, a, Key(m, []));
      index.MountInUse(below);
      index.PositiveRefs();
      RootTwice(before, index.refs, a, Key(m, []));
      covered := covered[m := np.value];
    }

    /** NX_VfsUnmountFileSystem: the covered directory is released with the mount. */
    method Unmount(m: nat) returns (busy: bool)
      requires index.Valid() && m in index.mounted
      requires m in covered ==> Releasable(covered[m]) && covered[m].mount != m
      modifies this, index, index.nodes
      ensures index.Valid()
      ensures busy <==> exists k :: k in old(index.refs) && k.mount == m && k.path != []
      ensures busy ==> index.refs == old(index.refs) && index.mounted == old(index.mounted) && covered == old(covered)
      ensures !busy ==> index.mounted == old(index.mounted) - {m} && covered == old(covered) - {m}
      ensures !busy && m !in old(covered) ==> Removed(old(index.refs), index.refs, Key(m, []))
      ensures !busy && m in old(covered) ==>
        RemovedTwice(old(index.refs), index.refs, Key(m, []), old(covered[m].Id()))
    {
      hide NodeIndex.Valid, Removed, RemovedTwice;
      index.PositiveRefs();
      ghost var before := index.refs;
      busy := index.Unmount(m);
      if busy {
        return;
      }
      if m in covered {
        var n := covered[m];
        ghost var at := index.refs;
        OthersKept(before, at, m, Key(n.mount, []));
        index.Release(n);
        BothRemoved(before, at, index.refs, Key(m, []), n.Id());
      }
      covered := covered - {m};
    }
  }

  /** One reference more for what the first covers, and one for what the second does. */
  ghost predicate AddedTwice(before: Refs, after: Refs, a: Key, b: Key) {
    exists at :: Added(before, at, a) && Added(at, after, b)
  }

  ghost predicate RemovedTwice(before: Refs, after: Refs, a: Key, b: Key) {
    exists at :: Removed(before, at, a) && Removed(at, after, b)
  }

  lemma BothAdded(before: Refs, at: Refs, after: Refs, a: Key, b: Key)
    requires Added(before, at, a) && Added(at, after, b)
    ensures AddedTwice(before, after, a, b)
  {
  }

  lemma BothRemoved(before: Refs, at: Refs, after: Refs, a: Key, b: Key)
    requires Removed(before, at, a) && Removed(at, after, b)
    ensures RemovedTwice(before, after, a, b)
  {
  }

  lemma AcquiredAfter(before: Refs, refs: Refs, m: nat, comps: seq<string>, o: Outcome)
    requires After(before, refs, m, comps, o)
    ensures o == Acquired ==> Added(before, refs, Key(m, comps))
  {
  }

  lemma StillUnused(before: Refs, refs: Refs, a: Key, m: nat)
    requires Added(before, refs, a) && a.mount != m && Positive(refs) && forall k :: k in before ==> k.mount != m
    ensures forall k :: k in refs ==> k.mount != m
  {
    forall k | k in refs ensures k.mount != m {
      assert Ref(refs, k) == Ref(before, k) + if Covers(a, k) then 1 else 0;
    }
  }

  /** The root below is referenced by its mount and by the directory covered. */
  lemma RootTwice(before: Refs, after: Refs, a: Key, b: Key)
    requires AddedTwice(before, after, a, b) && Positive(before) && Key(a.mount, []) in before
    ensures Key(a.mount, []) in after && after[Key(a.mount, [])] > 1
  {
    var at :| Added(before, at, a) && Added(at, after, b);
    var root := Key(a.mount, []);
    assert Covers(a, root);
    assert Ref(at, root) == Ref(before, root) + 1 && Ref(after, root) >= Ref(at, root);
  }

  lemma OthersKept(before: Refs, at: Refs, m: nat, k: Key)
    requires Removed(before, at, Key(m, [])) && k.mount != m
    ensures Positive(before) && k in before ==> k in at && at[k] == before[k]
  {
    assert Ref(at, k) == Ref(before, k);
  }
}
