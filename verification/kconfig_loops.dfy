/** Dependency loop detection: depth-first search over the `_dependents` graph of a choice-free
    configuration, with its three-state `_visited` marks and the loop collected on the way back. */
module KconfigLoops {
  import Sets

  /** Dependents of each symbol, in the order they are visited. */
  type Graph = seq<seq<nat>>

  /** What one call of the search brings back: nothing, an unfinished loop, or the exception with a whole one. */
  datatype Outcome = NoLoop | Partial(loop: seq<nat>) | Raised(loop: seq<nat>)

  predicate WellFormed(g: Graph) {
    forall u, k :: 0 <= u < |g| && 0 <= k < |g[u]| ==> g[u][k] < |g|
  }

  predicate Edge(g: Graph, u: nat, v: nat) {
    u < |g| && v in g[u]
  }

  /** The search records a loop backwards: each symbol is followed by one it is a dependent of. */
  ghost predicate Chain(g: Graph, c: seq<nat>) {
    forall i :: 0 <= i < |c| - 1 ==> Edge(g, c[i + 1], c[i])
  }

  ghost predicate Cycle(g: Graph, c: seq<nat>) {
    c != [] && Chain(g, c) && Edge(g, c[0], c[|c| - 1])
  }

  ghost predicate HasCycle(g: Graph) {
    exists c :: Cycle(g, c)
  }

  /** An order in which every symbol comes after all its dependents. */
  ghost predicate Topological(g: Graph, order: seq<nat>) {
    && (forall i, j :: 0 <= i < j < |order| ==> order[i] != order[j])
    && (forall i :: 0 <= i < |order| ==> order[i] < |g| && Behind(g, order, i))
  }

  ghost predicate Behind(g: Graph, order: seq<nat>, i: nat)
    requires i < |order|
  {
    forall v :: Edge(g, order[i], v) ==> v in order[..i]
  }

  function Position(order: seq<nat>, v: nat): (p: nat)
    requires v in order
    ensures p < |order| && order[p] == v
  {
    if order[0] == v then 0 else 1 + Position(order[1..], v)
  }

  lemma EdgeGoesBack(g: Graph, order: seq<nat>, u: nat, v: nat)
    requires Topological(g, order) && u in order && Edge(g, u, v)
    ensures v in order && Position(order, v) < Position(order, u)
  {
    var i := Position(order, u);
    assert Behind(g, order, i);
    var j :| 0 <= j < i && order[j] == v;
    assert order[Position(order, v)] == v;
  }

  lemma {:induction false} ChainGoesForward(g: Graph, order: seq<nat>, c: seq<nat>)
    requires Topological(g, order) && Chain(g, c) && c != [] && c[|c| - 1] in order
    ensures c[0] in order && Position(order, c[0]) <= Position(order, c[|c| - 1])
  {
    if |c| > 1 {
      var d := c[..|c| - 1];
      assert Edge(g, c[|c| - 1], c[|c| - 2]);
      EdgeGoesBack(g, order, c[|c| - 1], c[|c| - 2]);
      assert Chain(g, d) by {
        forall i | 0 <= i < |d| - 1 ensures Edge(g, d[i + 1], d[i]) { assert Edge(g, c[i + 1], c[i]); }
      }
      ChainGoesForward(g, order, d);
    }
  }

  /** An order of all symbols rules cycles out. */
  lemma OrderedHasNoCycle(g: Graph, order: seq<nat>)
    requires Topological(g, order) && forall v: nat :: v < |g| ==> v in order
    ensures !HasCycle(g)
  {
    forall c ensures !Cycle(g, c) {
      if Cycle(g, c) {
        if |c| > 1 { assert Edge(g, c[|c| - 1], c[|c| - 2]); }
        ChainGoesForward(g, order, c);
        EdgeGoesBack(g, order, c[0], c[|c| - 1]);
      }
    }
  }

  // ----- the marks -----

  /** Marks 1 are the call stack; marks 2 are finished, in topological order. */
  ghost predicate MarksOk(g: Graph, vis: seq<nat>, stack: seq<nat>, order: seq<nat>) {
    && |vis| == |g|
    && (forall v :: 0 <= v < |g| ==> vis[v] <= 2)
    && (forall v: nat :: v < |g| && vis[v] == 1 <==> v in stack)
    && (forall v: nat :: v < |g| && vis[v] == 2 <==> v in order)
    && Topological(g, order)
  }

  /** Finished symbols stay finished and no symbol becomes unvisited. */
  ghost predicate Progress(was: seq<nat>, vis: seq<nat>) {
    |was| == |vis| && forall v :: 0 <= v < |vis| ==> (was[v] == 2 ==> vis[v] == 2) && (was[v] != 0 ==> vis[v] != 0)
  }

  function Unvisited(vis: seq<nat>): set<nat> {
    set v: nat | v < |vis| && vis[v] == 0
  }

  /** A loop under collection: it began at a symbol of the stack and has come back as far as `sym`. */
  ghost predicate Collected(g: Graph, loop: seq<nat>, sym: nat, stack: seq<nat>) {
    Chain(g, loop) && loop != [] && loop[|loop| - 1] == sym && loop[0] in stack
  }

  lemma EnterOk(g: Graph, vis: seq<nat>, stack: seq<nat>, order: seq<nat>, sym: nat)
    requires MarksOk(g, vis, stack, order) && sym < |g| && vis[sym] == 0
    ensures MarksOk(g, vis[sym := 1], stack + [sym], order)
  {
  }

  lemma FewerUnvisited(before: seq<nat>, sym: nat, vis: seq<nat>)
    requires sym < |before| && before[sym] == 0 && Progress(before[sym := 1], vis)
    ensures |Unvisited(vis)| < |Unvisited(before)|
  {
    assert sym in Unvisited(before);
    forall v | v in Unvisited(vis) ensures v in Unvisited(before) - {sym} {
      assert before[sym := 1][v] == 0;
    }
    Sets.SubsetSize(Unvisited(vis), Unvisited(before) - {sym});
  }

  lemma DependentInRange(g: Graph, sym: nat, i: nat)
    requires WellFormed(g) && sym < |g| && i < |g[sym]|
    ensures g[sym][i] < |g| && Edge(g, sym, g[sym][i])
  {
  }

  lemma FinishOk(g: Graph, before: seq<nat>, vis: seq<nat>, stack: seq<nat>, order: seq<nat>, sym: nat)
    requires MarksOk(g, vis, stack + [sym], order) && sym < |g| && sym !in stack
    requires |before| == |vis| && before[sym] == 0 && Progress(before[sym := 1], vis)
    requires forall k :: 0 <= k < |g[sym]| ==> g[sym][k] < |g| && vis[g[sym][k]] == 2
    ensures MarksOk(g, vis[sym := 2], stack, order + [sym]) && Progress(before, vis[sym := 2])
  {
    assert vis[sym] == 1 by { assert sym in stack + [sym]; }
    forall v | Edge(g, sym, v) ensures v in order {
      var k :| 0 <= k < |g[sym]| && g[sym][k] == v;
    }
    FinishKeepsOrder(g, order, sym);
    var after := vis[sym := 2];
    forall v | 0 <= v < |vis| ensures (before[v] == 2 ==> after[v] == 2) && (before[v] != 0 ==> after[v] != 0) {
      if v != sym { assert before[sym := 1][v] == before[v]; }
    }
  }

  lemma LoopGrows(g: Graph, loop: Outcome, sym: nat, dep: nat, stack: seq<nat>)
    requires Edge(g, sym, dep) && !loop.NoLoop?
    requires loop.Partial? ==> Collected(g, loop.loop, dep, stack + [sym])
    requires loop.Raised? ==> Cycle(g, loop.loop)
    ensures var r := FoundDepLoop(loop, sym);
      && !r.NoLoop? && (r.Partial? ==> Collected(g, r.loop, sym, stack)) && (r.Raised? ==> Cycle(g, r.loop))
  {
    if loop.Partial? && sym != loop.loop[0] {
      var c := loop.loop + [sym];
      forall i | 0 <= i < |c| - 1 ensures Edge(g, c[i + 1], c[i]) {
        if i < |loop.loop| - 1 { assert Edge(g, loop.loop[i + 1], loop.loop[i]); }
      }
    }
  }

  class LoopCheck {
    const g: Graph
    const visited: array<nat>
    ghost var order: seq<nat>  // symbols marked 2, oldest first

    constructor (g: Graph)
      requires WellFormed(g)
      ensures this.g == g && fresh(visited) && Valid([])
      ensures forall v :: 0 <= v < |g| ==> visited[v] == 0
    {
      this.g := g;
      visited := new nat[|g|](i => 0);
      order := [];
    }

    ghost predicate Valid(stack: seq<nat>)
      reads this, visited
    {
      WellFormed(g) && MarksOk(g, visited[..], stack, order)
    }

    /** _check_dep_loop_sym. */
    method CheckSym(sym: nat, ghost stack: seq<nat>) returns (r: Outcome)
      requires Valid(stack) && sym < |g|
      modifies this, visited
      ensures r.NoLoop? ==> Valid(stack) && visited[sym] == 2 && Progress(old(visited[..]), visited[..])
      ensures r.Partial? ==> Collected(g, r.loop, sym, stack)
      ensures r.Raised? ==> Cycle(g, r.loop)
      decreases |Unvisited(visited[..])|
    {
      if visited[sym] == 0 {
        ghost var before := visited[..];
        visited[sym] := 1;
        ghost var inner := stack + [sym];
        EnterOk(g, before, stack, order, sym);
        assert visited[..] == before[sym := 1];
        hide MarksOk, Chain, Cycle, WellFormed, Unvisited;
        var i := 0;
        while i < |g[sym]|
          invariant i <= |g[sym]| && Valid(inner) && Progress(before[sym := 1], visited[..])
          invariant forall k :: 0 <= k < i ==> g[sym][k] < |g| && visited[g[sym][k]] == 2
        {
          var dep := g[sym][i];
          FewerUnvisited(before, sym, visited[..]);
          DependentInRange(g, sym, i);
          var loop := CheckSym(dep, inner);
          if !loop.NoLoop? {
            LoopGrows(g, loop, sym, dep, stack);
            return FoundDepLoop(loop, sym);
          }
          i := i + 1;
        }
        FinishOk(g, before, visited[..], stack, order, sym);
        visited[sym] := 2;
        order := order + [sym];
        return NoLoop;
      }
      if visited[sym] == 2 {
        return NoLoop;
      }
      return Partial([sym]);
    }

    /** The check of all defined symbols after loading. */
    method CheckAll() returns (r: Outcome)
      requires Valid([])
      modifies this, visited
      ensures r.Raised? ==> Cycle(g, r.loop)
      ensures r.Raised? <==> HasCycle(g)
      ensures !r.Raised? ==> r.NoLoop? && (forall v :: 0 <= v < |g| ==> visited[v] == 2)
      ensures !r.Raised? ==> Topological(g, order) && forall v: nat :: v < |g| ==> v in order
    {
      var i := 0;
      while i < |g|
        invariant i <= |g| && Valid([])
        invariant forall v :: 0 <= v < i ==> visited[v] == 2
      {
        r := CheckSym(i, []);
        if !r.NoLoop? {
          return;
        }
        i := i + 1;
      }
      OrderedHasNoCycle(g, order);
      r := NoLoop;
    }
  }

  /** _found_dep_loop: either the loop is closed at this symbol, and reported, or it grows by it. */
  function FoundDepLoop(loop: Outcome, cur: nat): Outcome
    requires !loop.NoLoop? && (loop.Partial? ==> loop.loop != [])
  {
    if loop.Raised? then loop
    else if cur != loop.loop[0] then Partial(loop.loop + [cur])
    else Raised(loop.loop)
  }

  lemma FinishKeepsOrder(g: Graph, order: seq<nat>, sym: nat)
    requires Topological(g, order) && sym < |g| && sym !in order
    requires forall v :: Edge(g, sym, v) ==> v in order
    ensures Topological(g, order + [sym])
  {
    var o := order + [sym];
    forall i | 0 <= i < |o| ensures o[i] < |g| && Behind(g, o, i) {
      if i < |order| {
        assert Behind(g, order, i) && o[..i] == order[..i];
      } else {
        assert o[..i] == order;
      }
    }
  }
}
