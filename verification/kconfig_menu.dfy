/** Menu finalisation: implicit submenus, flattening and the removal of `if` nodes, as changes of the links between
    menu nodes, against the same changes of the tree the links stand for. */
module KconfigMenu {

  datatype Item = IfItem | SymbolItem | ChoiceItem | OtherItem

  /** The first-child, next-sibling form of a list of menu nodes. */
  datatype Forest = Nil | Cons(id: nat, sub: Forest, rest: Forest)

  /** MenuNode.list, .next and .parent of every node; -1 is None. */
  datatype Links = Links(list: seq<int>, next: seq<int>, parent: seq<int>)

  /** What stays fixed: items, which nodes have prompts, and which node's prompt or dependency names which symbol. */
  datatype Nodes = Nodes(item: nat -> Item, prompt: nat -> bool, autoMenuDep: (nat, nat) -> bool)

  function Ids(f: Forest): set<nat> {
    if f.Nil? then {} else {f.id} + Ids(f.sub) + Ids(f.rest)
  }

  /** No node occurs twice. */
  predicate Proper(f: Forest) {
    f.Cons? ==>
      && f.id !in Ids(f.sub) && f.id !in Ids(f.rest) && Ids(f.sub) !! Ids(f.rest)
      && Proper(f.sub) && Proper(f.rest)
  }

  function Size(f: Forest): nat {
    if f.Nil? then 0 else 1 + Size(f.sub) + Size(f.rest)
  }

  /** Definition order: a node, its children, the nodes after it. */
  function Order(f: Forest): seq<nat> {
    if f.Nil? then [] else [f.id] + Order(f.sub) + Order(f.rest)
  }

  function Append(a: Forest, b: Forest): (r: Forest)
    ensures Ids(r) == Ids(a) + Ids(b) && Size(r) == Size(a) + Size(b)
  {
    if a.Nil? then b else Cons(a.id, a.sub, Append(a.rest, b))
  }

  lemma {:induction false} AppendProper(a: Forest, b: Forest)
    ensures Proper(Append(a, b)) <==> Proper(a) && Proper(b) && Ids(a) !! Ids(b)
  {
    if a.Cons? {
      AppendProper(a.rest, b);
    }
  }

  lemma {:induction false} AppendAssociative(a: Forest, b: Forest, c: Forest)
    ensures Append(Append(a, b), c) == Append(a, Append(b, c))
  {
    if a.Cons? {
      AppendAssociative(a.rest, b, c);
    }
  }

  lemma {:induction false} AppendNil(a: Forest)
    ensures Append(a, Nil) == a
  {
    if a.Cons? {
      AppendNil(a.rest);
    }
  }

  lemma {:induction false} AppendOrder(a: Forest, b: Forest)
    ensures Order(Append(a, b)) == Order(a) + Order(b)
  {
    if a.Cons? {
      AppendOrder(a.rest, b);
    }
  }

  // ----- what finalisation does to the tree -----

  /** As parsed, `if` nodes have no prompt ... */
  ghost predicate IfsPromptless(ns: Nodes) {
    forall id :: ns.item(id).IfItem? ==> !ns.prompt(id)
  }

  /** ... and symbols no children. */
  predicate SymbolsBare(ns: Nodes, f: Forest) {
    f.Cons? ==> (ns.item(f.id).SymbolItem? ==> f.sub.Nil?) && SymbolsBare(ns, f.sub) && SymbolsBare(ns, f.rest)
  }

  predicate Flattens(ns: Nodes, id: nat)
  {
    !ns.prompt(id) && !ns.item(id).ChoiceItem?
  }

  /** _flatten: the children of a node without a prompt come after it. */
  function Flattened(ns: Nodes, f: Forest): (r: Forest)
    ensures Ids(r) == Ids(f) && Size(r) == Size(f)
    decreases Size(f)
  {
    if f.Nil? then Nil
    else if f.sub.Cons? && Flattens(ns, f.id) then Cons(f.id, Nil, Flattened(ns, Append(f.sub, f.rest)))
    else Cons(f.id, f.sub, Flattened(ns, f.rest))
  }

  /** _remove_ifs */
  function WithoutIfs(ns: Nodes, f: Forest): (r: Forest)
    ensures Ids(r) <= Ids(f) && Size(r) <= Size(f)
  {
    if f.Nil? then Nil
    else if ns.item(f.id).IfItem? then WithoutIfs(ns, f.rest)
    else Cons(f.id, f.sub, WithoutIfs(ns, f.rest))
  }

  function Level(ns: Nodes, f: Forest): (r: Forest)
    ensures Ids(r) <= Ids(f) && Size(r) <= Size(f)
  {
    WithoutIfs(ns, Flattened(ns, f))
  }

  /** _finalize_node of the first node of f: what becomes of it and of the nodes after it. */
  function Finalized(ns: Nodes, f: Forest): (r: Forest)
    requires f.Cons?
    ensures r.Cons? && r.id == f.id && Ids(r) <= Ids(f) && Size(r) <= Size(f)
    decreases Size(f), 1
  {
    if ns.item(f.id).SymbolItem? then
      var (gathered, rest) := Gather(ns, f.id, f.rest);
      var sub := if gathered.Nil? then f.sub else gathered;
      Cons(f.id, Level(ns, sub), rest)
    else
      Cons(f.id, Level(ns, FinalizeAll(ns, f.sub)), f.rest)
  }

  /** The nodes that depend on symbol `id` right after it, finalised, and what is left. */
  function Gather(ns: Nodes, id: nat, f: Forest): (r: (Forest, Forest))
    ensures Ids(r.0) + Ids(r.1) <= Ids(f) && Size(r.0) + Size(r.1) <= Size(f)
    decreases Size(f), 2
  {
    if f.Nil? || !ns.autoMenuDep(id, f.id) then (Nil, f)
    else
      var first := Finalized(ns, f);
      var (gathered, rest) := Gather(ns, id, first.rest);
      (Cons(first.id, first.sub, gathered), rest)
  }

  function FinalizeAll(ns: Nodes, f: Forest): (r: Forest)
    ensures Ids(r) <= Ids(f) && Size(r) <= Size(f)
    decreases Size(f), 2
  {
    if f.Nil? then Nil
    else
      var first := Finalized(ns, f);
      Cons(first.id, first.sub, FinalizeAll(ns, first.rest))
  }

  // ----- definition order is kept -----

  /** The nodes other than `if` nodes, in their order. */
  function Kept(ns: Nodes, order: seq<nat>): seq<nat> {
    if order == [] then []
    else (if ns.item(order[0]).IfItem? then [] else [order[0]]) + Kept(ns, order[1..])
  }

  lemma {:induction false} KeptAppend(ns: Nodes, a: seq<nat>, b: seq<nat>)
    ensures Kept(ns, a + b) == Kept(ns, a) + Kept(ns, b)
  {
    if a == [] {
      assert a + b == b;
    } else {
      assert (a + b)[1..] == a[1..] + b;
      KeptAppend(ns, a[1..], b);
    }
  }

  predicate NoIfs(ns: Nodes, f: Forest) {
    f.Cons? ==> !ns.item(f.id).IfItem? && NoIfs(ns, f.sub) && NoIfs(ns, f.rest)
  }

  predicate NoIfsBelow(ns: Nodes, f: Forest) {
    f.Cons? ==> NoIfs(ns, f.sub) && NoIfsBelow(ns, f.rest)
  }

  predicate IfsEmpty(ns: Nodes, f: Forest) {
    f.Cons? ==> (ns.item(f.id).IfItem? ==> f.sub.Nil?) && IfsEmpty(ns, f.rest)
  }

  lemma {:induction false} BelowAppend(ns: Nodes, a: Forest, b: Forest)
    ensures NoIfs(ns, a) && NoIfsBelow(ns, b) ==> NoIfsBelow(ns, Append(a, b))
  {
    if a.Cons? {
      BelowAppend(ns, a.rest, b);
    }
  }

  lemma OrderCons(id: nat, sub: Forest, rest: Forest)
    ensures Order(Cons(id, sub, rest)) == [id] + (Order(sub) + Order(rest))
  {
  }

  lemma NothingFirst()
    ensures Order(Nil) == []
    ensures forall s: seq<nat> :: [] + s == s
  {
  }

  lemma {:induction false} FlattenKeepsOrder(ns: Nodes, f: Forest)
    requires IfsPromptless(ns)
    ensures Order(Flattened(ns, f)) == Order(f) && IfsEmpty(ns, Flattened(ns, f))
    ensures NoIfsBelow(ns, f) ==> NoIfsBelow(ns, Flattened(ns, f))
    decreases Size(f)
  {
    hide Order, Append, NoIfs;
    if f.Cons? {
      NothingFirst();
      OrderCons(f.id, f.sub, f.rest);
      if f.sub.Cons? && Flattens(ns, f.id) {
        var flat := Append(f.sub, f.rest);
        FlattenKeepsOrder(ns, flat);
        AppendOrder(f.sub, f.rest);
        BelowAppend(ns, f.sub, f.rest);
        OrderCons(f.id, Nil, Flattened(ns, flat));
        NoIfsOfNil(ns);
      } else {
        FlattenKeepsOrder(ns, f.rest);
        OrderCons(f.id, f.sub, Flattened(ns, f.rest));
      }
    }
  }

  lemma NoIfsOfNil(ns: Nodes)
    ensures NoIfs(ns, Nil)
  {
  }

  lemma {:induction false} RemoveIfsKeeps(ns: Nodes, f: Forest)
    requires IfsEmpty(ns, f)
    ensures Kept(ns, Order(WithoutIfs(ns, f))) == Kept(ns, Order(f))
    ensures NoIfsBelow(ns, f) ==> NoIfs(ns, WithoutIfs(ns, f))
  {
    if f.Cons? {
      RemoveIfsKeeps(ns, f.rest);
      KeptNode(ns, f.id, f.sub, f.rest);
      KeptNode(ns, f.id, f.sub, WithoutIfs(ns, f.rest));
    }
  }

  lemma KeptNode(ns: Nodes, id: nat, sub: Forest, rest: Forest)
    ensures Kept(ns, Order(Cons(id, sub, rest))) ==
      (if ns.item(id).IfItem? then [] else [id]) + Kept(ns, Order(sub)) + Kept(ns, Order(rest))
  {
    KeptAppend(ns, [id] + Order(sub), Order(rest));
    KeptAppend(ns, [id], Order(sub));
    assert [id][1..] == [];
  }

  lemma KeptNil(ns: Nodes)
    ensures Kept(ns, Order(Nil)) == []
  {
  }

  lemma LevelKeeps(ns: Nodes, f: Forest)
    requires IfsPromptless(ns) && NoIfsBelow(ns, f)
    ensures Kept(ns, Order(Level(ns, f))) == Kept(ns, Order(f)) && NoIfs(ns, Level(ns, f))
  {
    FlattenKeepsOrder(ns, f);
    RemoveIfsKeeps(ns, Flattened(ns, f));
  }

  /** Finalising a node keeps the definition order of all nodes but `if` nodes, and leaves none of those below it. */
  lemma {:induction false} FinalizeKeeps(ns: Nodes, f: Forest)
    requires f.Cons? && IfsPromptless(ns) && SymbolsBare(ns, f)
    ensures Kept(ns, Order(Finalized(ns, f))) == Kept(ns, Order(f))
    ensures NoIfs(ns, Finalized(ns, f).sub) && SymbolsBare(ns, Finalized(ns, f).rest)
    decreases Size(f), 1
  {
    hide Kept, Order, Gather, FinalizeAll, Level, NoIfs, NoIfsBelow;
    KeptNode(ns, f.id, f.sub, f.rest);
    var r := Finalized(ns, f);
    KeptNode(ns, f.id, r.sub, r.rest);
    if ns.item(f.id).SymbolItem? {
      GatherKeeps(ns, f.id, f.rest);
      LevelKeeps(ns, Gather(ns, f.id, f.rest).0);
      KeptNil(ns);
    } else {
      FinalizeAllKeeps(ns, f.sub);
      LevelKeeps(ns, FinalizeAll(ns, f.sub));
    }
  }

  lemma {:induction false} GatherKeeps(ns: Nodes, id: nat, f: Forest)
    requires IfsPromptless(ns) && SymbolsBare(ns, f)
    ensures var (gathered, rest) := Gather(ns, id, f);
      && Kept(ns, Order(gathered)) + Kept(ns, Order(rest)) == Kept(ns, Order(f))
      && NoIfsBelow(ns, gathered) && SymbolsBare(ns, rest)
    decreases Size(f), 2
  {
    hide Kept, Order, Finalized, SymbolsBare, NoIfs;
    KeptNil(ns);
    if f.Cons? && ns.autoMenuDep(id, f.id) {
      var first := Finalized(ns, f);
      FinalizeKeeps(ns, f);
      GatherKeeps(ns, id, first.rest);
      var gathered := Gather(ns, id, first.rest).0;
      KeptNode(ns, first.id, first.sub, first.rest);
      KeptNode(ns, first.id, first.sub, gathered);
    }
  }

  lemma {:induction false} FinalizeAllKeeps(ns: Nodes, f: Forest)
    requires IfsPromptless(ns) && SymbolsBare(ns, f)
    ensures Kept(ns, Order(FinalizeAll(ns, f))) == Kept(ns, Order(f)) && NoIfsBelow(ns, FinalizeAll(ns, f))
    decreases Size(f), 2
  {
    if f.Cons? {
      var first := Finalized(ns, f);
      FinalizeKeeps(ns, f);
      FinalizeAllKeeps(ns, first.rest);
      KeptNode(ns, first.id, first.sub, first.rest);
      KeptNode(ns, first.id, first.sub, FinalizeAll(ns, first.rest));
    }
  }

  // ----- no node comes to be linked twice -----

  lemma {:induction false} FlattenProper(ns: Nodes, f: Forest)
    requires Proper(f)
    ensures Proper(Flattened(ns, f))
    decreases Size(f)
  {
    if f.Cons? {
      if f.sub.Cons? && Flattens(ns, f.id) {
        AppendProper(f.sub, f.rest);
        FlattenProper(ns, Append(f.sub, f.rest));
      } else {
        FlattenProper(ns, f.rest);
      }
    }
  }

  lemma {:induction false} RemoveIfsProper(ns: Nodes, f: Forest)
    requires Proper(f)
    ensures Proper(WithoutIfs(ns, f))
  {
    if f.Cons? {
      RemoveIfsProper(ns, f.rest);
    }
  }

  lemma {:induction false} FinalizeProper(ns: Nodes, f: Forest)
    requires f.Cons? && Proper(f)
    ensures Proper(Finalized(ns, f))
    decreases Size(f), 1
  {
    if ns.item(f.id).SymbolItem? {
      GatherProper(ns, f.id, f.rest);
      var gathered := Gather(ns, f.id, f.rest).0;
      var sub := if gathered.Nil? then f.sub else gathered;
      FlattenProper(ns, sub);
      RemoveIfsProper(ns, Flattened(ns, sub));
    } else {
      FinalizeAllProper(ns, f.sub);
      FlattenProper(ns, FinalizeAll(ns, f.sub));
      RemoveIfsProper(ns, Flattened(ns, FinalizeAll(ns, f.sub)));
    }
  }

  lemma {:induction false} GatherProper(ns: Nodes, id: nat, f: Forest)
    requires Proper(f)
    ensures var (gathered, rest) := Gather(ns, id, f);
      Proper(gathered) && Proper(rest) && Ids(gathered) !! Ids(rest)
    decreases Size(f), 2
  {
    if f.Cons? && ns.autoMenuDep(id, f.id) {
      FinalizeProper(ns, f);
      GatherProper(ns, id, Finalized(ns, f).rest);
    }
  }

  lemma {:induction false} FinalizeAllProper(ns: Nodes, f: Forest)
    requires Proper(f)
    ensures Proper(FinalizeAll(ns, f))
    decreases Size(f), 2
  {
    if f.Cons? {
      FinalizeProper(ns, f);
      FinalizeAllProper(ns, Finalized(ns, f).rest);
    }
  }

  // ----- links and the tree they stand for -----

  predicate Sized(l: Links) {
    |l.list| == |l.next| == |l.parent|
  }

  function Start(f: Forest, after: int): int {
    if f.Nil? then after else f.id
  }

  /** The nodes of f are linked as f says, below `p`, and followed by `after`. */
  predicate Seg(l: Links, p: int, f: Forest, after: int)
    requires Sized(l)
    decreases f
  {
    f.Cons? ==>
      && f.id < |l.list|
      && l.parent[f.id] == p
      && l.list[f.id] == Start(f.sub, -1) && Seg(l, f.id, f.sub, -1)
      && l.next[f.id] == Start(f.rest, after) && Seg(l, p, f.rest, after)
  }

  /** Only links of the given nodes differ. */
  ghost predicate SameOutside(l: Links, m: Links, ids: set<nat>) {
    && Sized(l) && Sized(m) && |l.list| == |m.list|
    && forall i :: 0 <= i < |l.list| && i !in ids ==>
         m.list[i] == l.list[i] && m.next[i] == l.next[i] && m.parent[i] == l.parent[i]
  }

  lemma {:induction false} SegFrame(l: Links, m: Links, ids: set<nat>, p: int, f: Forest, after: int)
    requires SameOutside(l, m, ids) && ids !! Ids(f) && Seg(l, p, f, after)
    ensures Seg(m, p, f, after)
    decreases f
  {
    if f.Cons? {
      SegFrame(l, m, ids, f.id, f.sub, -1);
      SegFrame(l, m, ids, p, f.rest, after);
    }
  }

  lemma {:induction false} SegAppend(l: Links, p: int, a: Forest, b: Forest, after: int)
    requires Sized(l)
    ensures Start(Append(a, b), after) == Start(a, Start(b, after))
    ensures Seg(l, p, Append(a, b), after) <==> Seg(l, p, a, Start(b, after)) && Seg(l, p, b, after)
  {
    if a.Cons? {
      SegAppend(l, p, a.rest, b, after);
    }
  }

  function LastId(f: Forest): (r: nat)
    requires f.Cons?
    ensures r in Ids(f)
  {
    if f.rest.Nil? then f.id else LastId(f.rest)
  }

  function WithNext(l: Links, i: nat, x: int): Links
    requires Sized(l) && i < |l.list|
  {
    l.(next := l.next[i := x])
  }

  lemma {:induction false} Relink(l: Links, p: int, f: Forest, after: int, x: int)
    requires Sized(l) && f.Cons? && Proper(f) && Seg(l, p, f, after)
    ensures LastId(f) < |l.list| && l.next[LastId(f)] == after && Seg(WithNext(l, LastId(f), x), p, f, x)
  {
    if f.rest.Nil? {
      SegFrame(l, WithNext(l, f.id, x), {f.id}, f.id, f.sub, -1);
    } else {
      Relink(l, p, f.rest, after, x);
      SegFrame(l, WithNext(l, LastId(f), x), {LastId(f)}, f.id, f.sub, -1);
    }
  }

  lemma {:induction false} LastOfAppend(a: Forest, b: Forest)
    requires b.Cons?
    ensures Append(a, b).Cons? && LastId(Append(a, b)) == LastId(b)
  {
    if a.Cons? {
      LastOfAppend(a.rest, b);
    }
  }

  function WithParent(l: Links, i: nat, p: int): Links
    requires Sized(l) && i < |l.list|
  {
    l.(parent := l.parent[i := p])
  }

  function Alone(f: Forest): Forest
    requires f.Cons?
  {
    Cons(f.id, f.sub, Nil)
  }

  /** One step of a walk along a list: the first node of b, alone in the ways that matter, joins a. */
  lemma StepAlong(a: Forest, b: Forest)
    requires b.Cons?
    ensures Append(Append(a, Alone(b)), b.rest) == Append(a, b) && b.id in Ids(Append(a, b))
    ensures Proper(Append(a, b)) ==> Proper(b) && Proper(a) && Ids(a) !! Ids(b)
  {
    AppendAssociative(a, Alone(b), b.rest);
    AppendProper(a, b);
  }

  lemma ReparentStep(l: Links, p: int, q: int, a: Forest, b: Forest)
    requires Sized(l) && b.Cons? && Proper(Append(a, b)) && Seg(l, p, a, b.id) && Seg(l, q, b, -1)
    ensures b.id < |l.list| && l.next[b.id] == Start(b.rest, -1)
    ensures var m := WithParent(l, b.id, p);
      && SameOutside(l, m, {b.id})
      && Seg(m, p, Append(a, Alone(b)), Start(b.rest, -1)) && Seg(m, q, b.rest, -1)
  {
    AppendProper(a, b);
    var m := WithParent(l, b.id, p);
    SegFrame(l, m, {b.id}, p, a, b.id);
    SegFrame(l, m, {b.id}, b.id, b.sub, -1);
    SegFrame(l, m, {b.id}, q, b.rest, -1);
    SegAppend(m, p, a, Alone(b), Start(b.rest, -1));
  }

  function WithList(l: Links, i: nat, x: int): Links
    requires Sized(l) && i < |l.list|
  {
    l.(list := l.list[i := x])
  }

  /** The children of the first node of f, already below p, come after it. */
  function Spliced(l: Links, n: nat, last: nat): Links
    requires Sized(l) && n < |l.list| && last < |l.list|
  {
    var m := WithNext(l, last, l.next[n]);
    WithList(WithNext(m, n, m.list[n]), n, -1)
  }

  lemma SpliceOk(l: Links, p: int, f: Forest)
    requires Sized(l) && f.Cons? && f.sub.Cons? && Proper(f)
    requires f.id < |l.list| && l.parent[f.id] == p && l.list[f.id] == f.sub.id && l.next[f.id] == Start(f.rest, -1)
    requires Seg(l, p, f.sub, -1) && Seg(l, p, f.rest, -1)
    ensures LastId(f.sub) < |l.list|
    ensures var m := Spliced(l, f.id, LastId(f.sub));
      && SameOutside(l, m, {f.id} + Ids(f.sub))
      && Seg(m, p, Cons(f.id, Nil, Append(f.sub, f.rest)), -1)
  {
    var n := f.id;
    Relink(l, p, f.sub, -1, l.next[n]);
    var last := LastId(f.sub);
    var m, linked := Spliced(l, n, last), WithNext(l, last, l.next[n]);
    SegFrame(linked, m, {n}, p, f.sub, l.next[n]);
    SegFrame(l, m, {n, last}, p, f.rest, -1);
    SegAppend(m, p, f.sub, f.rest, -1);
  }

  lemma SegHead(l: Links, p: int, f: Forest, after: int)
    requires Sized(l) && f.Cons? && Seg(l, p, f, after)
    ensures f.id < |l.list| && l.parent[f.id] == p
    ensures l.list[f.id] == Start(f.sub, -1) && l.next[f.id] == Start(f.rest, after)
    ensures Seg(l, f.id, f.sub, -1) && Seg(l, p, f.rest, after)
  {
  }

  lemma ProperHead(f: Forest)
    requires f.Cons? && Proper(f)
    ensures Proper(f.sub) && Proper(f.rest) && f.id !in Ids(f.sub) + Ids(f.rest) && Ids(f.sub) !! Ids(f.rest)
    ensures Ids(f) == {f.id} + Ids(f.sub) + Ids(f.rest)
  {
  }

  lemma SameTwice(l: Links, m: Links, k: Links, a: set<nat>, b: set<nat>)
    requires SameOutside(l, m, a) && SameOutside(m, k, b)
    ensures SameOutside(l, k, a + b)
  {
  }

  lemma SameWider(l: Links, m: Links, a: set<nat>, b: set<nat>)
    requires SameOutside(l, m, a) && a <= b
    ensures SameOutside(l, m, b)
  {
  }

  lemma ListSet(l: Links, n: nat, first: int)
    requires Sized(l) && n < |l.list|
    ensures SameOutside(l, l.(list := l.list[n := first]), {n})
  {
  }

  /** Moving on past the first node of `rest`, after the nodes of `done`. */
  lemma SegStep(l: Links, p: int, done: Forest, rest: Forest)
    requires Sized(l) && rest.Cons? && Seg(l, p, done, rest.id) && Seg(l, p, rest, -1)
    ensures Seg(l, p, Append(done, Alone(rest)), Start(rest.rest, -1))
  {
    SegAppend(l, p, done, Alone(rest), Start(rest.rest, -1));
  }

  class MenuTree {
    const nodes: Nodes
    var list: seq<int>
    var next: seq<int>
    var parent: seq<int>

    function Linked(): Links
      reads this
    {
      Links(list, next, parent)
    }

    /** The inner loop of _flatten: the nodes of a list get a new parent; the last of them is found. */
    method Reparent(first: nat, p: int, ghost q: int, ghost f: Forest) returns (last: nat)
      requires Sized(Linked()) && f.Cons? && first == f.id && Proper(f) && Seg(Linked(), q, f, -1)
      modifies this`parent
      ensures SameOutside(old(Linked()), Linked(), Ids(f)) && Seg(Linked(), p, f, -1) && last == LastId(f)
    {
      hide Seg, Proper, Append, Ids;
      last := first;
      ghost var a: Forest, b := Nil, f;
      SegNil(Linked(), p, f.id);
      AppendNothing(f);
      while true
        invariant b.Cons? && last == b.id && Append(a, b) == f && LastId(b) == LastId(f)
        invariant SameOutside(old(Linked()), Linked(), Ids(f))
        invariant Linked().list == old(list) && Linked().next == old(next)
        invariant Seg(Linked(), p, a, b.id) && Seg(Linked(), q, b, -1)
        decreases Size(b)
      {
        ReparentStep(Linked(), p, q, a, b);
        StepAlong(a, b);
        parent := parent[last := p];
        a, b := Append(a, Alone(b)), b.rest;
        if next[last] == -1 {
          AppendNil(a);
          break;
        }
        last := next[last];
      }
    }

    /** The body of _flatten for one node that is flattened. */
    method Splice(node: nat, ghost p: int, ghost f: Forest)
      requires Sized(Linked()) && f.Cons? && f.id == node && f.sub.Cons? && Proper(f) && Seg(Linked(), p, f, -1)
      modifies this
      ensures SameOutside(old(Linked()), Linked(), Ids(f))
      ensures Seg(Linked(), p, Cons(f.id, Nil, Append(f.sub, f.rest)), -1)
    {
      hide Seg, Proper, Append, Ids;
      SegHead(Linked(), p, f, -1);
      ProperHead(f);
      ghost var l0 := Linked();
      var last := Reparent(list[node], parent[node], node, f.sub);
      ghost var l1 := Linked();
      SegFrame(l0, l1, Ids(f.sub), p, f.rest, -1);
      SpliceOk(l1, p, f);
      next := next[last := next[node]];
      next := next[node := list[node]];
      list := list[node := -1];
      assert Linked() == Spliced(l1, node, last);
      SameTwice(l0, l1, Linked(), Ids(f.sub), {f.id} + Ids(f.sub));
      SameWider(l0, Linked(), Ids(f.sub) + ({f.id} + Ids(f.sub)), Ids(f));
    }

    /** _flatten */
    method Flatten(first: int, ghost p: int, ghost f: Forest)
      requires Sized(Linked()) && first == Start(f, -1) && Proper(f) && Seg(Linked(), p, f, -1)
      modifies this
      ensures SameOutside(old(Linked()), Linked(), Ids(f))
      ensures Seg(Linked(), p, Flattened(nodes, f), -1)
    {
      hide Seg, Proper, Append, Ids, Flattened;
      var node := first;
      ghost var done: Forest, rest := Nil, f;
      SegNil(Linked(), p, node);
      AppendNothing(f);
      AppendNothing(Flattened(nodes, f));
      while node != -1
        invariant SameOutside(old(Linked()), Linked(), Ids(f))
        invariant node == Start(rest, -1) && Seg(Linked(), p, done, node) && Seg(Linked(), p, rest, -1)
        invariant Proper(Append(done, rest)) && Ids(Append(done, rest)) == Ids(f)
        invariant Append(done, Flattened(nodes, rest)) == Flattened(nodes, f)
        decreases Size(rest)
      {
        ghost var was, before := Linked(), rest;
        SegHead(was, p, rest, -1);
        StepAlong(done, rest);
        if list[node] != -1 && !nodes.prompt(node) && !nodes.item(node).ChoiceItem? {
          Splice(node, p, rest);
          rest := Cons(rest.id, Nil, Append(rest.sub, rest.rest));
          SegFrame(was, Linked(), Ids(before), p, done, node);
          SameTwice(old(Linked()), was, Linked(), Ids(f), Ids(before));
          SameWider(old(Linked()), Linked(), Ids(f) + Ids(before), Ids(f));
        }
        FlattenStep(nodes, done, before);
        SegHead(Linked(), p, rest, -1);
        SegStep(Linked(), p, done, rest);
        node := next[node];
        done, rest := Append(done, Alone(rest)), rest.rest;
      }
      FlattenNothing(nodes);
      AppendNil(done);
    }

    /** _remove_ifs */
    method RemoveIfs(node: nat, ghost f: Forest)
      requires Sized(Linked()) && node < |list| && list[node] == Start(f, -1)
      requires Proper(f) && node !in Ids(f) && Seg(Linked(), node, f, -1)
      modifies this`list, this`next
      ensures SameOutside(old(Linked()), Linked(), {node} + Ids(f)) && next[node] == old(next)[node]
      ensures list[node] == Start(WithoutIfs(nodes, f), -1)
      ensures Seg(Linked(), node, WithoutIfs(nodes, f), -1)
    {
      hide Seg, Proper, Append, Ids, WithoutIfs, IsTail, SameOutside;
      ghost var done: Forest := Nil;
      ghost var l0 := Linked();
      var cur, rest := SkipIfs(list[node], node, f);
      list := list[node := cur];
      ListSet(l0, node, cur);
      TailFacts(rest, f);
      SameWider(l0, Linked(), {node}, {node} + Ids(f));
      SegFrame(l0, Linked(), {node}, node, rest, -1);
      SegNil(Linked(), node, cur);
      AppendNothing(WithoutIfs(nodes, rest));
      AppendNothing(rest);
      while cur != -1
        invariant Sized(Linked()) && |next| == |l0.next|
        invariant SameOutside(l0, Linked(), {node} + Ids(f)) && next[node] == l0.next[node]
        invariant cur == Start(rest, -1) && (rest.Cons? ==> !nodes.item(rest.id).IfItem?)
        invariant Seg(Linked(), node, done, cur) && Seg(Linked(), node, rest, -1)
        invariant Proper(Append(done, rest)) && Ids(Append(done, rest)) <= Ids(f)
        invariant Append(done, WithoutIfs(nodes, rest)) == WithoutIfs(nodes, f)
        invariant list[node] == Start(Append(done, rest), -1)
        decreases Size(rest)
      {
        ghost var was := Linked();
        StepAlong(done, rest);
        ghost var others;
        cur, others := UnlinkIfs(cur, node, done, rest);
        SameTwice(l0, was, Linked(), {node} + Ids(f), {rest.id});
        SameWider(l0, Linked(), {node} + Ids(f) + {rest.id}, {node} + Ids(f));
        RemoveStep(nodes, done, rest, others);
        done, rest := Append(done, Alone(rest)), others;
      }
      AppendNil(done);
    }

    /** One round of that loop: the `if` nodes right after a node are unlinked. */
    method UnlinkIfs(cur: nat, ghost p: int, ghost done: Forest, ghost rest: Forest)
      returns (after: int, ghost others: Forest)
      requires Sized(Linked()) && rest.Cons? && cur == rest.id && Proper(Append(done, rest))
      requires Seg(Linked(), p, done, cur) && Seg(Linked(), p, rest, -1)
      modifies this`next
      ensures cur < |next| && next == old(next)[cur := after] && Sized(Linked())
      ensures SameOutside(old(Linked()), Linked(), {cur})
      ensures Seg(Linked(), p, Append(done, Alone(rest)), after) && Seg(Linked(), p, others, -1)
      ensures after == Start(others, -1) && (others.Cons? ==> !nodes.item(others.id).IfItem?)
      ensures WithoutIfs(nodes, others) == WithoutIfs(nodes, rest.rest) && IsTail(others, rest.rest)
    {
      hide Seg, Proper, Append, WithoutIfs, IsTail, SameOutside;
      ghost var was := Linked();
      SegHead(was, p, rest, -1);
      after, others := SkipIfs(next[cur], p, rest.rest);
      next := next[cur := after];
      RelinkStep(was, p, done, rest, others);
    }

    /** Both inner loops of _remove_ifs: past the `if` nodes at the head of a list. */
    method SkipIfs(first: int, ghost p: int, ghost f: Forest) returns (r: int, ghost rest: Forest)
      requires Sized(Linked()) && first == Start(f, -1) && Seg(Linked(), p, f, -1)
      ensures r == Start(rest, -1) && Seg(Linked(), p, rest, -1)
      ensures rest.Cons? ==> !nodes.item(rest.id).IfItem?
      ensures WithoutIfs(nodes, rest) == WithoutIfs(nodes, f) && IsTail(rest, f)
    {
      r, rest := first, f;
      while r != -1 && nodes.item(r).IfItem?
        invariant r == Start(rest, -1) && Seg(Linked(), p, rest, -1)
        invariant WithoutIfs(nodes, rest) == WithoutIfs(nodes, f) && IsTail(rest, f)
        decreases Size(rest)
      {
        TailOfTail(rest, f);
        r := next[r];
        rest := rest.rest;
      }
    }

    /** The last steps of _finalize_node, on the list of children of the node. */
    method FinishLevel(node: nat, ghost p: int, ghost f: Forest)
      requires Sized(Linked()) && f.Cons? && f.id == node && Proper(f) && Seg(Linked(), p, f, -1)
      modifies this
      ensures SameOutside(old(Linked()), Linked(), Ids(f))
      ensures Seg(Linked(), p, Cons(f.id, Level(nodes, f.sub), f.rest), -1)
    {
      hide Seg, Proper, Ids, Flattened, WithoutIfs;
      ghost var l0 := Linked();
      SegHead(l0, p, f, -1);
      ProperHead(f);
      LevelNothing(nodes);
      if list[node] != -1 {
        Flatten(list[node], node, f.sub);
        ghost var l1 := Linked();
        FlattenProper(nodes, f.sub);
        FlattenStart(nodes, f.sub);
        SegFrame(l0, l1, Ids(f.sub), p, f.rest, -1);
        RemoveIfs(node, Flattened(nodes, f.sub));
        SegFrame(l1, Linked(), {node} + Ids(f.sub), p, f.rest, -1);
        SameTwice(l0, l1, Linked(), Ids(f.sub), {node} + Ids(f.sub));
        SameWider(l0, Linked(), Ids(f.sub) + ({node} + Ids(f.sub)), Ids(f));
      }
      SegJoin(Linked(), p, f.id, Level(nodes, f.sub), f.rest, -1);
    }

    /** _finalize_node */
    method FinalizeNode(node: nat, ghost p: int, ghost f: Forest)
      requires Sized(Linked()) && f.Cons? && f.id == node && Proper(f) && Seg(Linked(), p, f, -1)
      modifies this
      ensures SameOutside(old(Linked()), Linked(), Ids(f))
      ensures Seg(Linked(), p, Finalized(nodes, f), -1)
      decreases Size(f), 1
    {
      hide Seg, Proper, Ids, Gather, FinalizeAll, Level;
      ghost var l0 := Linked();
      ghost var g: Forest;
      if nodes.item(node).SymbolItem? {
        var gathered := Gather(nodes, f.id, f.rest);
        g := Cons(f.id, if gathered.0.Nil? then f.sub else gathered.0, gathered.1);
        GatherSubmenu(node, p, f);
      } else {
        g := Cons(f.id, FinalizeAll(nodes, f.sub), f.rest);
        SegHead(l0, p, f, -1);
        FinalizeNothing(nodes);
        if list[node] != -1 {
          FinalizeChildren(node, p, f);
        }
      }
      HalfwayProper(nodes, f);
      ghost var l1 := Linked();
      FinishLevel(node, p, g);
      SameTwice(l0, l1, Linked(), Ids(f), Ids(g));
      SameWider(l0, Linked(), Ids(f) + Ids(g), Ids(f));
    }

    /** The search of _finalize_node for the items of an implicit submenu, and its creation. */
    method GatherSubmenu(node: nat, ghost p: int, ghost f: Forest)
      requires Sized(Linked()) && f.Cons? && f.id == node && Proper(f) && Seg(Linked(), p, f, -1)
      modifies this
      ensures SameOutside(old(Linked()), Linked(), Ids(f))
      ensures var (gathered, rest) := Gather(nodes, f.id, f.rest);
        Seg(Linked(), p, Cons(f.id, if gathered.Nil? then f.sub else gathered, rest), -1)
      decreases Size(f), 0
    {
      hide Seg, Proper, Ids, Append, Gather;
      ghost var l0 := Linked();
      SegHead(l0, p, f, -1);
      ProperHead(f);
      var cur := node;
      ghost var g: Forest, rest := Nil, f.rest;
      SegNil(l0, node, Start(rest, -1));
      AppendNothing(f.rest);
      AppendNothing(Gather(nodes, node, f.rest).0);
      while next[cur] != -1 && nodes.autoMenuDep(node, next[cur])
        invariant SameOutside(l0, Linked(), Ids(f.rest)) && cur < |next|
        invariant cur == (if g.Nil? then node else LastId(g)) && next[cur] == Start(rest, -1)
        invariant Seg(Linked(), node, g, Start(rest, -1)) && Seg(Linked(), p, rest, -1)
        invariant Proper(Append(g, rest)) && Ids(Append(g, rest)) <= Ids(f.rest) && Size(rest) <= Size(f.rest)
        invariant next[node] == Start(Append(g, rest), -1)
        invariant Gather(nodes, node, f.rest) ==
          (Append(g, Gather(nodes, node, rest).0), Gather(nodes, node, rest).1)
        decreases Size(rest)
      {
        GatherStep(nodes, node, g, rest);
        ghost var was, first := Linked(), Finalized(nodes, rest);
        cur := GatherNext(node, cur, p, g, rest);
        SameTwice(l0, was, Linked(), Ids(f.rest), Ids(rest));
        SameWider(l0, Linked(), Ids(f.rest) + Ids(rest), Ids(f.rest));
        g, rest := Append(g, Alone(first)), first.rest;
      }
      GatherEnd(nodes, node, rest);
      AppendNil(g);
      SegFrame(l0, Linked(), Ids(f.rest), node, f.sub, -1);
      ghost var was := Linked();
      Tilt(node, cur, p, f.sub, g, rest);
      SameTwice(l0, was, Linked(), Ids(f.rest), {node, cur});
      SameWider(l0, Linked(), Ids(f.rest) + {node, cur}, Ids(f));
    }

    /** One round of that search: the next node is finalised and gets the symbol as its parent. */
    method GatherNext(node: nat, cur: nat, ghost p: int, ghost g: Forest, ghost rest: Forest) returns (after: nat)
      requires Sized(Linked()) && cur < |next| && rest.Cons? && next[cur] == rest.id && cur !in Ids(rest)
      requires Proper(rest) && Proper(Append(g, Finalized(nodes, rest))) && Ids(g) !! Ids(rest)
      requires Seg(Linked(), node, g, rest.id) && Seg(Linked(), p, rest, -1)
      modifies this
      ensures SameOutside(old(Linked()), Linked(), Ids(rest))
      ensures var first := Finalized(nodes, rest);
        && after == first.id < |next| && next[after] == Start(first.rest, -1)
        && Seg(Linked(), node, Append(g, Alone(first)), Start(first.rest, -1)) && Seg(Linked(), p, first.rest, -1)
        && Append(g, Alone(first)).Cons? && LastId(Append(g, Alone(first))) == after
      decreases Size(rest), 2
    {
      hide Seg, Proper, Append, Ids;
      ghost var was, first := Linked(), Finalized(nodes, rest);
      FinalizeNode(next[cur], p, rest);
      ghost var mid := Linked();
      SegFrame(was, mid, Ids(rest), node, g, rest.id);
      ReparentStep(mid, node, p, g, first);
      LastAlong(g, first);
      FirstIn(rest);
      after := next[cur];
      parent := parent[after := node];
      SameTwice(was, mid, Linked(), Ids(rest), {first.id});
      SameWider(was, Linked(), Ids(rest) + {first.id}, Ids(rest));
    }

    /** The nodes found become the children of the symbol, if there are any. */
    method Tilt(node: nat, cur: nat, ghost p: int, ghost sub: Forest, ghost g: Forest, ghost rest: Forest)
      requires Sized(Linked()) && node < |list| && parent[node] == p && list[node] == Start(sub, -1)
      requires Proper(Append(g, rest)) && node !in Ids(Append(g, rest)) && next[node] == Start(Append(g, rest), -1)
      requires Seg(Linked(), node, sub, -1) && Seg(Linked(), node, g, Start(rest, -1)) && Seg(Linked(), p, rest, -1)
      requires cur == if g.Nil? then node else LastId(g)
      modifies this`list, this`next
      ensures SameOutside(old(Linked()), Linked(), {node, cur})
      ensures Seg(Linked(), p, Cons(node, if g.Nil? then sub else g, rest), -1)
    {
      hide Seg, Proper;
      if g.Cons? {
        TiltOk(Linked(), p, node, g, rest);
      }
      ghost var was := Linked();
      if cur != node {
        list := list[node := next[node]];
        next := next[node := next[cur]];
        next := next[cur := -1];
        assert Linked() == Tilted(was, node, cur);
      } else {
        SegJoin(Linked(), p, node, sub, rest, -1);
      }
    }

    /** The loop of _finalize_node over the children of a menu, choice or `if`. */
    method FinalizeChildren(node: nat, ghost p: int, ghost f: Forest)
      requires Sized(Linked()) && f.Cons? && f.id == node && Proper(f) && Seg(Linked(), p, f, -1)
      modifies this
      ensures SameOutside(old(Linked()), Linked(), Ids(f))
      ensures Seg(Linked(), p, Cons(f.id, FinalizeAll(nodes, f.sub), f.rest), -1)
      decreases Size(f), 0
    {
      hide Seg, Proper, Ids, Append, FinalizeAll;
      ghost var l0 := Linked();
      SegHead(l0, p, f, -1);
      ProperHead(f);
      var cur := list[node];
      ghost var done: Forest, rest := Nil, f.sub;
      SegNil(l0, node, cur);
      AppendNothing(f.sub);
      AppendNothing(FinalizeAll(nodes, f.sub));
      while cur != -1
        invariant SameOutside(l0, Linked(), Ids(f.sub)) && cur == Start(rest, -1)
        invariant Seg(Linked(), node, done, cur) && Seg(Linked(), node, rest, -1)
        invariant Proper(Append(done, rest)) && Ids(Append(done, rest)) <= Ids(f.sub) && Size(rest) <= Size(f.sub)
        invariant list[node] == Start(Append(done, rest), -1)
        invariant Append(done, FinalizeAll(nodes, rest)) == FinalizeAll(nodes, f.sub)
        decreases Size(rest)
      {
        ghost var was, first := Linked(), Finalized(nodes, rest);
        ChildStep(nodes, done, rest);
        FinalizeNode(cur, node, rest);
        SegFrame(was, Linked(), Ids(rest), node, done, rest.id);
        SameTwice(l0, was, Linked(), Ids(f.sub), Ids(rest));
        SameWider(l0, Linked(), Ids(f.sub) + Ids(rest), Ids(f.sub));
        SegHead(Linked(), node, first, -1);
        SegStep(Linked(), node, done, first);
        cur := next[cur];
        done, rest := Append(done, Alone(first)), first.rest;
      }
      FinalizeNothing(nodes);
      AppendNil(done);
      SegFrame(l0, Linked(), Ids(f.sub), p, f.rest, -1);
      SegJoin(Linked(), p, node, done, f.rest, -1);
      SameWider(l0, Linked(), Ids(f.sub), Ids(f));
    }

    /** The inner loop of node_iter: up to a node that has one after it, if there is one. */
    method Climb(top: nat, start: nat, ghost from: seq<Forest>) returns (node: nat, found: bool, ghost ctx: seq<Forest>)
      requires Sized(Linked()) && top < |list| && start < |list| && Up(Linked(), top, start, from)
      requires parent[top] == -1 && next[start] == -1
      ensures node < |list| && Up(Linked(), top, node, ctx)
      ensures Remaining(ctx) == Remaining(from) && RemainingSize(ctx) == RemainingSize(from)
      ensures if found then next[node] != -1 else Remaining(ctx) == []
    {
      hide Seg, Order;
      node, ctx := start, from;
      while parent[node] != -1
        invariant node < |list| && Up(Linked(), top, node, ctx) && next[node] == -1
        invariant Remaining(ctx) == Remaining(from) && RemainingSize(ctx) == RemainingSize(from)
        decreases |ctx|
      {
        GoUp(Linked(), top, node, ctx);
        node, ctx := parent[node], Init(ctx);
        if next[node] != -1 {
          return node, true, ctx;
        }
      }
      AtTop(Linked(), top, node, ctx);
      return node, false, ctx;
    }

    /** node_iter: down, on, or up to the next node that has one after it. */
    method NodeIter(top: nat, ghost f: Forest) returns (out: seq<nat>)
      requires Sized(Linked()) && top < |list| && list[top] == Start(f, -1) && Seg(Linked(), top, f, -1)
      requires parent[top] == -1 && next[top] == -1
      ensures out == Order(f)
    {
      var node: nat := top;
      out := [];
      ghost var sub: Forest, ctx: seq<Forest> := f, [];
      hide Seg, Order, Up, Remaining, RemainingSize, Size;
      AtStart(Linked(), top);
      while true
        invariant node < |list| && list[node] == Start(sub, -1) && Seg(Linked(), node, sub, -1)
        invariant Up(Linked(), top, node, ctx)
        invariant out + (Order(sub) + Remaining(ctx)) == Order(f)
        decreases Size(sub) + RemainingSize(ctx)
      {
        ghost var left := Order(sub) + Remaining(ctx);
        if list[node] != -1 {
          GoDown(Linked(), top, node, sub, ctx);
          node := list[node];
          sub, ctx := sub.sub, ctx + [sub.rest];
        } else {
          var found := true;
          OrderOfNil();
          if next[node] == -1 {
            node, found, ctx := Climb(top, node, ctx);
          }
          if !found {
            return out;
          }
          GoOn(Linked(), top, node, ctx);
          node := next[node];
          sub, ctx := Last(ctx).sub, Init(ctx) + [Last(ctx).rest];
        }
        assert left == [node] + Order(sub) + Remaining(ctx);
        Regroup(out, [node], Order(sub) + Remaining(ctx));
        Regroup([node], Order(sub), Remaining(ctx));
        out := out + [node];
      }
    }

    /** Loading a menu and walking it: the nodes come in definition order, `if` nodes left out. */
    method FinalizedOrder(top: nat, ghost f: Forest) returns (out: seq<nat>)
      requires Sized(Linked()) && Proper(Cons(top, f, Nil)) && Seg(Linked(), -1, Cons(top, f, Nil), -1)
      requires IfsPromptless(nodes) && SymbolsBare(nodes, Cons(top, f, Nil)) && nodes.item(top).OtherItem?
      modifies this
      ensures out == Kept(nodes, Order(f))
      ensures Sized(Linked()) && Seg(Linked(), -1, Finalized(nodes, Cons(top, f, Nil)), -1)
    {
      hide Seg, Proper, Order, Kept, SymbolsBare, NoIfs;
      ghost var whole := Cons(top, f, Nil);
      FinalizeNode(top, -1, whole);
      ghost var done := Finalized(nodes, whole);
      FinalizeKeeps(nodes, whole);
      KeptNode(nodes, top, f, Nil);
      KeptNode(nodes, top, done.sub, Nil);
      KeptNil(nodes);
      NoIfsKept(nodes, done.sub);
      SegHead(Linked(), -1, done, -1);
      Uncons(top, Kept(nodes, Order(done.sub)), Kept(nodes, Order(f)));
      out := NodeIter(top, done.sub);
    }
  }

  lemma FinalizeNothing(ns: Nodes)
    ensures FinalizeAll(ns, Nil) == Nil
  {
  }

  /** The node before its own level is finished. */
  lemma HalfwayProper(ns: Nodes, f: Forest)
    requires f.Cons? && Proper(f)
    ensures ns.item(f.id).SymbolItem? ==>
      var (gathered, rest) := Gather(ns, f.id, f.rest);
      var g := Cons(f.id, if gathered.Nil? then f.sub else gathered, rest);
      Proper(g) && Ids(g) <= Ids(f)
    ensures !ns.item(f.id).SymbolItem? ==>
      var g := Cons(f.id, FinalizeAll(ns, f.sub), f.rest);
      Proper(g) && Ids(g) <= Ids(f)
  {
    GatherProper(ns, f.id, f.rest);
    FinalizeAllProper(ns, f.sub);
  }

  lemma FirstIn(f: Forest)
    requires f.Cons?
    ensures f.id in Ids(f)
  {
  }

  lemma GatherEnd(ns: Nodes, id: nat, rest: Forest)
    requires rest.Cons? ==> !ns.autoMenuDep(id, rest.id)
    ensures Gather(ns, id, rest) == (Nil, rest)
  {
  }

  lemma ChildStep(ns: Nodes, done: Forest, rest: Forest)
    requires rest.Cons? && Proper(Append(done, rest))
    ensures Proper(rest) && Ids(done) !! Ids(rest) && Ids(rest) <= Ids(Append(done, rest))
    ensures var first := Finalized(ns, rest);
      var done' := Append(done, Alone(first));
      && Proper(Append(done', first.rest)) && Ids(Append(done', first.rest)) <= Ids(Append(done, rest))
      && Size(first.rest) < Size(rest)
      && Start(Append(done', first.rest), -1) == Start(Append(done, rest), -1)
      && Append(done', FinalizeAll(ns, first.rest)) == Append(done, FinalizeAll(ns, rest))
  {
    var first := Finalized(ns, rest);
    AppendProper(done, rest);
    FinalizeProper(ns, rest);
    AppendProper(done, first);
    AppendAssociative(done, Alone(first), first.rest);
    AppendAssociative(done, Alone(first), FinalizeAll(ns, first.rest));
  }

  /** The gathered nodes become the children of the symbol. */
  function Tilted(l: Links, node: nat, cur: nat): Links
    requires Sized(l) && node < |l.list| && cur < |l.list|
  {
    var m := WithNext(WithList(l, node, l.next[node]), node, l.next[cur]);
    WithNext(m, cur, -1)
  }

  lemma TiltOk(l: Links, p: int, node: nat, g: Forest, rest: Forest)
    requires Sized(l) && node < |l.list| && g.Cons? && Proper(Append(g, rest)) && node !in Ids(Append(g, rest))
    requires l.parent[node] == p && l.next[node] == Start(Append(g, rest), -1)
    requires Seg(l, node, g, Start(rest, -1)) && Seg(l, p, rest, -1)
    ensures LastId(g) < |l.list|
    ensures var m := Tilted(l, node, LastId(g));
      SameOutside(l, m, {node, LastId(g)}) && Seg(m, p, Cons(node, g, rest), -1)
  {
    AppendProper(g, rest);
    Relink(l, node, g, Start(rest, -1), -1);
    var last := LastId(g);
    var m := Tilted(l, node, last);
    SegFrame(WithNext(l, last, -1), m, {node}, node, g, -1);
    SegFrame(l, m, {node, last}, p, rest, -1);
  }

  lemma LevelNothing(ns: Nodes)
    ensures Level(ns, Nil) == Nil
  {
  }

  lemma FlattenStart(ns: Nodes, f: Forest)
    ensures Start(Flattened(ns, f), -1) == Start(f, -1)
  {
  }

  lemma SegJoin(l: Links, p: int, id: nat, sub: Forest, rest: Forest, after: int)
    requires Sized(l) && id < |l.list| && l.parent[id] == p
    requires l.list[id] == Start(sub, -1) && l.next[id] == Start(rest, after)
    requires Seg(l, id, sub, -1) && Seg(l, p, rest, after)
    ensures Seg(l, p, Cons(id, sub, rest), after)
  {
  }

  /** One more node gathered. */
  lemma GatherStep(ns: Nodes, id: nat, g: Forest, rest: Forest)
    requires rest.Cons? && ns.autoMenuDep(id, rest.id) && Proper(Append(g, rest))
    ensures Proper(rest) && Ids(g) !! Ids(rest)
    ensures var first := Finalized(ns, rest);
      var g' := Append(g, Alone(first));
      && Proper(Append(g, first)) && Ids(Append(g, first)) <= Ids(Append(g, rest)) && first.id in Ids(rest)
      && Proper(Append(g', first.rest)) && Ids(Append(g', first.rest)) <= Ids(Append(g, rest))
      && Size(first.rest) < Size(rest)
      && Start(Append(g', first.rest), -1) == Start(Append(g, rest), -1)
      && Append(g', Gather(ns, id, first.rest).0) == Append(g, Gather(ns, id, rest).0)
      && Gather(ns, id, first.rest).1 == Gather(ns, id, rest).1
    ensures Ids(rest) <= Ids(Append(g, rest))
  {
    var first := Finalized(ns, rest);
    AppendProper(g, rest);
    FinalizeProper(ns, rest);
    AppendProper(g, first);
    AppendAssociative(g, Alone(first), first.rest);
    AppendAssociative(g, Alone(first), Gather(ns, id, first.rest).0);
  }

  lemma LastAlong(a: Forest, b: Forest)
    requires b.Cons?
    ensures Append(a, Alone(b)).Cons? && LastId(Append(a, Alone(b))) == b.id
  {
    LastOfAppend(a, Alone(b));
  }

  // ----- where a walk stands -----

  function Last(ctx: seq<Forest>): Forest
    requires ctx != []
  {
    ctx[|ctx| - 1]
  }

  function Init(ctx: seq<Forest>): seq<Forest>
    requires ctx != []
  {
    ctx[..|ctx| - 1]
  }

  /** From the top down to `node`: on each level, ctx holds the nodes still to come after the one passed. */
  predicate Up(l: Links, top: nat, node: int, ctx: seq<Forest>)
    requires Sized(l)
    decreases |ctx|
  {
    if ctx == [] then node == top
    else
      && 0 <= node < |l.list| && 0 <= l.parent[node] < |l.list|
      && l.next[node] == Start(Last(ctx), -1) && Seg(l, l.parent[node], Last(ctx), -1)
      && Up(l, top, l.parent[node], Init(ctx))
  }

  function Remaining(ctx: seq<Forest>): seq<nat>
    decreases |ctx|
  {
    if ctx == [] then [] else Order(Last(ctx)) + Remaining(Init(ctx))
  }

  function RemainingSize(ctx: seq<Forest>): nat
    decreases |ctx|
  {
    if ctx == [] then 0 else Size(Last(ctx)) + RemainingSize(Init(ctx))
  }

  lemma Uncons(x: nat, a: seq<nat>, b: seq<nat>)
    requires [x] + a + [] == [x] + b + []
    ensures a == b
  {
    assert a == ([x] + a + [])[1..] && b == ([x] + b + [])[1..];
  }

  lemma Regroup(a: seq<nat>, b: seq<nat>, c: seq<nat>)
    ensures a + b + c == a + (b + c)
  {
  }

  lemma AtStart(l: Links, top: nat)
    requires Sized(l)
    ensures Up(l, top, top, []) && Remaining([]) == []
  {
  }

  lemma OrderOfNil()
    ensures Order(Nil) == [] && Size(Nil) == 0
  {
  }

  lemma GoDown(l: Links, top: nat, node: nat, sub: Forest, ctx: seq<Forest>)
    requires Sized(l) && node < |l.list| && sub.Cons? && Seg(l, node, sub, -1) && Up(l, top, node, ctx)
    ensures sub.id < |l.list| && l.list[sub.id] == Start(sub.sub, -1) && Seg(l, sub.id, sub.sub, -1)
    ensures Up(l, top, sub.id, ctx + [sub.rest])
    ensures [sub.id] + Order(sub.sub) + Remaining(ctx + [sub.rest]) == Order(sub) + Remaining(ctx)
    ensures Size(sub.sub) + RemainingSize(ctx + [sub.rest]) < Size(sub) + RemainingSize(ctx)
  {
    assert Init(ctx + [sub.rest]) == ctx;
  }

  lemma GoOn(l: Links, top: nat, node: nat, ctx: seq<Forest>)
    requires Sized(l) && node < |l.list| && top < |l.list|
    requires Up(l, top, node, ctx) && l.next[node] != -1 && l.next[top] == -1
    ensures ctx != [] && Last(ctx).Cons? && l.next[node] == Last(ctx).id
    ensures var f := Last(ctx);
      && f.id < |l.list| && l.list[f.id] == Start(f.sub, -1) && Seg(l, f.id, f.sub, -1)
      && Up(l, top, f.id, Init(ctx) + [f.rest])
      && [f.id] + Order(f.sub) + Remaining(Init(ctx) + [f.rest]) == Remaining(ctx)
      && Size(f.sub) + RemainingSize(Init(ctx) + [f.rest]) < RemainingSize(ctx)
  {
    hide Remaining, RemainingSize, Order, Size;
    var f := Last(ctx);
    assert Init(Init(ctx) + [f.rest]) == Init(ctx);
    RemainingGoesOn(ctx);
  }

  lemma RemainingStep(ctx: seq<Forest>)
    requires ctx != []
    ensures Remaining(ctx) == Order(Last(ctx)) + Remaining(Init(ctx))
    ensures RemainingSize(ctx) == Size(Last(ctx)) + RemainingSize(Init(ctx))
  {
  }

  lemma RemainingGoesOn(ctx: seq<Forest>)
    requires ctx != [] && Last(ctx).Cons?
    ensures var f := Last(ctx);
      && [f.id] + Order(f.sub) + Remaining(Init(ctx) + [f.rest]) == Remaining(ctx)
      && Size(f.sub) + RemainingSize(Init(ctx) + [f.rest]) < RemainingSize(ctx)
  {
    hide Remaining, RemainingSize;
    var f := Last(ctx);
    var more := Init(ctx) + [f.rest];
    assert Init(more) == Init(ctx) && Last(more) == f.rest;
    RemainingStep(ctx);
    RemainingStep(more);
    assert Order(f) == [f.id] + Order(f.sub) + Order(f.rest);
    hide Order;
    Regroup([f.id] + Order(f.sub), Order(f.rest), Remaining(Init(ctx)));
  }

  lemma GoUp(l: Links, top: nat, node: nat, ctx: seq<Forest>)
    requires Sized(l) && node < |l.list| && Up(l, top, node, ctx) && l.next[node] == -1
    requires top < |l.list| && l.parent[top] == -1 && l.parent[node] != -1
    ensures ctx != [] && 0 <= l.parent[node] < |l.list| && Up(l, top, l.parent[node], Init(ctx))
    ensures Remaining(Init(ctx)) == Remaining(ctx) && RemainingSize(Init(ctx)) == RemainingSize(ctx)
  {
  }

  lemma AtTop(l: Links, top: nat, node: nat, ctx: seq<Forest>)
    requires Sized(l) && node < |l.list| && Up(l, top, node, ctx) && l.parent[node] == -1
    ensures ctx == [] && Remaining(ctx) == []
  {
  }

  lemma {:induction false} NoIfsKept(ns: Nodes, f: Forest)
    requires NoIfs(ns, f)
    ensures Kept(ns, Order(f)) == Order(f)
  {
    if f.Cons? {
      NoIfsKept(ns, f.sub);
      NoIfsKept(ns, f.rest);
      KeptNode(ns, f.id, f.sub, f.rest);
    }
  }

  predicate IsTail(t: Forest, f: Forest) {
    t == f || (f.Cons? && IsTail(t, f.rest))
  }

  lemma {:induction false} TailOfTail(t: Forest, f: Forest)
    requires IsTail(t, f) && t.Cons?
    ensures IsTail(t.rest, f)
  {
    if t != f {
      TailOfTail(t, f.rest);
    } else {
      assert IsTail(t.rest, f.rest);
    }
  }

  lemma {:induction false} TailFacts(t: Forest, f: Forest)
    requires IsTail(t, f)
    ensures Ids(t) <= Ids(f) && Size(t) <= Size(f) && (Proper(f) ==> Proper(t))
  {
    if t != f {
      TailFacts(t, f.rest);
    }
  }

  lemma SegAlone(l: Links, p: int, f: Forest, after: int)
    requires Sized(l) && f.Cons? && f.id < |l.list| && l.parent[f.id] == p && l.next[f.id] == after
    requires l.list[f.id] == Start(f.sub, -1) && Seg(l, f.id, f.sub, -1)
    ensures Seg(l, p, Alone(f), after)
  {
  }

  lemma RelinkStep(l: Links, p: int, done: Forest, rest: Forest, others: Forest)
    requires Sized(l) && rest.Cons? && Proper(Append(done, rest)) && IsTail(others, rest.rest)
    requires Seg(l, p, done, rest.id) && Seg(l, p, rest, -1) && Seg(l, p, others, -1)
    ensures rest.id < |l.list|
    ensures var m := WithNext(l, rest.id, Start(others, -1));
      && SameOutside(l, m, {rest.id})
      && Seg(m, p, Append(done, Alone(rest)), Start(others, -1)) && Seg(m, p, others, -1)
  {
    hide Proper, Ids, Append, IsTail, Seg;
    SegHead(l, p, rest, -1);
    var m := WithNext(l, rest.id, Start(others, -1));
    AppendProper(done, rest);
    ProperHead(rest);
    TailFacts(others, rest.rest);
    SegFrame(l, m, {rest.id}, p, done, rest.id);
    SegFrame(l, m, {rest.id}, rest.id, rest.sub, -1);
    SegFrame(l, m, {rest.id}, p, others, -1);
    SegAlone(m, p, rest, Start(others, -1));
    SegAppend(m, p, done, Alone(rest), Start(others, -1));
  }

  lemma RemoveStep(ns: Nodes, done: Forest, rest: Forest, others: Forest)
    requires rest.Cons? && !ns.item(rest.id).IfItem? && Proper(Append(done, rest))
    requires IsTail(others, rest.rest) && WithoutIfs(ns, others) == WithoutIfs(ns, rest.rest)
    ensures var done' := Append(done, Alone(rest));
      && Append(done', WithoutIfs(ns, others)) == Append(done, WithoutIfs(ns, rest))
      && Proper(Append(done', others)) && Ids(Append(done', others)) <= Ids(Append(done, rest))
      && Start(Append(done', others), -1) == Start(Append(done, rest), -1)
    ensures Size(others) < Size(rest)
  {
    AppendAssociative(done, Alone(rest), WithoutIfs(ns, others));
    AppendAssociative(done, Alone(rest), others);
    TailFacts(others, rest.rest);
    AppendProper(done, rest);
    AppendProper(done, Cons(rest.id, rest.sub, others));
  }

  lemma FlattenNothing(ns: Nodes)
    ensures Flattened(ns, Nil) == Nil
  {
  }

  lemma FlattenStep(ns: Nodes, done: Forest, before: Forest)
    requires before.Cons? && Proper(Append(done, before))
    ensures var after := if before.sub.Cons? && Flattens(ns, before.id)
                         then Cons(before.id, Nil, Append(before.sub, before.rest)) else before;
      var done' := Append(done, Alone(after));
      && Append(done', Flattened(ns, after.rest)) == Append(done, Flattened(ns, before))
      && Proper(Append(done', after.rest)) && Ids(Append(done', after.rest)) == Ids(Append(done, before))
      && Size(after.rest) < Size(before)
  {
    var after := if before.sub.Cons? && Flattens(ns, before.id)
                 then Cons(before.id, Nil, Append(before.sub, before.rest)) else before;
    AppendAssociative(done, Alone(after), Flattened(ns, after.rest));
    AppendAssociative(done, Alone(after), after.rest);
    AppendProper(done, before);
    AppendProper(before.sub, before.rest);
    AppendProper(done, after);
  }

  lemma SegNil(l: Links, p: int, after: int)
    requires Sized(l)
    ensures Seg(l, p, Nil, after)
  {
  }

  lemma AppendNothing(f: Forest)
    ensures Append(Nil, f) == f
  {
  }
}
