/** Where every menu node ends up: a single pass over the nodes as parsed, with a stack of the symbols whose implicit
    submenus are open, gives each node the parent that finalisation links it to. */
module KconfigSubmenus {
  import opened KconfigMenu

  /** A symbol whose submenu is open, and the node that its submenu's nodes end up under. */
  datatype Open = Open(id: nat, owner: int)

  datatype Placed = Placed(id: nat, parent: int)

  /** The submenus that are still open when a node comes: up to the innermost symbol it depends on. */
  function StillOpen(ns: Nodes, stack: seq<Open>, id: nat): (r: seq<Open>)
    ensures r <= stack && (r != [] ==> ns.autoMenuDep(r[|r| - 1].id, id))
    ensures forall k :: |r| <= k < |stack| ==> !ns.autoMenuDep(stack[k].id, id)
  {
    if stack == [] || ns.autoMenuDep(stack[|stack| - 1].id, id) then stack
    else StillOpen(ns, stack[..|stack| - 1], id)
  }

  /** Where the next node ends up, and where its children do. */
  function OwnerOf(base: int, open: seq<Open>): int {
    if open == [] then base else open[|open| - 1].owner
  }

  function OwnOf(ns: Nodes, id: nat, owner: int): int {
    if ns.prompt(id) || ns.item(id).ChoiceItem? then id else owner
  }

  /** The nodes of a list below `base` and all below them, with the parents they end up under. A node without a prompt
      that is no choice keeps no children: they go to its own parent. */
  function OnePass(ns: Nodes, f: Forest, base: int, stack: seq<Open>): seq<Placed> {
    if f.Nil? then []
    else
      var open := StillOpen(ns, stack, f.id);
      var owner := OwnerOf(base, open);
      var own := OwnOf(ns, f.id, owner);
      [Placed(f.id, owner)] +
      if ns.item(f.id).SymbolItem? then OnePass(ns, f.rest, base, open + [Open(f.id, own)])
      else OnePass(ns, f.sub, own, []) + OnePass(ns, f.rest, base, open)
  }

  /** The nodes of a tree in definition order, with their parents. */
  function Shape(f: Forest, p: int): seq<Placed> {
    if f.Nil? then [] else [Placed(f.id, p)] + Shape(f.sub, f.id) + Shape(f.rest, p)
  }

  function WithoutIfItems(ns: Nodes, s: seq<Placed>): seq<Placed> {
    if s == [] then []
    else (if ns.item(s[0].id).IfItem? then [] else [s[0]]) + WithoutIfItems(ns, s[1..])
  }

  lemma {:induction false} WithoutAppend(ns: Nodes, a: seq<Placed>, b: seq<Placed>)
    ensures WithoutIfItems(ns, a + b) == WithoutIfItems(ns, a) + WithoutIfItems(ns, b)
  {
    if a == [] {
      assert a + b == b;
    } else {
      assert (a + b)[1..] == a[1..] + b;
      WithoutAppend(ns, a[1..], b);
    }
  }

  // ----- the last steps at a level -----

  /** A list whose nodes may still have to give up their children. */
  function Raised(ns: Nodes, f: Forest, p: int): seq<Placed>
    decreases f, 0
  {
    if f.Nil? then []
    else [Placed(f.id, p)] + Below(ns, f.id, f.sub, p) + Raised(ns, f.rest, p)
  }

  function Below(ns: Nodes, id: nat, sub: Forest, p: int): seq<Placed>
    decreases sub, 1
  {
    if Flattens(ns, id) then Raised(ns, sub, p) else Shape(sub, id)
  }

  lemma {:induction false} RaisedAppend(ns: Nodes, a: Forest, b: Forest, p: int)
    ensures Raised(ns, Append(a, b), p) == Raised(ns, a, p) + Raised(ns, b, p)
  {
    if a.Cons? {
      RaisedAppend(ns, a.rest, b, p);
      assert Append(a, b) == Cons(a.id, a.sub, Append(a.rest, b));
    }
  }

  lemma {:induction false} FlattenRaises(ns: Nodes, f: Forest, p: int)
    ensures Shape(Flattened(ns, f), p) == Raised(ns, f, p) == Raised(ns, Flattened(ns, f), p)
    decreases Size(f)
  {
    if f.Cons? {
      if f.sub.Cons? && Flattens(ns, f.id) {
        FlattenRaises(ns, Append(f.sub, f.rest), p);
        RaisedAppend(ns, f.sub, f.rest, p);
      } else {
        FlattenRaises(ns, f.rest, p);
      }
    }
  }

  lemma {:induction false} RemoveIfsPlaces(ns: Nodes, f: Forest, p: int)
    requires IfsEmpty(ns, f)
    ensures WithoutIfItems(ns, Shape(WithoutIfs(ns, f), p)) == WithoutIfItems(ns, Shape(f, p))
    ensures WithoutIfItems(ns, Raised(ns, WithoutIfs(ns, f), p)) == WithoutIfItems(ns, Raised(ns, f, p))
  {
    if f.Cons? {
      RemoveIfsPlaces(ns, f.rest, p);
      PlaceNode(ns, f.id, p, Shape(f.sub, f.id), Shape(f.rest, p));
      PlaceNode(ns, f.id, p, Shape(f.sub, f.id), Shape(WithoutIfs(ns, f.rest), p));
      PlaceNode(ns, f.id, p, Below(ns, f.id, f.sub, p), Raised(ns, f.rest, p));
      PlaceNode(ns, f.id, p, Below(ns, f.id, f.sub, p), Raised(ns, WithoutIfs(ns, f.rest), p));
    }
  }

  lemma PlaceNode(ns: Nodes, id: nat, p: int, a: seq<Placed>, b: seq<Placed>)
    ensures WithoutIfItems(ns, [Placed(id, p)] + a + b) ==
      WithoutIfItems(ns, [Placed(id, p)]) + WithoutIfItems(ns, a) + WithoutIfItems(ns, b)
    ensures WithoutIfItems(ns, [Placed(id, p)]) == if ns.item(id).IfItem? then [] else [Placed(id, p)]
  {
    WithoutAppend(ns, [Placed(id, p)] + a, b);
    WithoutAppend(ns, [Placed(id, p)], a);
    assert [Placed(id, p)][1..] == [];
  }

  lemma LevelPlaces(ns: Nodes, f: Forest, id: int, p: int)
    requires IfsPromptless(ns)
    ensures WithoutIfItems(ns, Shape(Level(ns, f), id)) == WithoutIfItems(ns, Raised(ns, f, id))
    ensures WithoutIfItems(ns, Raised(ns, Level(ns, f), p)) == WithoutIfItems(ns, Raised(ns, f, p))
  {
    FlattenKeepsOrder(ns, f);
    FlattenRaises(ns, f, id);
    FlattenRaises(ns, f, p);
    RemoveIfsPlaces(ns, Flattened(ns, f), id);
    RemoveIfsPlaces(ns, Flattened(ns, f), p);
  }

  // ----- the recursion against the pass -----

  /** What the pass does after the first node of a list. */
  function Submenu(ns: Nodes, f: Forest, base: int, open: seq<Open>, own: int): seq<Placed>
    requires f.Cons?
  {
    if ns.item(f.id).SymbolItem? then OnePass(ns, f.rest, base, open + [Open(f.id, own)])
    else OnePass(ns, f.sub, own, []) + OnePass(ns, f.rest, base, open)
  }

  lemma PassUnfolds(ns: Nodes, f: Forest, base: int, stack: seq<Open>)
    requires f.Cons?
    ensures var open := StillOpen(ns, stack, f.id); var owner := OwnerOf(base, open);
      OnePass(ns, f, base, stack) ==
        [Placed(f.id, owner)] + Submenu(ns, f, base, open, OwnOf(ns, f.id, owner))
  {
  }

  /** Finalising a node places it and its submenu as the pass does, up to the next node. */
  lemma {:induction false} FinalizePlaces(ns: Nodes, f: Forest, base: int, open: seq<Open>)
    requires f.Cons? && IfsPromptless(ns) && SymbolsBare(ns, f)
    requires open == StillOpen(ns, open, f.id)
    ensures var r, owner := Finalized(ns, f), OwnerOf(base, open);
      WithoutIfItems(ns, OnePass(ns, f, base, open)) ==
        WithoutIfItems(ns, [Placed(f.id, owner)] + Below(ns, f.id, r.sub, owner)) +
        WithoutIfItems(ns, OnePass(ns, r.rest, base, open))
    decreases Size(f), 1
  {
    hide OnePass, StillOpen, Raised, Shape, WithoutIfItems, Level, Gather, FinalizeAll;
    var r, owner := Finalized(ns, f), OwnerOf(base, open);
    PassUnfolds(ns, f, base, open);
    SubmenuPlaces(ns, f, base, open, owner);
    WithoutAppend(ns, [Placed(f.id, owner)], Submenu(ns, f, base, open, OwnOf(ns, f.id, owner)));
    WithoutAppend(ns, [Placed(f.id, owner)], Below(ns, f.id, r.sub, owner));
  }

  lemma {:induction false} SubmenuPlaces(ns: Nodes, f: Forest, base: int, open: seq<Open>, owner: int)
    requires f.Cons? && IfsPromptless(ns) && SymbolsBare(ns, f)
    ensures var r := Finalized(ns, f);
      WithoutIfItems(ns, Submenu(ns, f, base, open, OwnOf(ns, f.id, owner))) ==
        WithoutIfItems(ns, Below(ns, f.id, r.sub, owner)) + WithoutIfItems(ns, OnePass(ns, r.rest, base, open))
    decreases Size(f), 0
  {
    hide OnePass, StillOpen, Raised, Shape, WithoutIfItems, Level;
    var own := OwnOf(ns, f.id, owner);
    if ns.item(f.id).SymbolItem? {
      var (gathered, rest) := Gather(ns, f.id, f.rest);
      GatherPlaces(ns, Open(f.id, own), f.rest, base, open);
      LevelPlaces(ns, gathered, own, own);
      LevelOfNothing(ns, own);
    } else {
      AllPlaces(ns, f.sub, own);
      LevelPlaces(ns, FinalizeAll(ns, f.sub), own, own);
      WithoutAppend(ns, OnePass(ns, f.sub, own, []), OnePass(ns, f.rest, base, open));
    }
  }

  lemma LevelOfNothing(ns: Nodes, p: int)
    ensures Level(ns, Nil) == Nil && Shape(Nil, p) == [] && Raised(ns, Nil, p) == []
  {
  }

  lemma {:induction false} GatherPlaces(ns: Nodes, s: Open, f: Forest, base: int, open: seq<Open>)
    requires IfsPromptless(ns) && SymbolsBare(ns, f)
    ensures var (gathered, rest) := Gather(ns, s.id, f);
      WithoutIfItems(ns, OnePass(ns, f, base, open + [s])) ==
        WithoutIfItems(ns, Raised(ns, gathered, s.owner)) + WithoutIfItems(ns, OnePass(ns, rest, base, open))
    decreases Size(f), 2
  {
    hide WithoutIfItems, OnePass, StillOpen, Raised, Below, Gather, Finalized, SymbolsBare;
    GatherUnfolds(ns, s.id, f);
    NothingPlaced(ns, base, open, s);
    if f.Cons? {
      if ns.autoMenuDep(s.id, f.id) {
        var first := Finalized(ns, f);
        InnermostOpen(ns, open, s, f.id);
        FinalizePlaces(ns, f, base, open + [s]);
        FinalizeKeeps(ns, f);
        GatherPlaces(ns, s, first.rest, base, open);
        RaisedFirst(ns, first.id, first.sub, Gather(ns, s.id, first.rest).0, s.owner);
      } else {
        ClosedFirst(ns, f, base, open, s);
      }
    }
  }

  lemma GatherUnfolds(ns: Nodes, id: nat, f: Forest)
    ensures f.Nil? || !ns.autoMenuDep(id, f.id) ==> Gather(ns, id, f) == (Nil, f)
    ensures f.Cons? && ns.autoMenuDep(id, f.id) ==>
      var first := Finalized(ns, f); var (gathered, rest) := Gather(ns, id, first.rest);
      first.Cons? && first.id == f.id && Size(first.rest) < Size(f)
      && Gather(ns, id, f) == (Cons(first.id, first.sub, gathered), rest)
  {
    hide Finalized;
  }

  /** The first node of a list, then the rest. */
  lemma RaisedFirst(ns: Nodes, id: nat, sub: Forest, rest: Forest, p: int)
    ensures WithoutIfItems(ns, Raised(ns, Cons(id, sub, rest), p)) ==
      WithoutIfItems(ns, [Placed(id, p)] + Below(ns, id, sub, p)) + WithoutIfItems(ns, Raised(ns, rest, p))
  {
    hide WithoutIfItems, Below;
    var head := [Placed(id, p)] + Below(ns, id, sub, p);
    assert Raised(ns, Cons(id, sub, rest), p) == head + Raised(ns, rest, p);
    WithoutAppend(ns, head, Raised(ns, rest, p));
  }

  lemma NothingPlaced(ns: Nodes, base: int, open: seq<Open>, s: Open)
    ensures OnePass(ns, Nil, base, open + [s]) == OnePass(ns, Nil, base, open) == []
    ensures Raised(ns, Nil, s.owner) == [] && WithoutIfItems(ns, []) == []
  {
  }

  lemma InnermostOpen(ns: Nodes, open: seq<Open>, s: Open, id: nat)
    requires ns.autoMenuDep(s.id, id)
    ensures StillOpen(ns, open + [s], id) == open + [s] && OwnerOf(0, open + [s]) == s.owner
  {
  }

  lemma ClosedFirst(ns: Nodes, f: Forest, base: int, open: seq<Open>, s: Open)
    requires f.Cons? && !ns.autoMenuDep(s.id, f.id)
    ensures OnePass(ns, f, base, open + [s]) == OnePass(ns, f, base, open)
  {
    assert (open + [s])[..|open|] == open;
    assert StillOpen(ns, open + [s], f.id) == StillOpen(ns, open, f.id);
    PassUnfolds(ns, f, base, open + [s]);
    PassUnfolds(ns, f, base, open);
    hide OnePass, StillOpen;
  }

  lemma {:induction false} AllPlaces(ns: Nodes, f: Forest, own: int)
    requires IfsPromptless(ns) && SymbolsBare(ns, f)
    ensures WithoutIfItems(ns, OnePass(ns, f, own, [])) == WithoutIfItems(ns, Raised(ns, FinalizeAll(ns, f), own))
    decreases Size(f), 2
  {
    if f.Cons? {
      hide WithoutIfItems, Raised, Below, OnePass, Level, Gather, Finalized;
      var first := Finalized(ns, f);
      FinalizePlaces(ns, f, own, []);
      FinalizeKeeps(ns, f);
      AllPlaces(ns, first.rest, own);
      RaisedFirst(ns, first.id, first.sub, FinalizeAll(ns, first.rest), own);
    }
  }

  // ----- on the links -----

  ghost predicate LinkedAs(l: Links, places: seq<Placed>) {
    forall x :: x in places ==> x.id < |l.parent| && l.parent[x.id] == x.parent
  }

  lemma {:induction false} SegPlaces(l: Links, p: int, f: Forest, after: int)
    requires Sized(l) && Seg(l, p, f, after)
    ensures LinkedAs(l, Shape(f, p))
    decreases f
  {
    if f.Cons? {
      SegPlaces(l, f.id, f.sub, -1);
      SegPlaces(l, p, f.rest, after);
    }
  }

  lemma {:induction false} WithoutNothing(ns: Nodes, f: Forest, p: int)
    requires NoIfs(ns, f)
    ensures WithoutIfItems(ns, Shape(f, p)) == Shape(f, p)
  {
    if f.Cons? {
      WithoutNothing(ns, f.sub, f.id);
      WithoutNothing(ns, f.rest, p);
      PlaceNode(ns, f.id, p, Shape(f.sub, f.id), Shape(f.rest, p));
    }
  }

  /** Loading a menu: afterwards the nodes come in definition order, and each is linked to the parent that the pass
      gives it. */
  method FinalizeMenu(t: MenuTree, top: nat, ghost f: Forest) returns (out: seq<nat>)
    requires Sized(t.Linked()) && Proper(Cons(top, f, Nil)) && Seg(t.Linked(), -1, Cons(top, f, Nil), -1)
    requires IfsPromptless(t.nodes) && SymbolsBare(t.nodes, Cons(top, f, Nil)) && t.nodes.item(top).OtherItem?
    modifies t
    ensures out == Kept(t.nodes, Order(f))
    ensures LinkedAs(t.Linked(), WithoutIfItems(t.nodes, OnePass(t.nodes, f, top, [])))
  {
    hide Seg, Proper, Shape, OnePass, Raised, SymbolsBare, NoIfs, WithoutIfItems, FinalizeAll, Level;
    ghost var ns, whole := t.nodes, Cons(top, f, Nil);
    MenuBare(ns, top, f);
    out := t.FinalizedOrder(top, f);
    ghost var done := Finalized(ns, whole);
    assert done.sub == Level(ns, FinalizeAll(ns, f));
    FinalizeKeeps(ns, whole);
    SegHead(t.Linked(), -1, done, -1);
    SegPlaces(t.Linked(), top, done.sub, -1);
    AllPlaces(ns, f, top);
    LevelPlaces(ns, FinalizeAll(ns, f), top, top);
    WithoutNothing(ns, done.sub, top);
  }

  lemma MenuBare(ns: Nodes, top: nat, f: Forest)
    requires SymbolsBare(ns, Cons(top, f, Nil))
    ensures SymbolsBare(ns, f)
  {
  }

  // ----- what the pass means -----

  /** Only nodes with a prompt, choices and the node a list stands below have children. */
  lemma {:induction false} ParentsAreShown(ns: Nodes, f: Forest, base: int, stack: seq<Open>)
    ensures forall x :: x in OnePass(ns, f, base, stack) ==>
      || x.parent == base
      || (exists k :: 0 <= k < |stack| && x.parent == stack[k].owner)
      || (x.parent >= 0 && (ns.prompt(x.parent) || ns.item(x.parent).ChoiceItem?))
    decreases f
  {
    hide StillOpen;
    if f.Cons? {
      var open := StillOpen(ns, stack, f.id);
      var owner := OwnerOf(base, open);
      var own := OwnOf(ns, f.id, owner);
      PassUnfolds(ns, f, base, stack);
      hide OnePass;
      if ns.item(f.id).SymbolItem? {
        ParentsAreShown(ns, f.rest, base, open + [Open(f.id, own)]);
      } else {
        ParentsAreShown(ns, f.sub, own, []);
        ParentsAreShown(ns, f.rest, base, open);
      }
    }
  }

  function Siblings(f: Forest): seq<nat> {
    if f.Nil? then [] else [f.id] + Siblings(f.rest)
  }

  /** What is open once a node has been placed. */
  function Next(ns: Nodes, f: Forest, base: int, stack: seq<Open>): seq<Open>
    requires f.Cons?
  {
    var open := StillOpen(ns, stack, f.id);
    if ns.item(f.id).SymbolItem? then open + [Open(f.id, OwnOf(ns, f.id, OwnerOf(base, open)))] else open
  }

  lemma PlacedLater(ns: Nodes, f: Forest, base: int, stack: seq<Open>, x: Placed)
    requires f.Cons? && x in OnePass(ns, f.rest, base, Next(ns, f, base, stack))
    ensures x in OnePass(ns, f, base, stack)
  {
    PassUnfolds(ns, f, base, stack);
    hide OnePass, StillOpen;
  }

  lemma SiblingsShift(f: Forest, j: nat)
    requires f.Cons? && 0 < j < |Siblings(f)|
    ensures Siblings(f)[0] == f.id && Siblings(f)[j] == Siblings(f.rest)[j - 1]
    ensures |Siblings(f.rest)| == |Siblings(f)| - 1
    ensures forall i {:trigger Siblings(f.rest)[i]} ::
      0 <= i < |Siblings(f.rest)| ==> Siblings(f.rest)[i] == Siblings(f)[i + 1]
  {
  }

  /** A node that depends neither on an open symbol nor on a node before it in its list stays where it is. */
  lemma {:induction false} StaysOutside(ns: Nodes, f: Forest, base: int, stack: seq<Open>, j: nat)
    requires j < |Siblings(f)|
    requires forall k :: 0 <= k < |stack| ==> !ns.autoMenuDep(stack[k].id, Siblings(f)[j])
    requires forall i :: 0 <= i < j ==> !ns.autoMenuDep(Siblings(f)[i], Siblings(f)[j])
    ensures Placed(Siblings(f)[j], base) in OnePass(ns, f, base, stack)
    decreases j
  {
    hide OnePass, StillOpen, Siblings;
    SomeSibling(f);
    if j == 0 {
      PassUnfolds(ns, f, base, stack);
    } else {
      SiblingsShift(f, j);
      StaysOutside(ns, f.rest, base, Next(ns, f, base, stack), j - 1);
      PlacedLater(ns, f, base, stack, Placed(Siblings(f)[j], base));
    }
  }

  lemma SomeSibling(f: Forest)
    ensures |Siblings(f)| > 0 ==> f.Cons? && Siblings(f)[0] == f.id
  {
  }

  /** While the nodes after an open symbol depend on it, it stays open; the first that does not, nor on one of those in
      between, is placed where the symbol is, and the ones that depend on the symbol alone come below it. */
  lemma {:induction false} RunOfSymbol(ns: Nodes, f: Forest, base: int, stack: seq<Open>, j: nat)
    requires j < |Siblings(f)| && stack != []
    requires forall k :: 1 <= k < |stack| ==> !ns.autoMenuDep(stack[k].id, Siblings(f)[j])
    requires forall i :: 0 <= i < j ==>
      ns.autoMenuDep(stack[0].id, Siblings(f)[i]) && !ns.autoMenuDep(Siblings(f)[i], Siblings(f)[j])
    ensures var owner := if ns.autoMenuDep(stack[0].id, Siblings(f)[j]) then stack[0].owner else base;
      Placed(Siblings(f)[j], owner) in OnePass(ns, f, base, stack)
    decreases j
  {
    hide OnePass, StillOpen, Siblings;
    SomeSibling(f);
    var owner := if ns.autoMenuDep(stack[0].id, Siblings(f)[j]) then stack[0].owner else base;
    if j == 0 {
      PassUnfolds(ns, f, base, stack);
    } else {
      SiblingsShift(f, j);
      var open := StillOpen(ns, stack, f.id);
      assert open != [] && open[0] == stack[0];
      RunOfSymbol(ns, f.rest, base, Next(ns, f, base, stack), j - 1);
      PlacedLater(ns, f, base, stack, Placed(Siblings(f)[j], owner));
    }
  }

  /** The implicit submenu of a symbol with a prompt, seen from the list it stands in: of the nodes after it, as long
      as all before depend on the symbol, one that depends on no other of them is its child exactly if it depends on
      the symbol, and else a sibling. */
  lemma SubmenuOfSymbol(ns: Nodes, f: Forest, base: int, j: nat)
    requires f.Cons? && ns.item(f.id).SymbolItem? && ns.prompt(f.id) && j < |Siblings(f.rest)|
    requires forall i :: 0 <= i < j ==>
      ns.autoMenuDep(f.id, Siblings(f.rest)[i]) && !ns.autoMenuDep(Siblings(f.rest)[i], Siblings(f.rest)[j])
    ensures var x := Siblings(f.rest)[j];
      Placed(x, if ns.autoMenuDep(f.id, x) then f.id else base) in OnePass(ns, f, base, [])
  {
    assert Next(ns, f, base, []) == [Open(f.id, f.id)];
    RunOfSymbol(ns, f.rest, base, [Open(f.id, f.id)], j);
    var x := Siblings(f.rest)[j];
    PlacedLater(ns, f, base, [], Placed(x, if ns.autoMenuDep(f.id, x) then f.id else base));
  }

  /** The children of a menu, choice or `if`: those that depend on none before them stay, unless it has no prompt and is
      no choice, when they come to stand beside it. */
  lemma ChildrenOfMenu(ns: Nodes, f: Forest, base: int, j: nat)
    requires f.Cons? && !ns.item(f.id).SymbolItem? && j < |Siblings(f.sub)|
    requires forall i :: 0 <= i < j ==> !ns.autoMenuDep(Siblings(f.sub)[i], Siblings(f.sub)[j])
    ensures Placed(Siblings(f.sub)[j], if ns.prompt(f.id) || ns.item(f.id).ChoiceItem? then f.id else base) in
      OnePass(ns, f, base, [])
  {
    StaysOutside(ns, f.sub, OwnOf(ns, f.id, base), [], j);
    PassUnfolds(ns, f, base, []);
  }
}
