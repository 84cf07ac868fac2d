/** How the choice a menu node is in gets into the dependencies of its symbol: propagation from a parent to its
    children, with the trivial simplification of `&&` and `||`. */
module KconfigDeps {
  import opened KconfigRules
  import P = KconfigParser

  datatype Option<T> = None | Some(value: T)

  /** What propagation changes of a menu node: its dependency, the condition of its prompt if it has one, and its
      defaults. */
  datatype MenuNode = MenuNode(dep: Expr, prompt: Option<Expr>, defaults: seq<Default>)

  function MakeAnd(a: Expr, b: Expr): Expr {
    if a == Const(2) then b
    else if b == Const(2) then a
    else if a == Const(0) || b == Const(0) then Const(0)
    else And(a, b)
  }

  function MakeOr(a: Expr, b: Expr): Expr {
    if a == Const(0) then b
    else if b == Const(0) then a
    else if a == Const(2) || b == Const(2) then Const(2)
    else Or(a, b)
  }

  function Guarded(defaults: seq<Default>, dep: Expr): seq<Default> {
    seq(|defaults|, i requires 0 <= i < |defaults| => Default(defaults[i].value, MakeAnd(defaults[i].cond, dep)))
  }

  function Propagated(n: MenuNode, base: Expr, visibleIf: Expr): MenuNode {
    var dep := MakeAnd(n.dep, base);
    MenuNode(dep,
             match n.prompt case None => None case Some(cond) => Some(MakeAnd(cond, MakeAnd(visibleIf, dep))),
             Guarded(n.defaults, dep))
  }

  /** _propagate_deps, on the child nodes that are of symbols. */
  method PropagateDeps(level: array<MenuNode>, base: Expr, visibleIf: Expr)
    modifies level
    ensures forall i :: 0 <= i < level.Length ==> level[i] == Propagated(old(level[i]), base, visibleIf)
  {
    var cur := 0;
    while cur < level.Length
      invariant cur <= level.Length
      invariant forall i :: 0 <= i < level.Length ==>
        level[i] == if i < cur then Propagated(old(level[i]), base, visibleIf) else old(level[i])
    {
      var dep := MakeAnd(level[cur].dep, base);
      var prompt := level[cur].prompt;
      if prompt.Some? {
        prompt := Some(MakeAnd(prompt.value, MakeAnd(visibleIf, dep)));
      }
      level[cur] := MenuNode(dep, prompt, Guarded(level[cur].defaults, dep));
      cur := cur + 1;
    }
  }

  /** _add_props_to_sym, for one menu node of the symbol. */
  function AddProps(sym: Symbol, n: MenuNode): Symbol {
    sym.(prompts := sym.prompts + (match n.prompt case None => [] case Some(cond) => [cond]),
         defaults := sym.defaults + n.defaults,
         directDep := MakeOr(sym.directDep, n.dep))
  }

  /** The symbol with the properties of all its menu nodes. */
  function WithNodes(sym: Symbol, nodes: seq<MenuNode>): Symbol
    decreases |nodes|
  {
    if nodes == [] then sym else AddProps(WithNodes(sym, nodes[..|nodes| - 1]), nodes[|nodes| - 1])
  }

  /** A condition that is n or mentions the item. */
  predicate Under(e: Expr, i: Item) {
    e == Const(0) || Mentions(e, i)
  }

  lemma AndUnder(a: Expr, b: Expr, i: Item)
    requires Under(a, i) || Under(b, i)
    ensures Under(MakeAnd(a, b), i)
    ensures a == Const(0) || b == Const(0) ==> MakeAnd(a, b) == Const(0)
  {
  }

  lemma OrUnder(a: Expr, b: Expr, i: Item)
    requires Under(a, i) && Under(b, i)
    ensures Under(MakeOr(a, b), i)
    ensures MakeOr(a, b) == Const(0) ==> a == b == Const(0)
  {
  }

  /** A menu node in a choice depends on the choice, or not at all. */
  lemma PropagatedUnder(n: MenuNode, c: nat, visibleIf: Expr)
    ensures var p := Propagated(n, Leaf(Cho(c)), visibleIf);
      && Under(p.dep, Cho(c)) && (p.prompt.Some? ==> Under(p.prompt.value, Cho(c)))
      && (p.dep == Const(0) && p.prompt.Some? ==> p.prompt.value == Const(0))
  {
    var dep := MakeAnd(n.dep, Leaf(Cho(c)));
    AndUnder(n.dep, Leaf(Cho(c)), Cho(c));
    AndUnder(visibleIf, dep, Cho(c));
    if n.prompt.Some? { AndUnder(n.prompt.value, MakeAnd(visibleIf, dep), Cho(c)); }
  }

  /** Each of the nodes is the outcome of propagation from the choice. */
  ghost predicate AllInChoice(nodes: seq<MenuNode>, c: nat) {
    forall k :: 0 <= k < |nodes| ==> InChoice(nodes[k], c)
  }

  ghost predicate InChoice(n: MenuNode, c: nat) {
    exists was: MenuNode, visibleIf: Expr :: n == Propagated(was, Leaf(Cho(c)), visibleIf)
  }

  lemma {:induction false} MemberUnder(sym: Symbol, nodes: seq<MenuNode>, c: nat)
    requires sym.prompts == [] && sym.directDep == Const(0) && AllInChoice(nodes, c)
    ensures var s := WithNodes(sym, nodes);
      && Under(s.directDep, Cho(c))
      && (s.directDep == Const(0) ==> Unpromptable(s))
    decreases |nodes|
  {
    if nodes != [] {
      var init, n := nodes[..|nodes| - 1], nodes[|nodes| - 1];
      MemberUnder(sym, init, c);
      assert InChoice(n, c);
      var was, visibleIf :| n == Propagated(was, Leaf(Cho(c)), visibleIf);
      PropagatedUnder(was, c, visibleIf);
      OrUnder(WithNodes(sym, init).directDep, n.dep, Cho(c));
    }
  }

  /** A symbol all of whose definitions are in its choice mentions the choice, or can never be prompted for: what
      invalidation relies on is established by propagation. */
  lemma MembersAreLinked(cfg: Config, s: nat, sym: Symbol, nodes: seq<MenuNode>)
    requires s < |cfg.syms| && cfg.syms[s] == WithNodes(sym, nodes)
    requires 0 <= sym.choice < |cfg.choices| && s in cfg.choices[sym.choice].syms
    requires sym.prompts == [] && sym.directDep == Const(0) && AllInChoice(nodes, sym.choice)
    ensures SymbolLinked(cfg, s)
  {
    MemberUnder(sym, nodes, sym.choice);
    SameChoice(sym, nodes);
    if cfg.syms[s].directDep != Const(0) {
      assert SymbolMentions(cfg.syms[s], Cho(sym.choice));
    }
  }

  lemma {:induction false} SameChoice(sym: Symbol, nodes: seq<MenuNode>)
    ensures WithNodes(sym, nodes).choice == sym.choice
    decreases |nodes|
  {
    if nodes != [] { SameChoice(sym, nodes[..|nodes| - 1]); }
  }

  /** A member that is prompted for outside its choice as well, and in it has no prompt: the direct dependency is
      simplified to y, and nothing mentions the choice any more. */
  lemma OutsideDefinition()
    ensures var sym := Symbol(Bool, [], [], Const(0), Const(0), Const(0), 0);
      var inside := Propagated(MenuNode(Const(2), None, []), Leaf(Cho(0)), Const(2));
      var outside := Propagated(MenuNode(Const(2), Some(Const(2)), []), Const(2), Const(2));
      var member := WithNodes(sym, [inside, outside]);
      var cfg := Config([member], [Choice(Bool, false, [Const(2)], [], [0])], 1);
      && member == sym.(prompts := [Const(2)], directDep := Const(2)) && !SymbolLinked(cfg, 0)
  {
    var sym := Symbol(Bool, [], [], Const(0), Const(0), Const(0), 0);
    var inside := Propagated(MenuNode(Const(2), None, []), Leaf(Cho(0)), Const(2));
    var outside := Propagated(MenuNode(Const(2), Some(Const(2)), []), Const(2), Const(2));
    assert inside == MenuNode(Leaf(Cho(0)), None, []) && outside == MenuNode(Const(2), Some(Const(2)), []);
    assert [inside, outside][..1] == [inside] && [inside][..0] == [];
    var one := WithNodes(sym, [inside]);
    assert one == AddProps(WithNodes(sym, []), inside) == sym.(directDep := Leaf(Cho(0)));
    var member := WithNodes(sym, [inside, outside]);
    assert member == AddProps(one, outside) == sym.(prompts := [Const(2)], directDep := Const(2));
    var cfg := Config([member], [Choice(Bool, false, [Const(2)], [], [0])], 1);
    assert !SymbolMentions(member, Cho(0)) && member.prompts[0] != Const(0);
    assert !Unpromptable(member);
  }

  // ----- what propagation means for the values -----

  function Least(x: nat, y: nat): nat {
    if x <= y then x else y
  }

  /** The simplifications never change a value. */
  lemma MadeValues(a: Expr, b: Expr, env: Item -> nat)
    requires P.TriConstants(a) && P.TriConstants(b) && forall i :: env(i) <= 2
    ensures P.TriConstants(MakeAnd(a, b)) && P.TriConstants(MakeOr(a, b))
    ensures P.ValueUnder(MakeAnd(a, b), env) == Least(P.ValueUnder(a, env), P.ValueUnder(b, env))
    ensures P.ValueUnder(MakeOr(a, b), env) ==
      if P.ValueUnder(a, env) >= P.ValueUnder(b, env) then P.ValueUnder(a, env) else P.ValueUnder(b, env)
  {
    P.ValueIsTri(a, env);
    P.ValueIsTri(b, env);
    P.ConnectivesAreMinMax(a, b, env);
  }

  predicate TriNode(n: MenuNode) {
    && P.TriConstants(n.dep) && (n.prompt.Some? ==> P.TriConstants(n.prompt.value))
    && forall k :: 0 <= k < |n.defaults| ==> P.TriConstants(n.defaults[k].cond)
  }

  /** A node is limited by its parent: its dependency and the conditions of its defaults by the parent's dependency,
      the condition of its prompt by that and by `visible if`; nothing else of it changes. */
  lemma PropagatedValues(n: MenuNode, base: Expr, visibleIf: Expr, env: Item -> nat)
    requires TriNode(n) && P.TriConstants(base) && P.TriConstants(visibleIf) && forall i :: env(i) <= 2
    ensures var p := Propagated(n, base, visibleIf); var dep := P.ValueUnder(p.dep, env);
      && dep == Least(P.ValueUnder(n.dep, env), P.ValueUnder(base, env))
      && (p.prompt.Some? <==> n.prompt.Some?)
      && (n.prompt.Some? ==>
            P.ValueUnder(p.prompt.value, env) ==
            Least(P.ValueUnder(n.prompt.value, env), Least(P.ValueUnder(visibleIf, env), dep)))
      && |p.defaults| == |n.defaults|
      && forall k :: 0 <= k < |n.defaults| ==>
           p.defaults[k].value == n.defaults[k].value
           && P.ValueUnder(p.defaults[k].cond, env) == Least(P.ValueUnder(n.defaults[k].cond, env), dep)
  {
    var dep := MakeAnd(n.dep, base);
    MadeValues(n.dep, base, env);
    MadeValues(visibleIf, dep, env);
    if n.prompt.Some? { MadeValues(n.prompt.value, MakeAnd(visibleIf, dep), env); }
    forall k | 0 <= k < |n.defaults|
      ensures P.ValueUnder(MakeAnd(n.defaults[k].cond, dep), env) ==
        Least(P.ValueUnder(n.defaults[k].cond, env), P.ValueUnder(dep, env))
    {
      MadeValues(n.defaults[k].cond, dep, env);
    }
  }

  // ----- which nodes depend on a symbol -----

  /** _expr_depends_on */
  predicate DependsOnItem(e: Expr, i: Item) {
    match e
    case Const(_) => false
    case Leaf(j) => j == i
    case And(l, r) => DependsOnItem(l, i) || DependsOnItem(r, i)
    case Or(_, _) => false
    case Not(_) => false
    case Rel(op, a, b) =>
      if !op.Equal? && !op.Unequal? then false
      else if b != Leaf(i) && a != Leaf(i) then false
      else
        var other := if b == Leaf(i) then a else b;
        (op.Equal? && other == Const(1)) || other == Const(2) || (op.Unequal? && other == Const(0))
  }

  /** _auto_menu_dep */
  predicate AutoMenuDep(n: MenuNode, i: Item) {
    DependsOnItem(if n.prompt.Some? then n.prompt.value else n.dep, i)
  }

  function Conjuncts(e: Expr): seq<Expr> {
    match e
    case And(l, r) => Conjuncts(l) + Conjuncts(r)
    case _ => [e]
  }

  /** The item itself, i = m, i = y or i != n, either way round: what the comment on the function lists. */
  predicate Requires(c: Expr, i: Item) {
    || c == Leaf(i)
    || (c.Rel? && c.op.Equal? && (c.a == Leaf(i) || c.b == Leaf(i)) &&
        (c.a == Const(1) || c.b == Const(1) || c.a == Const(2) || c.b == Const(2)))
    || (c.Rel? && c.op.Unequal? && (c.a == Leaf(i) || c.b == Leaf(i)) && (c.a == Const(0) || c.b == Const(0)))
  }

  /** i != y, which the function lets through as well. */
  predicate ForbidsY(c: Expr, i: Item) {
    c.Rel? && c.op.Unequal? && (c.a == Leaf(i) || c.b == Leaf(i)) && (c.a == Const(2) || c.b == Const(2))
  }

  /** An expression depends on an item exactly if one of its conjuncts requires the item, or forbids it to be y. */
  lemma {:induction false} DependsByConjunct(e: Expr, i: Item)
    ensures DependsOnItem(e, i) <==> exists c :: c in Conjuncts(e) && (Requires(c, i) || ForbidsY(c, i))
  {
    if e.And? {
      DependsByConjunct(e.l, i);
      DependsByConjunct(e.r, i);
      assert forall c :: c in Conjuncts(e) <==> c in Conjuncts(e.l) || c in Conjuncts(e.r);
    } else {
      assert e in Conjuncts(e);
    }
  }

  lemma {:induction false} ConjunctBounds(e: Expr, c: Expr, env: Item -> nat)
    requires c in Conjuncts(e)
    ensures P.ValueUnder(e, env) <= P.ValueUnder(c, env)
  {
    if e.And? {
      if c in Conjuncts(e.l) { ConjunctBounds(e.l, c, env); } else { ConjunctBounds(e.r, c, env); }
    }
  }

  /** A node in the implicit submenu of a symbol by a conjunct that requires it is hidden while the symbol is n ... */
  lemma RequiredIsHidden(e: Expr, i: Item, c: Expr, env: Item -> nat)
    requires c in Conjuncts(e) && Requires(c, i) && env(i) == 0
    ensures DependsOnItem(e, i) && P.ValueUnder(e, env) == 0
  {
    DependsByConjunct(e, i);
    ConjunctBounds(e, c, env);
  }

  /** ... but not one that is there because it forbids the symbol to be y: it shows while the symbol is n, exactly
      where it is not meant to be. */
  lemma ForbiddenIsShown(i: Item, env: Item -> nat)
    requires env(i) <= 2
    ensures var e := Rel(Unequal, Leaf(i), Const(2));
      DependsOnItem(e, i) && (P.ValueUnder(e, env) != 0 <==> env(i) != 2)
  {
  }
}
