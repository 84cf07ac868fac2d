/** Exactly when evaluation ends in a configuration without choices that has loaded. The reads of MODULES by tristate
    symbols are the only ones that loading does not know of, so it all turns on whether MODULES comes back to itself. */
module KconfigEnds {
  import opened KconfigRules
  import opened KconfigCache
  import opened KconfigRank
  import L = KconfigLoops

  /** The attribute has a value after some number of nested reads. */
  ghost predicate Ends(cfg: Config, user: UserState, n: Node) {
    exists depth: nat :: Steps(cfg, user, Get(n), depth).Some?
  }

  // ----- evaluation up to the first read of MODULES -----

  datatype Probed = OutOfDepth | ReadsModules | Value(v: nat)

  /** Evaluates as Steps does, in the same order, but stops where the value of MODULES is asked for. */
  function Probe(cfg: Config, user: UserState, t: Term, depth: nat): Probed
    decreases depth, t
  {
    match t
    case Lit(v) => Value(v)
    case Get(n) =>
      if n == Tri(cfg.modules) then ReadsModules
      else if depth == 0 then OutOfDepth
      else Probe(cfg, user, Rule(cfg, n), depth - 1)
    case User(k) => Value(UserOf(user, k))
    case Unary(op, a) =>
      (match Probe(cfg, user, a, depth)
       case Value(x) => Value(ApplyUnary(op, x))
       case stopped => stopped)
    case Strict(op, a, b) =>
      (match Probe(cfg, user, a, depth)
       case Value(x) =>
         (match Probe(cfg, user, b, depth)
          case Value(y) => Value(ApplyStrict(op, x, y))
          case stopped => stopped)
       case stopped => stopped)
    case Lazy(op, a, b) =>
      (match Probe(cfg, user, a, depth)
       case Value(x) =>
         if Stops(op, x) then Value(x)
         else
           (match Probe(cfg, user, b, depth)
            case Value(y) => Value(ApplyLazy(op, x, y))
            case stopped => stopped)
       case stopped => stopped)
    case Ite(c, a, b) =>
      (match Probe(cfg, user, c, depth)
       case Value(x) => if x != 0 then Probe(cfg, user, a, depth) else Probe(cfg, user, b, depth)
       case stopped => stopped)
  }

  /** Evaluating the attribute asks for the value of MODULES. */
  ghost predicate AsksModules(cfg: Config, user: UserState, n: Node) {
    exists depth: nat :: Probe(cfg, user, Rule(cfg, n), depth) == ReadsModules
  }

  /** What was evaluated without MODULES is the value. */
  lemma {:induction false} ProbeIsSteps(cfg: Config, user: UserState, t: Term, depth: nat)
    requires Probe(cfg, user, t, depth).Value?
    ensures Steps(cfg, user, t, depth) == Some(Probe(cfg, user, t, depth).v)
    decreases depth, t
  {
    hide ApplyUnary, ApplyStrict, ApplyLazy, Stops, Rule;
    match t
    case Lit(_) | User(_) =>
    case Get(n) => ProbeIsSteps(cfg, user, Rule(cfg, n), depth - 1);
    case Unary(_, a) => ProbeIsSteps(cfg, user, a, depth);
    case Strict(_, a, b) => ProbeIsSteps(cfg, user, a, depth); ProbeIsSteps(cfg, user, b, depth);
    case Lazy(op, a, b) =>
      ProbeIsSteps(cfg, user, a, depth);
      if !Stops(op, Probe(cfg, user, a, depth).v) { ProbeIsSteps(cfg, user, b, depth); }
    case Ite(c, a, b) =>
      ProbeIsSteps(cfg, user, c, depth);
      ProbeIsSteps(cfg, user, if Probe(cfg, user, c, depth).v != 0 then a else b, depth);
  }

  /** Values do not depend on the depth that was enough for them. */
  lemma SameValue(cfg: Config, user: UserState, t: Term, depth: nat, d: nat)
    requires Probe(cfg, user, t, depth).Value? && Steps(cfg, user, t, d).Some?
    ensures Steps(cfg, user, t, d).value == Probe(cfg, user, t, depth).v
  {
    ProbeIsSteps(cfg, user, t, depth);
    if depth <= d { MoreSteps(cfg, user, t, depth, d); } else { MoreSteps(cfg, user, t, d, depth); }
  }

  /** Where evaluation asks for MODULES, it ends no sooner than MODULES does. */
  lemma {:induction false} StuckOnModules(cfg: Config, user: UserState, t: Term, depth: nat, d: nat)
    requires Probe(cfg, user, t, depth) == ReadsModules
    requires forall e: nat :: e <= d ==> Steps(cfg, user, Get(Tri(cfg.modules)), e) == None
    ensures Steps(cfg, user, t, d) == None
    decreases depth, t
  {
    hide ApplyUnary, ApplyStrict, ApplyLazy, Stops, Rule;
    match t
    case Get(n) =>
      if n != Tri(cfg.modules) && d > 0 { StuckOnModules(cfg, user, Rule(cfg, n), depth - 1, d - 1); }
    case Unary(_, a) => StuckOnModules(cfg, user, a, depth, d);
    case Strict(_, a, b) =>
      if Probe(cfg, user, a, depth).Value? {
        StuckOnModules(cfg, user, b, depth, d);
      } else {
        StuckOnModules(cfg, user, a, depth, d);
      }
    case Lazy(_, a, b) =>
      if Probe(cfg, user, a, depth).Value? {
        StuckOnModules(cfg, user, b, depth, d);
        if Steps(cfg, user, a, d).Some? { SameValue(cfg, user, a, depth, d); }
      } else {
        StuckOnModules(cfg, user, a, depth, d);
      }
    case Ite(c, a, b) =>
      if Probe(cfg, user, c, depth).Value? {
        StuckOnModules(cfg, user, if Probe(cfg, user, c, depth).v != 0 then a else b, depth, d);
        if Steps(cfg, user, c, d).Some? { SameValue(cfg, user, c, depth, d); }
      } else {
        StuckOnModules(cfg, user, c, depth, d);
      }
  }

  /** MODULES that asks for itself has no value at any depth. */
  lemma {:induction false} ModulesNeverEnds(cfg: Config, user: UserState, depth: nat, d: nat)
    requires Probe(cfg, user, Rule(cfg, Tri(cfg.modules)), depth) == ReadsModules
    ensures forall e: nat :: e <= d ==> Steps(cfg, user, Get(Tri(cfg.modules)), e) == None
    decreases d
  {
    hide Rule;
    if d > 0 {
      ModulesNeverEnds(cfg, user, depth, d - 1);
      StuckOnModules(cfg, user, Rule(cfg, Tri(cfg.modules)), depth, d - 1);
    }
  }

  // ----- in a configuration that has loaded -----

  /** The order found by loading ranks all reads but those of MODULES. */
  function ProbeRank(cfg: Config, order: seq<nat>, n: Node): nat {
    if n == Tri(cfg.modules) then 0
    else
      match n
      case Vis(Sym(s)) => 2 * Height(order, s) + 2
      case Tri(s) => if s < |cfg.syms| then 2 * Height(order, s) + 3 else 1
      case Assignable(Sym(s)) => 2 * Height(order, s) + 4
      case _ => 1
  }

  function Ranks(cfg: Config, order: seq<nat>): Node -> nat {
    n => ProbeRank(cfg, order, n)
  }

  /** Enough for every attribute. */
  function Deep(order: seq<nat>): nat {
    2 * |order| + 5
  }

  lemma ProbeInputs(cfg: Config, order: seq<nat>, s: nat, bound: nat)
    requires ChoiceFree(cfg) && Orders(cfg, RecordedGraph(cfg), order) && s < |cfg.syms|
    requires bound >= 2 * Height(order, s) + 2
    ensures InputsBelow(cfg, Ranks(cfg, order), s, bound)
  {
    forall j: nat | Recorded(cfg, j, s) ensures ProbeRank(cfg, order, Tri(j)) < bound {
      if j < |cfg.syms| {
        assert L.Edge(RecordedGraph(cfg), j, s);
        L.EdgeGoesBack(RecordedGraph(cfg), order, j, s);
      }
    }
  }

  lemma ProbeRanked(cfg: Config, order: seq<nat>, n: Node)
    requires ChoiceFree(cfg) && Orders(cfg, RecordedGraph(cfg), order)
    ensures n != Tri(cfg.modules) ==> Below(Rule(cfg, n), Ranks(cfg, order), ProbeRank(cfg, order, n))
    ensures Below(Rule(cfg, n), Ranks(cfg, order), Deep(order)) && ProbeRank(cfg, order, n) < Deep(order)
  {
    hide VisibilityRule, TriRule, SymbolAssignableRule, InputsBelow, RecordedGraph, Orders;
    var ranks := Ranks(cfg, order);
    if Defined(cfg, ItemOf(n)) {
      var s := ItemOf(n).s;
      var h := Height(order, s);
      var bound := 2 * h + if n.Vis? then 2 else if n.Tri? then 3 else 4;
      ProbeInputs(cfg, order, s, bound);
      if n.Vis? {
        VisibilityBelow(cfg, ranks, s, bound);
      } else {
        TriBelow(cfg, ranks, s, bound);
      }
      MoreBelow(Rule(cfg, n), ranks, bound, Deep(order));
    }
  }

  lemma {:induction false} MoreBelow(t: Term, rank: Node -> nat, bound: nat, more: nat)
    requires Below(t, rank, bound) && bound <= more
    ensures Below(t, rank, more)
  {
    match t
    case Lit(_) | User(_) | Get(_) =>
    case Unary(_, a) => MoreBelow(a, rank, bound, more);
    case Strict(_, a, b) => MoreBelow(a, rank, bound, more); MoreBelow(b, rank, bound, more);
    case Lazy(_, a, b) => MoreBelow(a, rank, bound, more); MoreBelow(b, rank, bound, more);
    case Ite(c, a, b) =>
      MoreBelow(c, rank, bound, more);
      MoreBelow(a, rank, bound, more);
      MoreBelow(b, rank, bound, more);
  }

  /** Evaluation up to MODULES ends in every configuration that has loaded. */
  lemma {:induction false} ProbeEnds(cfg: Config, order: seq<nat>, user: UserState, t: Term, bound: nat)
    requires ChoiceFree(cfg) && Orders(cfg, RecordedGraph(cfg), order) && Below(t, Ranks(cfg, order), bound)
    ensures Probe(cfg, user, t, bound) != OutOfDepth
    decreases bound, t
  {
    hide ApplyUnary, ApplyStrict, ApplyLazy, Stops, Rule, RecordedGraph, Orders;
    match t
    case Lit(_) | User(_) =>
    case Get(n) =>
      if n != Tri(cfg.modules) {
        var r := ProbeRank(cfg, order, n);
        ProbeRanked(cfg, order, n);
        MoreBelow(Rule(cfg, n), Ranks(cfg, order), r, bound - 1);
        ProbeEnds(cfg, order, user, Rule(cfg, n), bound - 1);
      }
    case Unary(_, a) => ProbeEnds(cfg, order, user, a, bound);
    case Strict(_, a, b) => ProbeEnds(cfg, order, user, a, bound); ProbeEnds(cfg, order, user, b, bound);
    case Lazy(_, a, b) => ProbeEnds(cfg, order, user, a, bound); ProbeEnds(cfg, order, user, b, bound);
    case Ite(c, a, b) =>
      ProbeEnds(cfg, order, user, c, bound);
      ProbeEnds(cfg, order, user, a, bound);
      ProbeEnds(cfg, order, user, b, bound);
  }

  /** Once MODULES has a value, everything has one. */
  lemma {:induction false} EndsAboveModules(cfg: Config, order: seq<nat>, user: UserState, t: Term, bound: nat, d: nat)
    requires ChoiceFree(cfg) && Orders(cfg, RecordedGraph(cfg), order) && Below(t, Ranks(cfg, order), bound)
    requires Steps(cfg, user, Get(Tri(cfg.modules)), d).Some?
    ensures Steps(cfg, user, t, bound + d).Some?
    decreases bound, t
  {
    hide ApplyUnary, ApplyStrict, ApplyLazy, Stops, Rule, RecordedGraph, Orders;
    match t
    case Lit(_) | User(_) =>
    case Get(n) =>
      if n == Tri(cfg.modules) {
        MoreSteps(cfg, user, t, d, bound + d);
      } else {
        var r := ProbeRank(cfg, order, n);
        ProbeRanked(cfg, order, n);
        MoreBelow(Rule(cfg, n), Ranks(cfg, order), r, bound - 1);
        EndsAboveModules(cfg, order, user, Rule(cfg, n), bound - 1, d);
      }
    case Unary(_, a) => EndsAboveModules(cfg, order, user, a, bound, d);
    case Strict(_, a, b) =>
      EndsAboveModules(cfg, order, user, a, bound, d);
      EndsAboveModules(cfg, order, user, b, bound, d);
    case Lazy(_, a, b) =>
      EndsAboveModules(cfg, order, user, a, bound, d);
      EndsAboveModules(cfg, order, user, b, bound, d);
    case Ite(c, a, b) =>
      EndsAboveModules(cfg, order, user, c, bound, d);
      EndsAboveModules(cfg, order, user, a, bound, d);
      EndsAboveModules(cfg, order, user, b, bound, d);
  }

  /** Exactly when MODULES has a value: when evaluating it does not come to ask for its value again. */
  lemma ModulesEnds(cfg: Config, order: seq<nat>, user: UserState)
    requires ChoiceFree(cfg) && Orders(cfg, RecordedGraph(cfg), order)
    ensures Ends(cfg, user, Tri(cfg.modules)) <==> !AsksModules(cfg, user, Tri(cfg.modules))
  {
    hide RecordedGraph, Orders, Rule;
    var modules := Tri(cfg.modules);
    if depth: nat :| Probe(cfg, user, Rule(cfg, modules), depth) == ReadsModules {
      forall d: nat ensures Steps(cfg, user, Get(modules), d) == None {
        ModulesNeverEnds(cfg, user, depth, d);
      }
    } else {
      ProbeRanked(cfg, order, modules);
      ProbeEnds(cfg, order, user, Rule(cfg, modules), Deep(order));
      ProbeIsSteps(cfg, user, Rule(cfg, modules), Deep(order));
      assert Steps(cfg, user, Get(modules), Deep(order) + 1).Some?;
    }
  }

  /** Exactly when an attribute has a value: when it can do without MODULES, or MODULES has one. */
  lemma AttributeEnds(cfg: Config, order: seq<nat>, user: UserState, n: Node)
    requires ChoiceFree(cfg) && Orders(cfg, RecordedGraph(cfg), order)
    ensures Ends(cfg, user, n) <==> !AsksModules(cfg, user, n) || Ends(cfg, user, Tri(cfg.modules))
  {
    hide RecordedGraph, Orders, Rule;
    ProbeRanked(cfg, order, n);
    if d: nat :| Steps(cfg, user, Get(Tri(cfg.modules)), d).Some? {
      EndsAboveModules(cfg, order, user, Rule(cfg, n), Deep(order), d);
      assert Steps(cfg, user, Get(n), Deep(order) + d + 1).Some?;
    } else if depth: nat :| Probe(cfg, user, Rule(cfg, n), depth) == ReadsModules {
      forall d: nat ensures Steps(cfg, user, Get(n), d) == None {
        if d > 0 { StuckOnModules(cfg, user, Rule(cfg, n), depth, d - 1); }
      }
    } else {
      ProbeEnds(cfg, order, user, Rule(cfg, n), Deep(order));
      ProbeIsSteps(cfg, user, Rule(cfg, n), Deep(order));
      assert Steps(cfg, user, Get(n), Deep(order) + 1).Some?;
    }
  }

  /** Exactly when a configuration that has loaded can be evaluated throughout. */
  lemma AllEnd(cfg: Config, order: seq<nat>, user: UserState)
    requires ChoiceFree(cfg) && Orders(cfg, RecordedGraph(cfg), order)
    ensures (forall n :: Ends(cfg, user, n)) <==> !AsksModules(cfg, user, Tri(cfg.modules))
    ensures (forall n :: Ends(cfg, user, n)) <==> Ends(cfg, user, Tri(cfg.modules))
  {
    hide RecordedGraph, Orders, Ends, AsksModules;
    ModulesEnds(cfg, order, user);
    forall n ensures Ends(cfg, user, Tri(cfg.modules)) ==> Ends(cfg, user, n) {
      AttributeEnds(cfg, order, user, n);
    }
  }

  /** Loading: the search for loops over the recorded dependencies. What it lets through has an order of evaluation
      unless MODULES depends on a tristate symbol; and trying MODULES once more settles, for given user values,
      whether evaluation ends. */
  method Load(cfg: Config, user: UserState) returns (r: L.Outcome, ends: bool)
    requires ChoiceFree(cfg)
    ensures r.Raised? <==> L.HasCycle(RecordedGraph(cfg))
    ensures !r.Raised? && !ModulesOnTristate(cfg) ==> HasRank(cfg)
    ensures !r.Raised? && AllLogic(cfg) ==> (HasRank(cfg) <==> !ModulesOnTristate(cfg))
    ensures !r.Raised? ==> (ends <==> forall n :: Ends(cfg, user, n))
  {
    var check := new L.LoopCheck(RecordedGraph(cfg));
    r := check.CheckAll();
    ends := false;
    if !r.Raised? {
      LoadedRank(cfg, check.order);
      ends := TryModules(cfg, user, check.order);
    }
  }

  method TryModules(cfg: Config, user: UserState, ghost order: seq<nat>) returns (ends: bool)
    requires ChoiceFree(cfg) && Orders(cfg, RecordedGraph(cfg), order)
    ensures ends <==> forall n :: Ends(cfg, user, n)
  {
    hide RecordedGraph, Orders, Rule, Ends;
    var modules := Rule(cfg, Tri(cfg.modules));
    ProbeRanked(cfg, order, Tri(cfg.modules));
    ProbeEnds(cfg, order, user, modules, Deep(order));
    AllEnd(cfg, order, user);
    var depth := 0;
    while Probe(cfg, user, modules, depth) == OutOfDepth
      invariant depth <= Deep(order)
      decreases Deep(order) - depth
    {
      depth := depth + 1;
    }
    ends := Probe(cfg, user, modules, depth).Value?;
    if ends {
      ValueIsFinal(cfg, user, modules, depth);
    }
  }

  lemma ValueIsFinal(cfg: Config, user: UserState, t: Term, depth: nat)
    requires Probe(cfg, user, t, depth).Value?
    ensures forall d: nat :: Probe(cfg, user, t, d) != ReadsModules
  {
    forall d: nat ensures Probe(cfg, user, t, d) != ReadsModules {
      if depth <= d {
        MoreProbes(cfg, user, t, depth, d);
      } else if Probe(cfg, user, t, d) != OutOfDepth {
        MoreProbes(cfg, user, t, d, depth);
      }
    }
  }

  lemma {:induction false} MoreProbes(cfg: Config, user: UserState, t: Term, depth: nat, more: nat)
    requires depth <= more && Probe(cfg, user, t, depth) != OutOfDepth
    ensures Probe(cfg, user, t, more) == Probe(cfg, user, t, depth)
    decreases depth, t
  {
    hide ApplyUnary, ApplyStrict, ApplyLazy, Stops, Rule;
    match t
    case Lit(_) | User(_) =>
    case Get(n) => if n != Tri(cfg.modules) { MoreProbes(cfg, user, Rule(cfg, n), depth - 1, more - 1); }
    case Unary(_, a) => MoreProbes(cfg, user, a, depth, more);
    case Strict(_, a, b) =>
      MoreProbes(cfg, user, a, depth, more);
      if Probe(cfg, user, a, depth).Value? { MoreProbes(cfg, user, b, depth, more); }
    case Lazy(op, a, b) =>
      MoreProbes(cfg, user, a, depth, more);
      if Probe(cfg, user, a, depth).Value? && !Stops(op, Probe(cfg, user, a, depth).v) {
        MoreProbes(cfg, user, b, depth, more);
      }
    case Ite(c, a, b) =>
      MoreProbes(cfg, user, c, depth, more);
      if Probe(cfg, user, c, depth).Value? {
        MoreProbes(cfg, user, if Probe(cfg, user, c, depth).v != 0 then a else b, depth, more);
      }
  }

  // ----- a configuration that loads and cannot be evaluated -----

  const T_IS_M: UserState := map[UserValue(Sym(1)) := 2]

  /** MODULES reads T for its prompt; T, being m, asks for its type, and so for MODULES. */
  lemma ModulesLoopAsks()
    ensures Probe(ModulesLoop(), T_IS_M, Rule(ModulesLoop(), Tri(1)), 1) == ReadsModules
    ensures Probe(ModulesLoop(), T_IS_M, Rule(ModulesLoop(), Tri(0)), 3) == ReadsModules
  {
    var cfg := ModulesLoop();
    LoopT();
    assert Probe(cfg, T_IS_M, Get(Tri(1)), 2) == ReadsModules;
    var vis := Get(Vis(Sym(0)));
    assert Rule(cfg, Vis(Sym(0))) == Promote(Maximum(Get(Tri(1)), Lit(0)), Lit(2));
    assert Probe(cfg, T_IS_M, Maximum(Get(Tri(1)), Lit(0)), 2) == ReadsModules;
    assert Probe(cfg, T_IS_M, vis, 3) == ReadsModules;
    var implied := Ite(Lit(0), Ite(Lit(2), Maximum(Lit(0), Lit(0)), Lit(0)), Lit(0));
    var chosen := Ite(vis, User(UserValue(Sym(0))), Lit(0));
    var base := Ite(chosen, Minimum(UserTri(Sym(0)), vis), implied);
    var selected := Ite(Lit(0), Then(Lit(2), Maximum(Lit(0), base)), base);
    assert Rule(cfg, Tri(0)) == Promote(selected, Boolish(cfg, 0));
    assert Probe(cfg, T_IS_M, chosen, 3) == ReadsModules && Probe(cfg, T_IS_M, base, 3) == ReadsModules;
    assert Probe(cfg, T_IS_M, selected, 3) == ReadsModules;
  }

  lemma LoopT()
    ensures Probe(ModulesLoop(), T_IS_M, Rule(ModulesLoop(), Tri(1)), 1) == ReadsModules
  {
    var cfg := ModulesLoop();
    var vis := Get(Vis(Sym(1)));
    assert Rule(cfg, Vis(Sym(1))) == Promote(Maximum(Lit(2), Lit(0)), ModulesOff(cfg));
    assert Probe(cfg, T_IS_M, Maximum(Lit(2), Lit(0)), 0) == Value(2);
    assert Probe(cfg, T_IS_M, vis, 1) == Value(2);
    var implied := Ite(Lit(0), Ite(Lit(2), Maximum(Lit(0), Lit(0)), Lit(0)), Lit(0));
    var chosen, shown := Ite(vis, User(UserValue(Sym(1))), Lit(0)), Minimum(UserTri(Sym(1)), vis);
    var base := Ite(chosen, shown, implied);
    var selected := Ite(Lit(0), Then(Lit(2), Maximum(Lit(0), base)), base);
    assert Rule(cfg, Tri(1)) == Promote(selected, LazyOr(ModulesOff(cfg), Is(Lit(0), 2)));
    assert Probe(cfg, T_IS_M, chosen, 1) == Value(2) && Probe(cfg, T_IS_M, UserTri(Sym(1)), 1) == Value(1);
    assert Probe(cfg, T_IS_M, base, 1) == Value(1);
    assert Probe(cfg, T_IS_M, selected, 1) == Value(1);
    assert Probe(cfg, T_IS_M, ModulesOff(cfg), 1) == ReadsModules;
  }

  /** With T set to m, neither T nor MODULES has a value after any number of nested reads. */
  lemma ModulesLoopDiverges(depth: nat)
    ensures Steps(ModulesLoop(), T_IS_M, Get(Tri(1)), depth) == None
    ensures Steps(ModulesLoop(), T_IS_M, Get(Tri(0)), depth) == None
  {
    hide Rule;
    ModulesLoopAsks();
    ModulesNeverEnds(ModulesLoop(), T_IS_M, 3, depth);
    if depth > 0 {
      StuckOnModules(ModulesLoop(), T_IS_M, Rule(ModulesLoop(), Tri(1)), 1, depth - 1);
    }
  }

  // ----- a configuration that has no order of evaluation, and is evaluated all the same -----

  /** MODULES is prompted on the tristate T, which has no prompt itself. */
  function QuietModules(): Config {
    Config(
      [Symbol(Bool, [Leaf(Sym(1))], [], Const(0), Const(0), Const(2), -1),
       Symbol(Tristate, [], [], Const(0), Const(0), Const(2), -1)],
      [],
      0)
  }

  lemma QuietModulesOrder()
    ensures Orders(QuietModules(), RecordedGraph(QuietModules()), [0, 1])
    ensures L.Edge(RecordedGraph(QuietModules()), 1, 0)
  {
    hide Recorded;
    var g, order := RecordedGraph(QuietModules()), [0, 1];
    forall j: nat, s: nat ensures Recorded(QuietModules(), j, s) <==> j == 1 && s == 0 {
      QuietModulesRecorded(j, s);
    }
    assert order[..1] == [0];
    assert L.Behind(g, order, 0) && L.Behind(g, order, 1);
  }

  lemma QuietModulesRecorded(j: nat, s: nat)
    ensures Recorded(QuietModules(), j, s) <==> j == 1 && s == 0
  {
    var cfg := QuietModules();
    assert Mentions(cfg.syms[0].prompts[0], Sym(1));
  }

  /** T is n before its type is asked for, so no read of MODULES comes back to MODULES. */
  lemma QuietModulesValue(user: UserState)
    ensures Probe(QuietModules(), user, Rule(QuietModules(), Tri(0)), 3).Value?
  {
    var cfg := QuietModules();
    QuietT(user);
    var vis := Get(Vis(Sym(0)));
    assert Rule(cfg, Vis(Sym(0))) == Promote(Maximum(Get(Tri(1)), Lit(0)), Lit(2));
    assert Probe(cfg, user, Maximum(Get(Tri(1)), Lit(0)), 2) == Value(0);
    assert Probe(cfg, user, vis, 3) == Value(0);
    var implied := Ite(Lit(0), Ite(Lit(2), Maximum(Lit(0), Lit(0)), Lit(0)), Lit(0));
    var chosen := Ite(vis, User(UserValue(Sym(0))), Lit(0));
    var base := Ite(chosen, Minimum(UserTri(Sym(0)), vis), implied);
    var selected := Ite(Lit(0), Then(Lit(2), Maximum(Lit(0), base)), base);
    assert Rule(cfg, Tri(0)) == Promote(selected, Boolish(cfg, 0));
    assert Probe(cfg, user, chosen, 3) == Value(0) && Probe(cfg, user, implied, 3) == Value(0);
    assert Probe(cfg, user, base, 3) == Value(0);
    assert Probe(cfg, user, selected, 3) == Value(0);
  }

  lemma QuietT(user: UserState)
    ensures Probe(QuietModules(), user, Get(Tri(1)), 2) == Value(0)
  {
    var cfg := QuietModules();
    var vis := Get(Vis(Sym(1)));
    assert Rule(cfg, Vis(Sym(1))) == Promote(Lit(0), ModulesOff(cfg));
    assert Probe(cfg, user, vis, 1) == Value(0);
    var implied := Ite(Lit(0), Ite(Lit(2), Maximum(Lit(0), Lit(0)), Lit(0)), Lit(0));
    var chosen := Ite(vis, User(UserValue(Sym(1))), Lit(0));
    var base := Ite(chosen, Minimum(UserTri(Sym(1)), vis), implied);
    var selected := Ite(Lit(0), Then(Lit(2), Maximum(Lit(0), base)), base);
    assert Rule(cfg, Tri(1)) == Promote(selected, Boolish(cfg, 1));
    assert Probe(cfg, user, chosen, 1) == Value(0) && Probe(cfg, user, implied, 1) == Value(0);
    assert Probe(cfg, user, base, 1) == Value(0);
    assert Probe(cfg, user, selected, 1) == Value(0);
  }

  /** No order of evaluation, yet every evaluation ends, whatever the user has set. */
  lemma QuietModulesEnds(user: UserState, n: Node)
    ensures ChoiceFree(QuietModules()) && !L.HasCycle(RecordedGraph(QuietModules())) && !HasRank(QuietModules())
    ensures Ends(QuietModules(), user, n)
  {
    hide Rule, RecordedGraph, Feeds, HasRank, Orders, Ends, L.Edge, L.HasCycle;
    var cfg := QuietModules();
    QuietModulesOrder();
    Acyclic(cfg, [0, 1]);
    ModulesFeeds(cfg);
    FeedsFurther(cfg, 1, 0);
    LoadedRank(cfg, [0, 1]);
    QuietModulesValue(user);
    ValueIsFinal(cfg, user, Rule(cfg, Tri(0)), 3);
    AllEnd(cfg, [0, 1], user);
  }
}
