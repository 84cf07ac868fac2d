/** The assignable sets against the values that setting gives: exactly which values a symbol or choice can be given. */
module KconfigAssignable {
  import opened KconfigRules
  import opened KconfigCache
  import opened KconfigValues
  import P = KconfigParser

  // ----- all values are n, m or y -----

  /** The constants in the expressions of the configuration are n, m and y. */
  ghost predicate TriConfig(cfg: Config) {
    && (forall s :: 0 <= s < |cfg.syms| ==> TriSymbol(cfg.syms[s]))
    && (forall c :: 0 <= c < |cfg.choices| ==> AllTri(cfg.choices[c].prompts))
  }

  ghost predicate TriSymbol(sym: Symbol) {
    && AllTri(sym.prompts) && P.TriConstants(sym.revDep) && P.TriConstants(sym.weakRevDep)
    && P.TriConstants(sym.directDep)
    && forall k :: 0 <= k < |sym.defaults| ==>
         P.TriConstants(sym.defaults[k].value) && P.TriConstants(sym.defaults[k].cond)
  }

  ghost predicate AllTri(conds: seq<Expr>) {
    forall k :: 0 <= k < |conds| ==> P.TriConstants(conds[k])
  }

  /** The term has at most the value y if visibilities and values have. */
  predicate Bounded(t: Term) {
    match t
    case Lit(v) => v <= 2
    case Get(n) => n.Vis? || n.Tri?
    case User(_) => false
    case Unary(op, _) => op.NegateOp?
    case Strict(op, a, b) =>
      (match op
       case MinOp => Bounded(a) || Bounded(b)
       case MaxOp => Bounded(a) && Bounded(b)
       case CompareOp(_) => true
       case SecondOp => Bounded(b))
    case Lazy(op, a, b) => Bounded(a) && (op.PromoteOp? || Bounded(b))
    case Ite(_, a, b) => Bounded(a) && Bounded(b)
  }

  /** The bound, part by part. */
  lemma BoundedParts()
    ensures forall v: nat {:trigger Bounded(Lit(v))} :: Bounded(Lit(v)) <==> v <= 2
    ensures forall n {:trigger Bounded(Get(n))} :: Bounded(Get(n)) <==> n.Vis? || n.Tri?
    ensures forall a {:trigger Bounded(Unary(NegateOp, a))} :: Bounded(Unary(NegateOp, a))
    ensures forall a, b {:trigger Bounded(Strict(MinOp, a, b))} ::
      Bounded(Strict(MinOp, a, b)) <==> Bounded(a) || Bounded(b)
    ensures forall a, b {:trigger Bounded(Strict(MaxOp, a, b))} ::
      Bounded(Strict(MaxOp, a, b)) <==> Bounded(a) && Bounded(b)
    ensures forall r, a, b {:trigger Bounded(Strict(CompareOp(r), a, b))} :: Bounded(Strict(CompareOp(r), a, b))
    ensures forall a, b {:trigger Bounded(Strict(SecondOp, a, b))} :: Bounded(Strict(SecondOp, a, b)) <==> Bounded(b)
    ensures forall op, a, b {:trigger Bounded(Lazy(op, a, b))} ::
      Bounded(Lazy(op, a, b)) <==> Bounded(a) && (op.PromoteOp? || Bounded(b))
    ensures forall c, a, b {:trigger Bounded(Ite(c, a, b))} :: Bounded(Ite(c, a, b)) <==> Bounded(a) && Bounded(b)
  {
  }

  lemma {:induction false} ValueBounded(cfg: Config, e: Expr)
    requires P.TriConstants(e)
    ensures Bounded(Value(cfg, e))
  {
    hide Bounded;
    BoundedParts();
    match e
    case Const(_) =>
    case Leaf(Sym(_)) =>
    case Leaf(Cho(c)) => ModeBounded(cfg, c);
    case And(l, r) => ValueBounded(cfg, l); ValueBounded(cfg, r);
    case Or(l, r) => ValueBounded(cfg, l); ValueBounded(cfg, r);
    case Not(_) =>
    case Rel(_, _, _) =>
  }

  lemma ModeBounded(cfg: Config, c: nat)
    ensures Bounded(ChoiceTri(cfg, c))
  {
    hide Bounded;
    BoundedParts();
  }

  lemma {:induction false} PromptsBounded(cfg: Config, conds: seq<Expr>)
    requires AllTri(conds)
    ensures Bounded(PromptVisibility(cfg, conds))
  {
    hide Bounded;
    BoundedParts();
    if conds != [] {
      ValueBounded(cfg, conds[0]);
      PromptsBounded(cfg, conds[1..]);
    }
  }

  lemma {:induction false} DefaultsBounded(cfg: Config, defaults: seq<Default>)
    requires forall k :: 0 <= k < |defaults| ==> P.TriConstants(defaults[k].value) && P.TriConstants(defaults[k].cond)
    ensures Bounded(FirstDefault(cfg, defaults))
  {
    hide Bounded;
    BoundedParts();
    if defaults != [] {
      ValueBounded(cfg, defaults[0].cond);
      DefaultsBounded(cfg, defaults[1..]);
    }
  }

  lemma RuleBounded(cfg: Config, n: Node)
    requires TriConfig(cfg) && (n.Vis? || n.Tri?)
    ensures Bounded(Rule(cfg, n))
  {
    hide Bounded, PromptVisibility, NotTristate, ChoiceTri, FirstDefault, Value, Boolish;
    BoundedParts();
    if Defined(cfg, ItemOf(n)) {
      match n
      case Vis(Cho(c)) => PromptsBounded(cfg, cfg.choices[c].prompts);
      case Vis(Sym(s)) => PromptsBounded(cfg, cfg.syms[s].prompts);
      case Tri(s) =>
        DefaultsBounded(cfg, cfg.syms[s].defaults);
        ValueBounded(cfg, cfg.syms[s].weakRevDep);
        ValueBounded(cfg, cfg.syms[s].revDep);
    }
  }

  lemma {:induction false} NodeBounded(w: World, n: Node)
    requires w.Ok() && TriConfig(w.cfg) && (n.Vis? || n.Tri?)
    ensures w.Of(n) <= 2
    decreases w.rank(n), 1
  {
    hide Rule;
    RuleBounded(w.cfg, n);
    w.NodeValue(n);
    TermBounded(w, Rule(w.cfg, n), w.rank(n));
  }

  lemma {:induction false} TermBounded(w: World, t: Term, bound: nat)
    requires w.Ok() && TriConfig(w.cfg) && Bounded(t) && Below(t, w.rank, bound)
    ensures w.T(t) <= 2
    decreases bound, 0, t
  {
    hide World.Ok, World.Of, TriConfig;
    match t
    case Lit(_) =>
    case Get(n) => NodeBounded(w, n);
    case Unary(_, _) =>
    case Strict(op, a, b) =>
      if Bounded(a) { TermBounded(w, a, bound); }
      if Bounded(b) { TermBounded(w, b, bound); }
    case Lazy(op, a, b) =>
      TermBounded(w, a, bound);
      if Bounded(b) { TermBounded(w, b, bound); }
    case Ite(_, a, b) => TermBounded(w, a, bound); TermBounded(w, b, bound);
  }

  /** Every value and every expression is n, m or y. */
  lemma AllBounded(w: World)
    requires w.Ok() && TriConfig(w.cfg)
    ensures forall i :: w.Env()(i) <= 2 && w.Vis(i) <= 2
    ensures forall e :: P.TriConstants(e) ==> w.E(e) <= 2
  {
    forall i ensures w.Env()(i) <= 2 && w.Vis(i) <= 2 {
      NodeBounded(w, Vis(i));
      if i.Sym? { NodeBounded(w, Tri(i.s)); }
    }
    forall e | P.TriConstants(e) ensures w.E(e) <= 2 {
      P.ValueIsTri(e, w.Env());
    }
  }

  // ----- what setting a symbol leaves alone -----

  /** The term does not look at the user key. */
  predicate Blind(t: Term, k: UserKey) {
    match t
    case Lit(_) => true
    case Get(_) => true
    case User(j) => j != k
    case Unary(_, a) => Blind(a, k)
    case Strict(_, a, b) => Blind(a, k) && Blind(b, k)
    case Lazy(_, a, b) => Blind(a, k) && Blind(b, k)
    case Ite(c, a, b) => Blind(c, k) && Blind(a, k) && Blind(b, k)
  }

  /** Blindness, part by part. */
  lemma BlindParts(k: UserKey)
    ensures forall v: nat {:trigger Blind(Lit(v), k)} :: Blind(Lit(v), k)
    ensures forall n {:trigger Blind(Get(n), k)} :: Blind(Get(n), k)
    ensures forall j {:trigger Blind(User(j), k)} :: Blind(User(j), k) <==> j != k
    ensures forall op, a {:trigger Blind(Unary(op, a), k)} :: Blind(Unary(op, a), k) <==> Blind(a, k)
    ensures forall op, a, b {:trigger Blind(Strict(op, a, b), k)} ::
      Blind(Strict(op, a, b), k) <==> Blind(a, k) && Blind(b, k)
    ensures forall op, a, b {:trigger Blind(Lazy(op, a, b), k)} ::
      Blind(Lazy(op, a, b), k) <==> Blind(a, k) && Blind(b, k)
    ensures forall c, a, b {:trigger Blind(Ite(c, a, b), k)} ::
      Blind(Ite(c, a, b), k) <==> Blind(c, k) && Blind(a, k) && Blind(b, k)
  {
  }

  lemma ModeBlind(cfg: Config, c: nat, s: nat)
    ensures Blind(ChoiceIsBool(cfg, c), UserValue(Sym(s))) && Blind(ChoiceTri(cfg, c), UserValue(Sym(s)))
  {
    hide Blind;
    BlindParts(UserValue(Sym(s)));
  }

  lemma {:induction false} ValueBlind(cfg: Config, e: Expr, s: nat)
    ensures Blind(Value(cfg, e), UserValue(Sym(s)))
  {
    hide Blind;
    BlindParts(UserValue(Sym(s)));
    match e
    case Const(_) =>
    case Leaf(Sym(_)) =>
    case Leaf(Cho(c)) => ModeBlind(cfg, c, s);
    case And(l, r) => ValueBlind(cfg, l, s); ValueBlind(cfg, r, s);
    case Or(l, r) => ValueBlind(cfg, l, s); ValueBlind(cfg, r, s);
    case Not(f) => ValueBlind(cfg, f, s);
    case Rel(_, a, b) => ValueBlind(cfg, a, s); ValueBlind(cfg, b, s);
  }

  lemma {:induction false} PromptsBlind(cfg: Config, conds: seq<Expr>, s: nat)
    ensures Blind(PromptVisibility(cfg, conds), UserValue(Sym(s)))
  {
    hide Blind;
    BlindParts(UserValue(Sym(s)));
    if conds != [] {
      ValueBlind(cfg, conds[0], s);
      PromptsBlind(cfg, conds[1..], s);
    }
  }

  lemma {:induction false} DefaultsBlind(cfg: Config, defaults: seq<Default>, s: nat)
    ensures Blind(FirstDefault(cfg, defaults), UserValue(Sym(s)))
  {
    hide Blind;
    BlindParts(UserValue(Sym(s)));
    if defaults != [] {
      ValueBlind(cfg, defaults[0].cond, s);
      ValueBlind(cfg, defaults[0].value, s);
      DefaultsBlind(cfg, defaults[1..], s);
    }
  }

  lemma {:induction false} MembersBlind(syms: seq<nat>, c: nat, otherwise: Term, s: nat)
    requires Blind(otherwise, UserValue(Sym(s)))
    ensures Blind(FirstVisible(syms), UserValue(Sym(s)))
    ensures Blind(UserSelected(c, syms, otherwise), UserValue(Sym(s)))
  {
    hide Blind;
    BlindParts(UserValue(Sym(s)));
    if syms != [] {
      MembersBlind(syms[1..], c, otherwise, s);
    }
  }

  lemma {:induction false} ChoiceDefaultsBlind(cfg: Config, defaults: seq<ChoiceDefault>, syms: seq<nat>, s: nat)
    ensures Blind(DefaultSelection(cfg, defaults, syms), UserValue(Sym(s)))
  {
    hide Blind;
    BlindParts(UserValue(Sym(s)));
    if defaults == [] {
      MembersBlind(syms, 0, Lit(0), s);
    } else {
      ValueBlind(cfg, defaults[0].cond, s);
      ChoiceDefaultsBlind(cfg, defaults[1..], syms, s);
    }
  }

  lemma TypeBlind(cfg: Config, i: Item, s: nat)
    ensures Blind(NotTristate(cfg, i), UserValue(Sym(s)))
    ensures i.Sym? ==> Blind(SymbolIsBool(cfg, i.s), UserValue(Sym(s))) && Blind(Boolish(cfg, i.s), UserValue(Sym(s)))
  {
    hide Blind, ChoiceTri, ChoiceIsBool, Value;
    BlindParts(UserValue(Sym(s)));
    match i
    case Cho(c) => ModeBlind(cfg, c, s);
    case Sym(t) =>
      var sym := SymbolOf(cfg, t);
      ValueBlind(cfg, sym.weakRevDep, s);
      if sym.choice >= 0 { ModeBlind(cfg, sym.choice, s); }
  }

  lemma VisibilityBlind(cfg: Config, i: Item, s: nat)
    ensures Blind(VisibilityRule(cfg, i), UserValue(Sym(s)))
  {
    hide Blind, PromptVisibility, NotTristate, ChoiceTri;
    BlindParts(UserValue(Sym(s)));
    TypeBlind(cfg, i, s);
    match i
    case Cho(c) => PromptsBlind(cfg, ChoiceOf(cfg, c).prompts, s);
    case Sym(t) =>
      var sym := SymbolOf(cfg, t);
      PromptsBlind(cfg, sym.prompts, s);
      if sym.choice >= 0 { ModeBlind(cfg, sym.choice, s); }
  }

  lemma TriBlind(cfg: Config, t: nat, s: nat)
    requires t != s
    ensures Blind(TriRule(cfg, t), UserValue(Sym(s)))
  {
    hide Blind, FirstDefault, Value, Boolish;
    var sym := SymbolOf(cfg, t);
    BlindParts(UserValue(Sym(s)));
    DefaultsBlind(cfg, sym.defaults, s);
    ValueBlind(cfg, sym.weakRevDep, s);
    ValueBlind(cfg, sym.revDep, s);
    ValueBlind(cfg, sym.directDep, s);
    TypeBlind(cfg, Sym(t), s);
  }

  lemma SelectionBlind(cfg: Config, c: nat, s: nat)
    ensures Blind(SelectionRule(cfg, c), UserValue(Sym(s)))
  {
    hide Blind, DefaultSelection, ChoiceTri, UserSelected;
    var ch := ChoiceOf(cfg, c);
    BlindParts(UserValue(Sym(s)));
    ModeBlind(cfg, c, s);
    ChoiceDefaultsBlind(cfg, ch.defaults, ch.syms, s);
    MembersBlind(ch.syms, c, DefaultSelection(cfg, ch.defaults, ch.syms), s);
  }

  lemma ChoiceAssignableBlind(cfg: Config, c: nat, s: nat)
    ensures Blind(ChoiceAssignableRule(cfg, c), UserValue(Sym(s)))
  {
    hide Blind, ChoiceIsBool;
    BlindParts(UserValue(Sym(s)));
    ModeBlind(cfg, c, s);
  }

  lemma SymbolAssignableBlind(cfg: Config, t: nat, s: nat)
    ensures Blind(SymbolAssignableRule(cfg, t), UserValue(Sym(s)))
  {
    hide Blind, Value, Boolish;
    var sym := SymbolOf(cfg, t);
    BlindParts(UserValue(Sym(s)));
    ValueBlind(cfg, sym.revDep, s);
    ValueBlind(cfg, sym.weakRevDep, s);
    TypeBlind(cfg, Sym(t), s);
  }

  lemma RuleBlind(cfg: Config, n: Node, s: nat)
    requires n != Tri(s)
    ensures Blind(Rule(cfg, n), UserValue(Sym(s)))
  {
    match n
    case Assignable(Cho(c)) => ChoiceAssignableBlind(cfg, c, s);
    case Assignable(Sym(t)) => SymbolAssignableBlind(cfg, t, s);
    case Vis(i) => VisibilityBlind(cfg, i, s);
    case Tri(t) => TriBlind(cfg, t, s);
    case Selection(c) => SelectionBlind(cfg, c, s);
  }

  /** The same configuration with another user value of symbol s. */
  ghost predicate Differ(w: World, v: World, s: nat) {
    && w.Ok() && v.cfg == w.cfg && v.rank == w.rank
    && forall k :: k != UserValue(Sym(s)) ==> UserOf(v.user, k) == UserOf(w.user, k)
  }

  /** What ranks below the value of a symbol does not change with the symbol's user value. */
  lemma {:induction false} BelowUnchanged(w: World, v: World, s: nat, n: Node)
    requires Differ(w, v, s) && w.rank(n) <= w.rank(Tri(s)) && n != Tri(s)
    ensures v.Of(n) == w.Of(n)
    decreases w.rank(n), 1
  {
    hide Rule;
    RuleBlind(w.cfg, n, s);
    w.NodeValue(n);
    v.NodeValue(n);
    TermUnchanged(w, v, s, Rule(w.cfg, n), w.rank(n));
  }

  lemma {:induction false} TermUnchanged(w: World, v: World, s: nat, t: Term, bound: nat)
    requires Differ(w, v, s) && bound <= w.rank(Tri(s))
    requires Below(t, w.rank, bound) && Blind(t, UserValue(Sym(s)))
    ensures v.T(t) == w.T(t)
    decreases bound, 0, t
  {
    hide World.Ok, World.Of;
    match t
    case Lit(_) | User(_) =>
    case Get(n) => BelowUnchanged(w, v, s, n);
    case Unary(_, a) => TermUnchanged(w, v, s, a, bound);
    case Strict(_, a, b) => TermUnchanged(w, v, s, a, bound); TermUnchanged(w, v, s, b, bound);
    case Lazy(_, a, b) => TermUnchanged(w, v, s, a, bound); TermUnchanged(w, v, s, b, bound);
    case Ite(c, a, b) =>
      TermUnchanged(w, v, s, c, bound);
      TermUnchanged(w, v, s, a, bound);
      TermUnchanged(w, v, s, b, bound);
  }

  // ----- symbols: what can be set is what comes of it -----

  /** The value is in the set, as a bit mask. */
  predicate Has(mask: nat, v: nat) {
    match v
    case 0 => mask % 2 == 1
    case 1 => mask / 2 % 2 == 1
    case 2 => mask / 4 % 2 == 1
    case _ => false
  }

  /** Symbol s set to x. */
  function Set(w: World, s: nat, x: nat): World {
    w.(user := w.user[UserValue(Sym(s)) := x + 1])
  }

  lemma PartsBelow(w: World, s: nat)
    requires w.Ok() && s < |w.cfg.syms| && IsLogic(w.cfg.syms[s].kind) && w.cfg.syms[s].choice < 0
    ensures var sym, bound := w.cfg.syms[s], w.rank(Tri(s));
      && w.rank(Vis(Sym(s))) < bound && Below(Value(w.cfg, sym.revDep), w.rank, bound)
      && Below(Boolish(w.cfg, s), w.rank, bound)
  {
    hide Below, Value, FirstDefault, Boolish;
    BelowParts(w.rank, w.rank(Tri(s)));
    assert Below(Rule(w.cfg, Tri(s)), w.rank, w.rank(Tri(s)));
  }

  /** What a set value turns into: cut to the visibility, raised and promoted as before the set. */
  lemma ValueAfterSet(w: World, s: nat, x: nat)
    requires w.Ok() && s < |w.cfg.syms| && IsLogic(w.cfg.syms[s].kind) && w.cfg.syms[s].choice < 0
    requires w.Vis(Sym(s)) != 0
    ensures Set(w, s, x).Tri(s) == w.Settle(s, Min(x, w.Vis(Sym(s))))
  {
    hide Rule, Value, Boolish, World.E, World.BoolSymbol, Blind, Below;
    var v, sym, bound := Set(w, s, x), w.cfg.syms[s], w.rank(Tri(s));
    PartsBelow(w, s);
    BelowUnchanged(w, v, s, Vis(Sym(s)));
    ValueBlind(w.cfg, sym.revDep, s);
    TypeBlind(w.cfg, Sym(s), s);
    TermUnchanged(w, v, s, Value(w.cfg, sym.revDep), bound);
    TermUnchanged(w, v, s, Boolish(w.cfg, s), bound);
    w.ExprTerm(sym.revDep);
    v.ExprTerm(sym.revDep);
    w.BoolishTerm(s);
    v.BoolishTerm(s);
    v.UserValueCut(s);
    assert v.UserTri(Sym(s)) == x;
    assert v.Vis(Sym(s)) == w.Vis(Sym(s));
    assert v.E(sym.revDep) == w.E(sym.revDep);
    assert v.BoolSymbol(s) || v.E(sym.weakRevDep) == 2 <==> w.BoolSymbol(s) || w.E(sym.weakRevDep) == 2;
    assert v.Settle(s, Min(x, w.Vis(Sym(s)))) == w.Settle(s, Min(x, w.Vis(Sym(s))));
  }

  function MaskFor(vis: nat, rev: nat, up: bool, weakY: bool): nat {
    if vis == 0 then NONE
    else if vis == 2 then
      (if rev == 2 then Y else if rev != 0 then (if up then Y else MY) else if up then NY else NMY)
    else if rev == 2 then Y
    else if rev != 0 then M
    else if weakY then NY
    else NM
  }

  /** The set of a symbol outside choices, by visibility, selects and promotion. */
  lemma SymbolMask(w: World, s: nat)
    requires w.Ok() && s < |w.cfg.syms| && IsLogic(w.cfg.syms[s].kind) && w.cfg.syms[s].choice < 0
    ensures var sym := w.cfg.syms[s]; var weakY := w.E(sym.weakRevDep) == 2;
      w.Of(Assignable(Sym(s))) == MaskFor(w.Vis(Sym(s)), w.E(sym.revDep), weakY || w.BoolSymbol(s), weakY)
  {
    hide World.T, World.Ok, Value, Boolish, World.E, World.BoolSymbol;
    var sym := w.cfg.syms[s];
    w.TermParts();
    w.ExprTerm(sym.revDep);
    w.ExprTerm(sym.weakRevDep);
    w.BoolishTerm(s);
    w.NodeValue(Assignable(Sym(s)));
  }

  /** A value comes of setting the symbol to n, m or y. */
  ghost predicate Comes(w: World, s: nat, v: nat)
    requires w.Ok()
  {
    exists x: nat :: x <= 2 && Set(w, s, x).Tri(s) == v
  }

  lemma Outcomes(w: World, s: nat, v: nat)
    requires w.Ok() && s < |w.cfg.syms| && IsLogic(w.cfg.syms[s].kind) && w.cfg.syms[s].choice < 0
    requires w.Vis(Sym(s)) != 0
    ensures Comes(w, s, v) <==>
      || v == w.Settle(s, 0) || v == w.Settle(s, Min(1, w.Vis(Sym(s)))) || v == w.Settle(s, Min(2, w.Vis(Sym(s))))
  {
    ValueAfterSet(w, s, 0);
    ValueAfterSet(w, s, 1);
    ValueAfterSet(w, s, 2);
    hide World.Settle, World.Tri;
    assert Set(w, s, 0).Tri(s) == v || Set(w, s, 1).Tri(s) == v || Set(w, s, 2).Tri(s) == v ==> Comes(w, s, v);
  }

  function RaisedTo(x: nat, rev: nat, up: bool): nat {
    if Max(x, rev) == 1 && up then 2 else Max(x, rev)
  }

  lemma MaskMatches(vis: nat, rev: nat, up: bool, weakY: bool, v: nat)
    requires 1 <= vis <= 2 && rev <= 2 && (weakY ==> up) && (vis == 1 && up ==> weakY)
    ensures vis == 1 && rev == 1 && weakY ==> Has(MaskFor(vis, rev, up, weakY), 1) && RaisedTo(1, rev, up) == 2
    ensures !(vis == 1 && rev == 1 && weakY) ==>
      (Has(MaskFor(vis, rev, up, weakY), v) <==>
       v == RaisedTo(0, rev, up) || v == RaisedTo(Min(1, vis), rev, up) || v == RaisedTo(Min(2, vis), rev, up))
  {
    var mask := MaskFor(vis, rev, up, weakY);
    assert Has(mask, 1) <==> mask in {M, NM, MY, NMY};
    assert Has(mask, 0) <==> mask in {NM, NY, NMY};
    assert Has(mask, 2) <==> mask in {Y, NY, MY, NMY};
  }

  /** Exactly when the assignable values of a symbol outside choices are those that come of setting it: unless it is
      visible at m, selected to m and implied to y. Then m is said to be assignable and every set gives y. */
  lemma AssignableExactly(w: World, s: nat)
    requires w.Ok() && TriConfig(w.cfg)
    requires s < |w.cfg.syms| && IsLogic(w.cfg.syms[s].kind) && w.cfg.syms[s].choice < 0 && w.Vis(Sym(s)) != 0
    ensures (forall v :: Has(w.Of(Assignable(Sym(s))), v) <==> Comes(w, s, v)) <==>
      !(w.Vis(Sym(s)) == 1 && w.E(w.cfg.syms[s].revDep) == 1 && w.E(w.cfg.syms[s].weakRevDep) == 2)
  {
    var sym, mask := w.cfg.syms[s], w.Of(Assignable(Sym(s)));
    var vis, rev, weakY := w.Vis(Sym(s)), w.E(sym.revDep), w.E(sym.weakRevDep) == 2;
    var up := weakY || w.BoolSymbol(s);
    SymbolMask(w, s);
    AllBounded(w);
    w.SymbolVisibility(s);
    assert TriSymbol(sym) && rev <= 2 && vis <= 2 && (vis == 1 ==> !w.BoolSymbol(s));
    hide World.E, World.BoolSymbol, World.Ok, World.Of, Comes, Has, MaskFor, Max, TriConfig;
    MaskMatches(vis, rev, up, weakY, 1);
    forall v: nat
      ensures Comes(w, s, v) <==>
        v == RaisedTo(0, rev, up) || v == RaisedTo(Min(1, vis), rev, up) || v == RaisedTo(Min(2, vis), rev, up)
      ensures !(vis == 1 && rev == 1 && weakY) ==> (Has(mask, v) <==> Comes(w, s, v))
    {
      Outcomes(w, s, v);
      MaskMatches(vis, rev, up, weakY, v);
    }
    if vis == 1 && rev == 1 && weakY {
      assert RaisedTo(0, rev, up) == RaisedTo(1, rev, up) == 2 by { RaisedToOne(up); }
      assert !Comes(w, s, 1);
    }
  }

  lemma RaisedToOne(up: bool)
    ensures RaisedTo(0, 1, up) == RaisedTo(1, 1, up)
  {
  }

  /** An invisible symbol has no assignable value. */
  lemma NothingAssignable(w: World, i: Item)
    requires w.Ok() && w.Vis(i) == 0
    ensures w.Of(Assignable(i)) == NONE
  {
    hide World.T, World.Ok, Value, Boolish, ChoiceIsBool;
    w.TermParts();
    w.NodeValue(Assignable(i));
  }

  // ----- choices -----

  function ModeMask(vis: nat, optional: bool, isBool: bool): nat {
    if vis != 2 then (if optional then NM else M)
    else if isBool then (if optional then NY else Y)
    else if optional then NMY else MY
  }

  lemma ChoiceMask(w: World, c: nat)
    requires w.Ok() && c < |w.cfg.choices| && w.Vis(Cho(c)) != 0
    ensures w.Of(Assignable(Cho(c))) == ModeMask(w.Vis(Cho(c)), w.cfg.choices[c].optional, w.BoolChoice(c))
  {
    hide World.T, World.Ok, ChoiceIsBool, ChoiceTri, World.BoolChoice;
    w.TermParts();
    w.ChoiceTerms(c);
    w.NodeValue(Assignable(Cho(c)));
  }

  lemma ModeMaskHas(vis: nat, optional: bool, isBool: bool, v: nat)
    requires 1 <= vis <= 2 && (vis == 1 ==> !isBool)
    ensures Has(ModeMask(vis, optional, isBool), v) <==>
      (if optional then 0 else 1) <= v <= vis && (v == 1 ==> !isBool)
  {
  }

  /** The modes a visible choice can be set to: from its least mode up to its visibility, m only if its type is
      tristate; and a mode from that set, once the user has chosen it, is the mode. */
  lemma ModesAssignable(w: World, c: nat)
    requires w.Ok() && TriConfig(w.cfg) && c < |w.cfg.choices| && w.Vis(Cho(c)) != 0
    ensures forall v: nat :: Has(w.Of(Assignable(Cho(c))), v) <==>
      (if w.cfg.choices[c].optional then 0 else 1) <= v <= w.Vis(Cho(c)) && (v == 1 ==> !w.BoolChoice(c))
    ensures w.HasUser(Cho(c)) && Has(w.Of(Assignable(Cho(c))), w.UserTri(Cho(c))) ==>
      w.Mode(c) == w.UserTri(Cho(c))
  {
    AllBounded(w);
    w.ChoiceVisibility(c);
    ChoiceMask(w, c);
    forall v: nat ensures Has(w.Of(Assignable(Cho(c))), v) <==>
      (if w.cfg.choices[c].optional then 0 else 1) <= v <= w.Vis(Cho(c)) && (v == 1 ==> !w.BoolChoice(c))
    {
      ModeMaskHas(w.Vis(Cho(c)), w.cfg.choices[c].optional, w.BoolChoice(c), v);
    }
  }
}
