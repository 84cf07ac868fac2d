/** Kconfig symbols and choices of logic type, and the rule by which each cached attribute is
    evaluated: a term that reads other attributes and the user values only as far as it needs to. */
module KconfigRules {

  datatype Relation = Equal | Unequal | Less | LessEqual | Greater | GreaterEqual

  datatype Item = Sym(s: nat) | Cho(c: nat)

  /** Expressions over symbols and choices; the constants n, m and y are 0, 1 and 2. */
  datatype Expr =
    | Const(v: nat)
    | Leaf(item: Item)
    | And(l: Expr, r: Expr)
    | Or(l: Expr, r: Expr)
    | Not(e: Expr)
    | Rel(op: Relation, a: Expr, b: Expr)

  datatype Type = Unknown | Bool | Tristate | NonLogic

  datatype Default = Default(value: Expr, cond: Expr)

  datatype Symbol = Symbol(
    kind: Type,
    prompts: seq<Expr>,       // the prompt conditions of its menu nodes
    defaults: seq<Default>,
    revDep: Expr,
    weakRevDep: Expr,
    directDep: Expr,
    choice: int)              // the choice it is in, -1 for none

  datatype ChoiceDefault = ChoiceDefault(sym: nat, cond: Expr)

  datatype Choice = Choice(
    kind: Type,
    optional: bool,
    prompts: seq<Expr>,
    defaults: seq<ChoiceDefault>,
    syms: seq<nat>)

  datatype Config = Config(syms: seq<Symbol>, choices: seq<Choice>, modules: nat)

  /** The cached attributes of symbols and choices. */
  datatype Node = Vis(item: Item) | Tri(s: nat) | Assignable(item: Item) | Selection(c: nat)

  /** What the user has set: a value per item, a selected symbol per choice. */
  datatype UserKey = UserValue(item: Item) | UserSelection(c: nat)

  function ItemOf(n: Node): Item {
    match n
    case Vis(i) => i
    case Tri(s) => Sym(s)
    case Assignable(i) => i
    case Selection(c) => Cho(c)
  }

  function KeyItem(k: UserKey): Item {
    match k
    case UserValue(i) => i
    case UserSelection(c) => Cho(c)
  }

  datatype UnaryOp = PredOp | NegateOp

  datatype StrictOp = MinOp | MaxOp | CompareOp(rel: Relation) | SecondOp

  /** An AndOp stops at n, an OrOp at y, a PromoteOp at anything but m. */
  datatype LazyOp = AndOp | OrOp | PromoteOp

  /** Evaluation rules. Absent user values are 0, present ones are one more than they are. */
  datatype Term =
    | Lit(v: nat)
    | Get(n: Node)
    | User(k: UserKey)
    | Unary(uop: UnaryOp, a: Term)
    | Strict(sop: StrictOp, a: Term, b: Term) // evaluates both
    | Lazy(lop: LazyOp, a: Term, b: Term)     // evaluates the second only if the first does not stop it
    | Ite(c: Term, t: Term, e: Term)

  function Pred(a: Term): Term { Unary(PredOp, a) }

  function Negate(a: Term): Term { Unary(NegateOp, a) }

  function Minimum(a: Term, b: Term): Term { Strict(MinOp, a, b) }

  function Maximum(a: Term, b: Term): Term { Strict(MaxOp, a, b) }

  function Compare(op: Relation, a: Term, b: Term): Term { Strict(CompareOp(op), a, b) }

  /** Evaluates both, yields the second. */
  function Then(a: Term, b: Term): Term { Strict(SecondOp, a, b) }

  function LazyAnd(a: Term, b: Term): Term { Lazy(AndOp, a, b) }

  function LazyOr(a: Term, b: Term): Term { Lazy(OrOp, a, b) }

  /** m becomes y when the second term, read only for m, is not n. */
  function Promote(a: Term, when: Term): Term { Lazy(PromoteOp, a, when) }

  function Truth(b: bool): nat { if b then 2 else 0 }

  function Related(op: Relation, a: nat, b: nat): nat {
    match op
    case Equal => Truth(a == b)
    case Unequal => Truth(a != b)
    case Less => Truth(a < b)
    case LessEqual => Truth(a <= b)
    case Greater => Truth(a > b)
    case GreaterEqual => Truth(a >= b)
  }

  function ApplyUnary(op: UnaryOp, x: nat): nat {
    match op
    case PredOp => if x == 0 then 0 else x - 1
    case NegateOp => if x <= 2 then 2 - x else 0
  }

  function ApplyStrict(op: StrictOp, x: nat, y: nat): nat {
    match op
    case MinOp => if x <= y then x else y
    case MaxOp => if x >= y then x else y
    case CompareOp(rel) => Related(rel, x, y)
    case SecondOp => y
  }

  predicate Stops(op: LazyOp, x: nat) {
    match op
    case AndOp => x == 0
    case OrOp => x == 2
    case PromoteOp => x != 1
  }

  function ApplyLazy(op: LazyOp, x: nat, y: nat): nat {
    match op
    case AndOp => if x <= y then x else y
    case OrOp => if x >= y then x else y
    case PromoteOp => if y != 0 then 2 else x
  }

  // ----- the configuration -----

  function SymbolOf(cfg: Config, s: nat): Symbol {
    if s < |cfg.syms| then cfg.syms[s]
    else Symbol(Unknown, [], [], Const(0), Const(0), Const(0), -1)
  }

  function ChoiceOf(cfg: Config, c: nat): Choice {
    if c < |cfg.choices| then cfg.choices[c] else Choice(Unknown, false, [], [], [])
  }

  predicate IsLogic(k: Type) {
    k == Bool || k == Tristate
  }

  function IsZero(t: Term): Term {
    Ite(t, Lit(0), Lit(2))
  }

  function Is(t: Term, v: nat): Term {
    Compare(Equal, t, Lit(v))
  }

  function ModulesOff(cfg: Config): Term {
    IsZero(Get(Tri(cfg.modules)))
  }

  /** The user value proper of an item that has one. */
  function UserTri(i: Item): Term {
    Pred(User(UserValue(i)))
  }

  // ----- choices -----

  /** Choice.type is BOOL. */
  function ChoiceIsBool(cfg: Config, c: nat): Term {
    var kind := ChoiceOf(cfg, c).kind;
    if kind == Tristate then ModulesOff(cfg) else Lit(Truth(kind == Bool))
  }

  /** Choice.tri_value, which is not cached itself. */
  function ChoiceTri(cfg: Config, c: nat): Term {
    var least := Lit(if ChoiceOf(cfg, c).optional then 0 else 1);
    var wanted := Ite(User(UserValue(Cho(c))), Maximum(least, UserTri(Cho(c))), least);
    Promote(Minimum(wanted, Get(Vis(Cho(c)))), ChoiceIsBool(cfg, c))
  }

  /** expr_value. */
  function Value(cfg: Config, e: Expr): Term {
    match e
    case Const(v) => Lit(v)
    case Leaf(Sym(s)) => Get(Tri(s))
    case Leaf(Cho(c)) => ChoiceTri(cfg, c)
    case And(l, r) => LazyAnd(Value(cfg, l), Value(cfg, r))
    case Or(l, r) => LazyOr(Value(cfg, l), Value(cfg, r))
    case Not(f) => Negate(Value(cfg, f))
    case Rel(op, a, b) => Compare(op, Value(cfg, a), Value(cfg, b))
  }

  function PromptVisibility(cfg: Config, prompts: seq<Expr>): Term {
    if prompts == [] then Lit(0)
    else Maximum(Value(cfg, prompts[0]), PromptVisibility(cfg, prompts[1..]))
  }

  function FirstVisible(syms: seq<nat>): Term {
    if syms == [] then Lit(0)
    else Ite(Get(Vis(Sym(syms[0]))), Lit(syms[0] + 1), FirstVisible(syms[1..]))
  }

  /** Choice._selection_from_defaults. */
  function DefaultSelection(cfg: Config, defaults: seq<ChoiceDefault>, syms: seq<nat>): Term {
    if defaults == [] then FirstVisible(syms)
    else
      var next := DefaultSelection(cfg, defaults[1..], syms);
      Ite(Value(cfg, defaults[0].cond), Ite(Get(Vis(Sym(defaults[0].sym))), Lit(defaults[0].sym + 1), next), next)
  }

  function UserSelected(c: nat, syms: seq<nat>, otherwise: Term): Term {
    if syms == [] then otherwise
    else Ite(Is(User(UserSelection(c)), syms[0] + 1),
             Ite(Get(Vis(Sym(syms[0]))), Lit(syms[0] + 1), otherwise),
             UserSelected(c, syms[1..], otherwise))
  }

  /** Choice._selection: 0 for none, else one more than the symbol. */
  function SelectionRule(cfg: Config, c: nat): Term {
    var ch := ChoiceOf(cfg, c);
    Ite(Is(ChoiceTri(cfg, c), 2), UserSelected(c, ch.syms, DefaultSelection(cfg, ch.defaults, ch.syms)), Lit(0))
  }

  // Sets of assignable values, as bit masks.
  const NONE: nat := 0
  const M: nat := 2
  const NM: nat := 3
  const Y: nat := 4
  const NY: nat := 5
  const MY: nat := 6
  const NMY: nat := 7

  function ChoiceAssignableRule(cfg: Config, c: nat): Term {
    var vis := Get(Vis(Cho(c)));
    var optional := ChoiceOf(cfg, c).optional;
    Ite(vis,
        Ite(Is(vis, 2),
            Ite(ChoiceIsBool(cfg, c), Lit(if optional then NY else Y), Lit(if optional then NMY else MY)),
            Lit(if optional then NM else M)),
        Lit(NONE))
  }

  // ----- symbols -----

  /** Symbol.type is BOOL. */
  function SymbolIsBool(cfg: Config, s: nat): Term {
    var sym := SymbolOf(cfg, s);
    if sym.kind != Tristate then Lit(Truth(sym.kind == Bool))
    else if sym.choice >= 0 then LazyOr(Is(ChoiceTri(cfg, sym.choice), 2), ModulesOff(cfg))
    else ModulesOff(cfg)
  }

  /** The item's type is not TRISTATE. */
  function NotTristate(cfg: Config, i: Item): Term {
    match i
    case Sym(s) => if SymbolOf(cfg, s).kind == Tristate then SymbolIsBool(cfg, s) else Lit(2)
    case Cho(c) => if ChoiceOf(cfg, c).kind == Tristate then ChoiceIsBool(cfg, c) else Lit(2)
  }

  /** _visibility. */
  function VisibilityRule(cfg: Config, i: Item): Term {
    match i
    case Cho(c) => Promote(PromptVisibility(cfg, ChoiceOf(cfg, c).prompts), NotTristate(cfg, i))
    case Sym(s) =>
      var sym := SymbolOf(cfg, s);
      var vis := PromptVisibility(cfg, sym.prompts);
      var promoted := Promote(vis, NotTristate(cfg, i));
      if sym.choice < 0 then promoted
      else
        var inY := Is(ChoiceTri(cfg, sym.choice), 2);
        if sym.kind == Tristate then Ite(Is(vis, 1), Ite(inY, Lit(0), promoted), promoted)
        else if ChoiceOf(cfg, sym.choice).kind == Tristate then Then(vis, Ite(inY, promoted, Lit(0)))
        else promoted
  }

  function FirstDefault(cfg: Config, defaults: seq<Default>): Term {
    if defaults == [] then Lit(0)
    else Ite(Value(cfg, defaults[0].cond), Minimum(Value(cfg, defaults[0].value), Value(cfg, defaults[0].cond)),
             FirstDefault(cfg, defaults[1..]))
  }

  /** m is promoted for BOOL symbols and for symbols implied to y. */
  function Boolish(cfg: Config, s: nat): Term {
    LazyOr(SymbolIsBool(cfg, s), Is(Value(cfg, SymbolOf(cfg, s).weakRevDep), 2))
  }

  /** Symbol.tri_value. */
  function TriRule(cfg: Config, s: nat): Term {
    var sym := SymbolOf(cfg, s);
    var vis := Get(Vis(Sym(s)));
    if !IsLogic(sym.kind) then Lit(0)
    else if sym.choice >= 0 then
      Ite(Is(vis, 2), Is(Get(Selection(sym.choice)), s + 1),
          Ite(vis, Ite(UserTri(Sym(s)), Lit(1), Lit(0)), Lit(0)))
    else
      var direct := Value(cfg, sym.directDep);
      var dflt := FirstDefault(cfg, sym.defaults);
      var weak := Value(cfg, sym.weakRevDep);
      var implied := Ite(weak, Ite(direct, Maximum(weak, dflt), dflt), dflt);
      var base := Ite(Ite(vis, User(UserValue(Sym(s))), Lit(0)), Minimum(UserTri(Sym(s)), vis), implied);
      var rev := Value(cfg, sym.revDep);
      var selected := Ite(rev, Then(direct, Maximum(rev, base)), base);
      Promote(selected, Boolish(cfg, s))
  }

  /** Symbol._assignable. */
  function SymbolAssignableRule(cfg: Config, s: nat): Term {
    var sym := SymbolOf(cfg, s);
    var vis := Get(Vis(Sym(s)));
    var rev := Value(cfg, sym.revDep);
    var weakY := Is(Value(cfg, sym.weakRevDep), 2);
    if !IsLogic(sym.kind) then Lit(NONE)
    else
      Ite(vis,
          Ite(Is(vis, 2),
              if sym.choice >= 0 then Then(rev, Lit(Y))
              else Ite(rev,
                       Ite(Is(rev, 2), Lit(Y), Ite(Boolish(cfg, s), Lit(Y), Lit(MY))),
                       Ite(Boolish(cfg, s), Lit(NY), Lit(NMY))),
              Ite(rev, Ite(Is(rev, 2), Lit(Y), Lit(M)), Ite(weakY, Lit(NY), Lit(NM)))),
          Lit(NONE))
  }

  predicate Defined(cfg: Config, i: Item) {
    match i
    case Sym(s) => s < |cfg.syms|
    case Cho(c) => c < |cfg.choices|
  }

  /** The rule of every cached attribute; those of undefined symbols are n. */
  function Rule(cfg: Config, n: Node): Term {
    if !Defined(cfg, ItemOf(n)) then Lit(0) else
    match n
    case Vis(i) => VisibilityRule(cfg, i)
    case Tri(s) => TriRule(cfg, s)
    case Assignable(Sym(s)) => SymbolAssignableRule(cfg, s)
    case Assignable(Cho(c)) => ChoiceAssignableRule(cfg, c)
    case Selection(c) => SelectionRule(cfg, c)
  }

  // ----- the dependency sets of _build_dep and _add_choice_deps -----

  predicate Mentions(e: Expr, i: Item) {
    match e
    case Const(_) => false
    case Leaf(j) => j == i
    case And(l, r) => Mentions(l, i) || Mentions(r, i)
    case Or(l, r) => Mentions(l, i) || Mentions(r, i)
    case Not(f) => Mentions(f, i)
    case Rel(_, a, b) => Mentions(a, i) || Mentions(b, i)
  }

  predicate SymbolMentions(sym: Symbol, i: Item) {
    || (exists k :: 0 <= k < |sym.prompts| && Mentions(sym.prompts[k], i))
    || (exists k ::
          0 <= k < |sym.defaults| && (Mentions(sym.defaults[k].value, i) || Mentions(sym.defaults[k].cond, i)))
    || Mentions(sym.revDep, i) || Mentions(sym.weakRevDep, i) || Mentions(sym.directDep, i)
  }

  predicate ChoiceMentions(ch: Choice, i: Item) {
    || (exists k :: 0 <= k < |ch.prompts| && Mentions(ch.prompts[k], i))
    || (exists k :: 0 <= k < |ch.defaults| && Mentions(ch.defaults[k].cond, i))
    || (i.Sym? && i.s in ch.syms)
  }

  /** Item i is in the `_dependents` of item j. */
  predicate DependsOn(cfg: Config, i: Item, j: Item) {
    match i
    case Sym(s) => s < |cfg.syms| && SymbolMentions(cfg.syms[s], j)
    case Cho(c) => c < |cfg.choices| && ChoiceMentions(cfg.choices[c], j)
  }

  function Items(cfg: Config): set<Item> {
    (set s: nat | s < |cfg.syms| :: Sym(s)) + (set c: nat | c < |cfg.choices| :: Cho(c))
  }

  function Dependents(cfg: Config, j: Item): set<Item> {
    set i | i in Items(cfg) && DependsOn(cfg, i, j)
  }

  // ----- which reads the dependency sets cover -----

  /** A read of node n by item i that invalidation will find: of itself, of a node of an item i depends on,
      or of MODULES, which invalidates everything. */
  predicate Covered(cfg: Config, i: Item, n: Node) {
    ItemOf(n) == i || DependsOn(cfg, i, ItemOf(n)) || n == Tri(cfg.modules)
  }

  /** User values of symbols are only read by the symbol itself, and only where `own` allows it. */
  predicate CoveredKey(cfg: Config, i: Item, own: bool, k: UserKey) {
    match k
    case UserSelection(c) => i == Cho(c)
    case UserValue(Cho(c)) => i == Cho(c) || DependsOn(cfg, i, Cho(c))
    case UserValue(Sym(s)) => own && i == Sym(s)
  }

  predicate CoveredTerm(cfg: Config, i: Item, own: bool, t: Term) {
    match t
    case Lit(_) => true
    case Get(n) => Covered(cfg, i, n)
    case User(k) => CoveredKey(cfg, i, own, k)
    case Unary(_, a) => CoveredTerm(cfg, i, own, a)
    case Strict(_, a, b) => CoveredTerm(cfg, i, own, a) && CoveredTerm(cfg, i, own, b)
    case Lazy(_, a, b) => CoveredTerm(cfg, i, own, a) && CoveredTerm(cfg, i, own, b)
    case Ite(c, a, b) => CoveredTerm(cfg, i, own, c) && CoveredTerm(cfg, i, own, a) && CoveredTerm(cfg, i, own, b)
  }

  /** Every choice that a symbol is in exists. */
  predicate ChoicesExist(cfg: Config) {
    forall s :: 0 <= s < |cfg.syms| && cfg.syms[s].choice >= 0 ==> cfg.syms[s].choice < |cfg.choices|
  }

  /** A choice symbol whose prompt conditions are the constant n, into which no dependency is propagated: it is never
      visible, so all its values are n. */
  predicate Settled(cfg: Config, i: Item) {
    i.Sym? && i.s < |cfg.syms| && cfg.syms[i.s].choice >= 0 && Unpromptable(cfg.syms[i.s])
  }

  predicate Unpromptable(sym: Symbol) {
    forall k :: 0 <= k < |sym.prompts| ==> sym.prompts[k] == Const(0)
  }

  /** Choice symbols are members of their choice and mention it in their conditions (dependency propagation puts it
      there, unless a condition is n); choice defaults are mentioned by the choice, as its members are. The second
      part is only warned about, not enforced. */
  predicate Linked(cfg: Config) {
    && (forall s :: 0 <= s < |cfg.syms| ==> SymbolLinked(cfg, s))
    && (forall c :: 0 <= c < |cfg.choices| ==> ChoiceLinked(cfg.choices[c]))
  }

  predicate SymbolLinked(cfg: Config, s: nat)
    requires s < |cfg.syms|
  {
    var c := cfg.syms[s].choice;
    c >= 0 ==>
      && c < |cfg.choices| && s in cfg.choices[c].syms
      && (SymbolMentions(cfg.syms[s], Cho(c)) || Settled(cfg, Sym(s)))
  }

  predicate ChoiceLinked(ch: Choice) {
    forall k :: 0 <= k < |ch.defaults| ==> ChoiceMentions(ch, Sym(ch.defaults[k].sym))
  }

  lemma LiteralsCovered(cfg: Config, own: bool, i: Item)
    ensures forall v: nat :: CoveredTerm(cfg, i, own, Lit(v))
  {
  }

  lemma ChoiceTriCovered(cfg: Config, own: bool, i: Item, c: nat)
    requires i == Cho(c) || DependsOn(cfg, i, Cho(c))
    ensures CoveredTerm(cfg, i, own, ChoiceIsBool(cfg, c)) && CoveredTerm(cfg, i, own, ChoiceTri(cfg, c))
    ensures CoveredTerm(cfg, i, own, Is(ChoiceTri(cfg, c), 2))
  {
    LiteralsCovered(cfg, own, i);
    assert CoveredTerm(cfg, i, own, Get(Tri(cfg.modules)));
    assert CoveredTerm(cfg, i, own, Get(Vis(Cho(c))));
    var least := Lit(if ChoiceOf(cfg, c).optional then 0 else 1);
    assert CoveredKey(cfg, i, own, UserValue(Cho(c)));
    assert CoveredTerm(cfg, i, own, User(UserValue(Cho(c))));
    assert CoveredTerm(cfg, i, own, UserTri(Cho(c)));
    assert CoveredTerm(cfg, i, own, Maximum(least, UserTri(Cho(c))));
    var wanted := Ite(User(UserValue(Cho(c))), Maximum(least, UserTri(Cho(c))), least);
    assert CoveredTerm(cfg, i, own, wanted);
    assert CoveredTerm(cfg, i, own, Minimum(wanted, Get(Vis(Cho(c)))));
  }

  lemma {:induction false} ValueCovered(cfg: Config, own: bool, i: Item, e: Expr)
    requires forall j :: Mentions(e, j) ==> DependsOn(cfg, i, j)
    ensures CoveredTerm(cfg, i, own, Value(cfg, e))
  {
    match e
    case Const(_) =>
    case Leaf(j) =>
      assert Mentions(e, j);
      if j.Cho? { ChoiceTriCovered(cfg, own, i, j.c); }
    case And(l, r) => ValueCovered(cfg, own, i, l); ValueCovered(cfg, own, i, r);
    case Or(l, r) => ValueCovered(cfg, own, i, l); ValueCovered(cfg, own, i, r);
    case Not(f) => ValueCovered(cfg, own, i, f);
    case Rel(_, a, b) => ValueCovered(cfg, own, i, a); ValueCovered(cfg, own, i, b);
  }

  lemma {:induction false} PromptsCovered(cfg: Config, own: bool, i: Item, prompts: seq<Expr>)
    requires forall k, j :: 0 <= k < |prompts| && Mentions(prompts[k], j) ==> DependsOn(cfg, i, j)
    ensures CoveredTerm(cfg, i, own, PromptVisibility(cfg, prompts))
  {
    if prompts != [] {
      ValueCovered(cfg, own, i, prompts[0]);
      PromptsCovered(cfg, own, i, prompts[1..]);
    }
  }

  lemma {:induction false} DefaultsCovered(cfg: Config, own: bool, i: Item, defaults: seq<Default>)
    requires forall k, j :: 0 <= k < |defaults| && (Mentions(defaults[k].value, j) || Mentions(defaults[k].cond, j)) ==>
      DependsOn(cfg, i, j)
    ensures CoveredTerm(cfg, i, own, FirstDefault(cfg, defaults))
  {
    if defaults != [] {
      ValueCovered(cfg, own, i, defaults[0].value);
      ValueCovered(cfg, own, i, defaults[0].cond);
      DefaultsCovered(cfg, own, i, defaults[1..]);
    }
  }

  lemma {:induction false} MembersCovered(cfg: Config, own: bool, c: nat, syms: seq<nat>, otherwise: Term)
    requires forall k :: 0 <= k < |syms| ==> DependsOn(cfg, Cho(c), Sym(syms[k]))
    ensures CoveredTerm(cfg, Cho(c), own, FirstVisible(syms))
    ensures CoveredTerm(cfg, Cho(c), own, otherwise) ==> CoveredTerm(cfg, Cho(c), own, UserSelected(c, syms, otherwise))
  {
    if syms != [] {
      MembersCovered(cfg, own, c, syms[1..], otherwise);
    }
  }

  lemma {:induction false} ChoiceDefaultsCovered(cfg: Config, own: bool, c: nat, defaults: seq<ChoiceDefault>,
      syms: seq<nat>)
    requires forall k :: 0 <= k < |syms| ==> DependsOn(cfg, Cho(c), Sym(syms[k]))
    requires forall k :: 0 <= k < |defaults| ==> DependsOn(cfg, Cho(c), Sym(defaults[k].sym))
    requires forall k, j :: 0 <= k < |defaults| && Mentions(defaults[k].cond, j) ==> DependsOn(cfg, Cho(c), j)
    ensures CoveredTerm(cfg, Cho(c), own, DefaultSelection(cfg, defaults, syms))
  {
    if defaults == [] {
      MembersCovered(cfg, own, c, syms, Lit(0));
    } else {
      ValueCovered(cfg, own, Cho(c), defaults[0].cond);
      assert DependsOn(cfg, Cho(c), Sym(defaults[0].sym));
      ChoiceDefaultsCovered(cfg, own, c, defaults[1..], syms);
    }
  }

  lemma SymbolTypeCovered(cfg: Config, own: bool, s: nat)
    requires Linked(cfg) && !Settled(cfg, Sym(s))
    ensures CoveredTerm(cfg, Sym(s), own, SymbolIsBool(cfg, s))
      && CoveredTerm(cfg, Sym(s), own, NotTristate(cfg, Sym(s)))
    ensures SymbolOf(cfg, s).choice >= 0
      ==> CoveredTerm(cfg, Sym(s), own, Is(ChoiceTri(cfg, SymbolOf(cfg, s).choice), 2))
    ensures SymbolOf(cfg, s).choice >= 0 ==> Covered(cfg, Sym(s), Selection(SymbolOf(cfg, s).choice))
  {
    var sym := SymbolOf(cfg, s);
    assert CoveredTerm(cfg, Sym(s), own, Get(Tri(cfg.modules)));
    if sym.choice >= 0 {
      assert SymbolLinked(cfg, s);
      ChoiceTriCovered(cfg, own, Sym(s), sym.choice);
    }
  }

  lemma ExpressionsCovered(cfg: Config, own: bool, s: nat)
    ensures CoveredTerm(cfg, Sym(s), own, PromptVisibility(cfg, SymbolOf(cfg, s).prompts))
    ensures CoveredTerm(cfg, Sym(s), own, FirstDefault(cfg, SymbolOf(cfg, s).defaults))
    ensures CoveredTerm(cfg, Sym(s), own, Value(cfg, SymbolOf(cfg, s).revDep))
    ensures CoveredTerm(cfg, Sym(s), own, Value(cfg, SymbolOf(cfg, s).weakRevDep))
    ensures CoveredTerm(cfg, Sym(s), own, Value(cfg, SymbolOf(cfg, s).directDep))
  {
    var sym := SymbolOf(cfg, s);
    PromptsCovered(cfg, own, Sym(s), sym.prompts);
    DefaultsCovered(cfg, own, Sym(s), sym.defaults);
    ValueCovered(cfg, own, Sym(s), sym.revDep);
    ValueCovered(cfg, own, Sym(s), sym.weakRevDep);
    ValueCovered(cfg, own, Sym(s), sym.directDep);
  }

  lemma VisibilityCovered(cfg: Config, s: nat)
    requires Linked(cfg) && !Settled(cfg, Sym(s))
    ensures CoveredTerm(cfg, Sym(s), false, VisibilityRule(cfg, Sym(s)))
  {
    hide Value, SymbolMentions, Linked, DependsOn;
    ExpressionsCovered(cfg, false, s);
    SymbolTypeCovered(cfg, false, s);
    var vis := PromptVisibility(cfg, SymbolOf(cfg, s).prompts);
    var promoted := Promote(vis, NotTristate(cfg, Sym(s)));
    assert CoveredTerm(cfg, Sym(s), false, promoted);
    if SymbolOf(cfg, s).choice >= 0 {
      var inY := Is(ChoiceTri(cfg, SymbolOf(cfg, s).choice), 2);
      assert CoveredTerm(cfg, Sym(s), false, Is(vis, 1));
      assert CoveredTerm(cfg, Sym(s), false, Ite(inY, Lit(0), promoted));
      assert CoveredTerm(cfg, Sym(s), false, Ite(inY, promoted, Lit(0)));
    }
  }

  lemma BoolishCovered(cfg: Config, own: bool, s: nat)
    requires Linked(cfg) && !Settled(cfg, Sym(s))
    ensures CoveredTerm(cfg, Sym(s), own, Boolish(cfg, s))
  {
    ExpressionsCovered(cfg, own, s);
    SymbolTypeCovered(cfg, own, s);
    LiteralsCovered(cfg, own, Sym(s));
    assert CoveredTerm(cfg, Sym(s), own, Is(Value(cfg, SymbolOf(cfg, s).weakRevDep), 2));
  }

  lemma VisibilityReadCovered(cfg: Config, i: Item)
    ensures CoveredTerm(cfg, i, true, Get(Vis(i))) && CoveredTerm(cfg, i, true, Is(Get(Vis(i)), 2))
    ensures CoveredTerm(cfg, i, true, UserTri(i))
  {
    assert CoveredTerm(cfg, i, true, Get(Vis(i))) && CoveredTerm(cfg, i, true, Lit(2));
  }

  lemma TriCovered(cfg: Config, s: nat)
    requires Linked(cfg) && !Settled(cfg, Sym(s))
    ensures CoveredTerm(cfg, Sym(s), true, TriRule(cfg, s))
  {
    hide Value, FirstDefault, SymbolMentions, PromptVisibility;
    ExpressionsCovered(cfg, true, s);
    SymbolTypeCovered(cfg, true, s);
    BoolishCovered(cfg, true, s);
    var i, sym := Sym(s), SymbolOf(cfg, s);
    LiteralsCovered(cfg, true, i);
    var vis := Get(Vis(i));
    VisibilityReadCovered(cfg, i);
    if sym.choice >= 0 {
      assert CoveredTerm(cfg, i, true, Get(Selection(sym.choice)));
      assert CoveredTerm(cfg, i, true, Ite(UserTri(i), Lit(1), Lit(0)));
      assert CoveredTerm(cfg, i, true, Is(Get(Selection(sym.choice)), s + 1));
      assert CoveredTerm(cfg, i, true, Ite(vis, Ite(UserTri(i), Lit(1), Lit(0)), Lit(0)));
    }
    var direct := Value(cfg, sym.directDep);
    var dflt := FirstDefault(cfg, sym.defaults);
    var weak := Value(cfg, sym.weakRevDep);
    assert CoveredTerm(cfg, i, true, Is(weak, 2));
    assert CoveredTerm(cfg, i, true, Ite(direct, Maximum(weak, dflt), dflt));
    var implied := Ite(weak, Ite(direct, Maximum(weak, dflt), dflt), dflt);
    assert CoveredTerm(cfg, i, true, implied);
    var wanted := Ite(vis, User(UserValue(i)), Lit(0));
    assert CoveredTerm(cfg, i, true, wanted);
    var base := Ite(wanted, Minimum(UserTri(i), vis), implied);
    assert CoveredTerm(cfg, i, true, base);
    var rev := Value(cfg, sym.revDep);
    assert CoveredTerm(cfg, i, true, Then(direct, Maximum(rev, base)));
    assert CoveredTerm(cfg, i, true, Ite(rev, Then(direct, Maximum(rev, base)), base));
  }

  lemma AssignableCovered(cfg: Config, s: nat)
    requires Linked(cfg) && !Settled(cfg, Sym(s))
    ensures CoveredTerm(cfg, Sym(s), false, SymbolAssignableRule(cfg, s))
  {
    hide Value, TriRule, Boolish, Linked, PromptVisibility, FirstDefault;
    ExpressionsCovered(cfg, false, s);
    BoolishCovered(cfg, false, s);
    var i, sym := Sym(s), SymbolOf(cfg, s);
    LiteralsCovered(cfg, false, i);
    var vis := Get(Vis(i));
    var rev := Value(cfg, sym.revDep);
    var weakY := Is(Value(cfg, sym.weakRevDep), 2);
    assert CoveredTerm(cfg, i, false, weakY) && CoveredTerm(cfg, i, false, Is(rev, 2))
      && CoveredTerm(cfg, i, false, Is(vis, 2));
    assert CoveredTerm(cfg, i, false, Ite(Boolish(cfg, s), Lit(Y), Lit(MY)));
    assert CoveredTerm(cfg, i, false, Ite(Is(rev, 2), Lit(Y), Ite(Boolish(cfg, s), Lit(Y), Lit(MY))));
    assert CoveredTerm(cfg, i, false, Ite(Boolish(cfg, s), Lit(NY), Lit(NMY)));
    assert CoveredTerm(cfg, i, false, Ite(Is(rev, 2), Lit(Y), Lit(M)));
    assert CoveredTerm(cfg, i, false, Ite(weakY, Lit(NY), Lit(NM)));
    assert CoveredTerm(cfg, i, false, Ite(rev, Ite(Is(rev, 2), Lit(Y), Lit(M)), Ite(weakY, Lit(NY), Lit(NM))));
    var inY := if sym.choice >= 0 then Then(rev, Lit(Y))
               else Ite(rev, Ite(Is(rev, 2), Lit(Y), Ite(Boolish(cfg, s), Lit(Y), Lit(MY))),
                 Ite(Boolish(cfg, s), Lit(NY), Lit(NMY)));
    assert CoveredTerm(cfg, i, false, inY);
    assert CoveredTerm(cfg, i, false,
      Ite(Is(vis, 2), inY, Ite(rev, Ite(Is(rev, 2), Lit(Y), Lit(M)), Ite(weakY, Lit(NY), Lit(NM)))));
  }

  lemma ChoiceRulesCovered(cfg: Config, c: nat)
    requires Linked(cfg)
    ensures CoveredTerm(cfg, Cho(c), false, VisibilityRule(cfg, Cho(c)))
    ensures CoveredTerm(cfg, Cho(c), false, SelectionRule(cfg, c))
    ensures CoveredTerm(cfg, Cho(c), false, ChoiceAssignableRule(cfg, c))
  {
    var ch := ChoiceOf(cfg, c);
    ChoiceTriCovered(cfg, false, Cho(c), c);
    if c < |cfg.choices| { assert ChoiceLinked(ch); }
    PromptsCovered(cfg, false, Cho(c), ch.prompts);
    ChoiceDefaultsCovered(cfg, false, c, ch.defaults, ch.syms);
    MembersCovered(cfg, false, c, ch.syms, DefaultSelection(cfg, ch.defaults, ch.syms));
    assert CoveredTerm(cfg, Cho(c), false, NotTristate(cfg, Cho(c)));
    LiteralsCovered(cfg, false, Cho(c));
    var vis := Get(Vis(Cho(c)));
    assert CoveredTerm(cfg, Cho(c), false, vis) && CoveredTerm(cfg, Cho(c), false, Is(vis, 2));
    var inY := Ite(ChoiceIsBool(cfg, c), Lit(if ch.optional then NY else Y), Lit(if ch.optional then NMY else MY));
    assert CoveredTerm(cfg, Cho(c), false, inY);
    assert CoveredTerm(cfg, Cho(c), false, Ite(Is(vis, 2), inY, Lit(if ch.optional then NM else M)));
  }

  /** In a linked configuration every read of every rule is covered by the dependency sets, but for symbols whose
      values are settled. */
  lemma RulesCovered(cfg: Config, n: Node)
    requires Linked(cfg) && !Settled(cfg, ItemOf(n))
    ensures CoveredTerm(cfg, ItemOf(n), n.Tri?, Rule(cfg, n))
  {
    match ItemOf(n)
    case Sym(s) => VisibilityCovered(cfg, s); TriCovered(cfg, s); AssignableCovered(cfg, s);
    case Cho(c) => ChoiceRulesCovered(cfg, c);
  }
}
