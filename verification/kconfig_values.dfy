/** What the values are: visibility, values of symbols, modes and selections of choices and the assignable sets, said
    in terms of each other, of expression values and of what the user has set. */
module KconfigValues {
  import opened KconfigRules
  import opened KconfigCache
  import P = KconfigParser

  function Min(x: nat, y: nat): nat { if x <= y then x else y }

  function Max(x: nat, y: nat): nat { if x >= y then x else y }

  /** From-scratch values of a configuration on given user values. */
  datatype World = World(cfg: Config, rank: Node -> nat, user: UserState) {
    ghost predicate Ok() {
      Ranked(cfg, rank)
    }

    ghost function Of(n: Node): nat
      requires Ok()
    {
      Fresh(cfg, rank, user, n)
    }

    ghost function Tri(s: nat): nat
      requires Ok()
    {
      Of(KconfigRules.Tri(s))
    }

    ghost function Vis(i: Item): nat
      requires Ok()
    {
      Of(KconfigRules.Vis(i))
    }

    /** MODULES is n. */
    ghost predicate NoModules()
      requires Ok()
    {
      Tri(cfg.modules) == 0
    }

    ghost predicate HasUser(i: Item) {
      UserOf(user, UserValue(i)) != 0
    }

    ghost function UserTri(i: Item): nat {
      if HasUser(i) then UserOf(user, UserValue(i)) - 1 else 0
    }

    /** Choice.type is BOOL. */
    ghost predicate BoolChoice(c: nat)
      requires Ok()
    {
      ChoiceOf(cfg, c).kind == Bool || (ChoiceOf(cfg, c).kind == Tristate && NoModules())
    }

    /** Choice.tri_value */
    ghost function Mode(c: nat): nat
      requires Ok()
    {
      var least := if ChoiceOf(cfg, c).optional then 0 else 1;
      var mode := Min(Max(least, UserTri(Cho(c))), Vis(Cho(c)));
      if mode == 1 && BoolChoice(c) then 2 else mode
    }

    /** Symbol.type is BOOL. */
    ghost predicate BoolSymbol(s: nat)
      requires Ok()
    {
      var sym := SymbolOf(cfg, s);
      || sym.kind == Bool
      || (sym.kind == Tristate && (NoModules() || (sym.choice >= 0 && Mode(sym.choice) == 2)))
    }

    /** What expressions are evaluated with. */
    ghost function Env(): Item -> nat {
      (i: Item) => if !Ok() then 0 else match i case Sym(s) => Tri(s) case Cho(c) => Mode(c)
    }

    /** expr_value */
    ghost function E(e: Expr): nat {
      P.ValueUnder(e, Env())
    }

    /** The value of a term, its nodes having their from-scratch values. */
    ghost function T(t: Term): nat
      requires Ok()
    {
      match t
      case Lit(v) => v
      case Get(n) => Of(n)
      case User(k) => UserOf(user, k)
      case Unary(op, a) => ApplyUnary(op, T(a))
      case Strict(op, a, b) => ApplyStrict(op, T(a), T(b))
      case Lazy(op, a, b) => if Stops(op, T(a)) then T(a) else ApplyLazy(op, T(a), T(b))
      case Ite(c, a, b) => if T(c) != 0 then T(a) else T(b)
    }

    /** The value of a term, part by part. */
    lemma TermParts()
      requires Ok()
      ensures forall v: nat {:trigger T(Lit(v))} :: T(Lit(v)) == v
      ensures forall n {:trigger T(Get(n))} :: T(Get(n)) == Of(n)
      ensures forall k {:trigger T(User(k))} :: T(User(k)) == UserOf(user, k)
      ensures forall op, a {:trigger T(Unary(op, a))} :: T(Unary(op, a)) == ApplyUnary(op, T(a))
      ensures forall op, a, b {:trigger T(Strict(op, a, b))} :: T(Strict(op, a, b)) == ApplyStrict(op, T(a), T(b))
      ensures forall op, a, b {:trigger T(Lazy(op, a, b))} ::
        T(Lazy(op, a, b)) == if Stops(op, T(a)) then T(a) else ApplyLazy(op, T(a), T(b))
      ensures forall c, a, b {:trigger T(Ite(c, a, b))} :: T(Ite(c, a, b)) == if T(c) != 0 then T(a) else T(b)
    {
      hide Ok, Of, ApplyUnary, ApplyStrict, ApplyLazy, Stops;
    }

    lemma {:induction false} TermValue(t: Term, bound: nat)
      requires Ok() && Below(t, rank, bound)
      ensures Eval(cfg, rank, user, t, bound) == T(t)
    {
      hide Ranked, Fresh, ApplyUnary, ApplyStrict, ApplyLazy, Stops;
      match t
      case Lit(_) | Get(_) | User(_) =>
      case Unary(_, a) => TermValue(a, bound);
      case Strict(_, a, b) => TermValue(a, bound); TermValue(b, bound);
      case Lazy(_, a, b) => TermValue(a, bound); TermValue(b, bound);
      case Ite(c, a, b) => TermValue(c, bound); TermValue(a, bound); TermValue(b, bound);
    }

    lemma NodeValue(n: Node)
      requires Ok()
      ensures Of(n) == T(Rule(cfg, n))
    {
      hide Rule;
      TermValue(Rule(cfg, n), rank(n));
    }

    lemma ChoiceTerms(c: nat)
      requires Ok()
      ensures T(ChoiceIsBool(cfg, c)) != 0 <==> BoolChoice(c)
      ensures T(ChoiceTri(cfg, c)) == Mode(c)
    {
      hide T, Ok, ModulesOff;
      TermParts();
      ModulesTerm();
    }

    lemma EnvIs()
      requires Ok()
      ensures forall s: nat :: Env()(Sym(s)) == Tri(s)
      ensures forall c: nat :: Env()(Cho(c)) == Mode(c)
    {
    }

    lemma {:induction false} ExprTerm(e: Expr)
      requires Ok()
      ensures T(Value(cfg, e)) == E(e)
    {
      hide T, Ok;
      TermParts();
      match e
      case Const(_) =>
      case Leaf(Sym(_)) => EnvIs();
      case Leaf(Cho(c)) => ChoiceTerms(c); EnvIs();
      case And(l, r) => ExprTerm(l); ExprTerm(r);
      case Or(l, r) => ExprTerm(l); ExprTerm(r);
      case Not(f) => ExprTerm(f);
      case Rel(_, a, b) => ExprTerm(a); ExprTerm(b);
    }

    lemma ModulesTerm()
      requires Ok()
      ensures T(ModulesOff(cfg)) == if NoModules() then 2 else 0
    {
      hide T, Ok;
      TermParts();
    }

    lemma InYMode(c: nat)
      requires Ok()
      ensures T(Is(ChoiceTri(cfg, c), 2)) == Truth(Mode(c) == 2)
    {
      hide T, Ok, ChoiceTri, Mode;
      TermParts();
      ChoiceTerms(c);
    }

    lemma TypeTerms(s: nat)
      requires Ok()
      ensures T(SymbolIsBool(cfg, s)) != 0 <==> BoolSymbol(s)
    {
      hide T, Ok, ChoiceTri, ModulesOff, Mode;
      TermParts();
      ModulesTerm();
      if SymbolOf(cfg, s).choice >= 0 { InYMode(SymbolOf(cfg, s).choice); }
    }

    // ----- visibility -----

    /** v is the greatest value of the conditions, n if there are none. */
    ghost predicate Greatest(conds: seq<Expr>, v: nat) {
      && (forall k :: 0 <= k < |conds| ==> E(conds[k]) <= v)
      && (v == 0 || exists k :: 0 <= k < |conds| && E(conds[k]) == v)
    }

    lemma {:induction false} PromptTerms(conds: seq<Expr>)
      requires Ok()
      ensures Greatest(conds, T(PromptVisibility(cfg, conds)))
      decreases |conds|
    {
      hide T, Ok, Value;
      TermParts();
      if conds != [] {
        ExprTerm(conds[0]);
        PromptTerms(conds[1..]);
        var v, w := T(PromptVisibility(cfg, conds)), T(PromptVisibility(cfg, conds[1..]));
        assert v == if E(conds[0]) >= w then E(conds[0]) else w;
        if v != 0 && v != E(conds[0]) {
          var k :| 0 <= k < |conds[1..]| && E(conds[1..][k]) == w;
          assert E(conds[k + 1]) == v;
        }
        forall k | 0 <= k < |conds| ensures E(conds[k]) <= v {
          if k > 0 { assert conds[k] == conds[1..][k - 1]; }
        }
      }
    }

    /** A choice: the greatest prompt condition, m counting as y unless the choice is tristate. */
    lemma ChoiceVisibility(c: nat)
      requires Ok() && c < |cfg.choices|
      ensures exists v: nat ::
        Greatest(cfg.choices[c].prompts, v) && Vis(Cho(c)) ==
          if v == 1 && (cfg.choices[c].kind != Tristate || NoModules()) then 2 else v
    {
      hide T, Ok, PromptVisibility, ChoiceIsBool, Greatest;
      TermParts();
      PromptTerms(cfg.choices[c].prompts);
      ChoiceTerms(c);
      NodeValue(KconfigRules.Vis(Cho(c)));
    }

    /** The mode of the choice a symbol is in hides it, although a prompt condition has value v. */
    ghost predicate HiddenByMode(s: nat, v: nat)
      requires Ok() && s < |cfg.syms|
    {
      var sym := cfg.syms[s];
      && sym.choice >= 0
      && if sym.kind == Tristate then v == 1 && Mode(sym.choice) == 2
         else ChoiceOf(cfg, sym.choice).kind == Tristate && Mode(sym.choice) != 2
    }

    /** A symbol: the greatest prompt condition; but a member of a choice that cannot be m is invisible unless the
        choice is in y mode, and one that is visible at m is invisible in y mode. m counts as y unless the symbol's
        type is tristate. */
    lemma SymbolVisibility(s: nat)
      requires Ok() && s < |cfg.syms|
      ensures exists v: nat ::
        Greatest(cfg.syms[s].prompts, v) && Vis(Sym(s)) ==
          if HiddenByMode(s, v) then 0
          else if v == 1 && (cfg.syms[s].kind != Tristate || BoolSymbol(s)) then 2
          else v
    {
      hide T, Ok, PromptVisibility, SymbolIsBool, ChoiceTri, Greatest, Mode, BoolSymbol;
      TermParts();
      PromptTerms(cfg.syms[s].prompts);
      TypeTerms(s);
      NodeValue(KconfigRules.Vis(Sym(s)));
      if cfg.syms[s].choice >= 0 { InYMode(cfg.syms[s].choice); }
    }

    // ----- values of symbols -----

    /** What becomes of a value once it is raised by selects: m is y for bool symbols and those implied to y. */
    ghost function Settle(s: nat, v: nat): (r: nat)
      requires Ok()
      ensures r >= v && r >= E(SymbolOf(cfg, s).revDep)
    {
      var sym := SymbolOf(cfg, s);
      var raised := Max(v, E(sym.revDep));
      if raised == 1 && (BoolSymbol(s) || E(sym.weakRevDep) == 2) then 2 else raised
    }

    /** Default i is the first with a true condition; none has one when i is the number of defaults. */
    ghost predicate FirstTrue(defaults: seq<Default>, i: nat) {
      && i <= |defaults| && (i < |defaults| ==> E(defaults[i].cond) != 0)
      && forall j :: 0 <= j < i ==> E(defaults[j].cond) == 0
    }

    ghost function DefaultValue(defaults: seq<Default>, i: nat): nat
      requires i <= |defaults|
    {
      if i == |defaults| then 0 else Min(E(defaults[i].value), E(defaults[i].cond))
    }

    lemma {:induction false} DefaultTerms(defaults: seq<Default>, i: nat)
      requires Ok() && FirstTrue(defaults, i)
      ensures T(FirstDefault(cfg, defaults)) == DefaultValue(defaults, i)
      decreases |defaults|
    {
      hide T, Ok, Value, E;
      TermParts();
      if defaults != [] {
        ExprTerm(defaults[0].cond);
        ExprTerm(defaults[0].value);
        if i > 0 {
          forall j | 0 <= j < i - 1 ensures E(defaults[1..][j].cond) == 0 {
            assert defaults[1..][j] == defaults[j + 1];
          }
          DefaultTerms(defaults[1..], i - 1);
        }
      }
    }

    /** What an imply makes of a default. */
    ghost function Implied(s: nat, dflt: nat): nat {
      var sym := SymbolOf(cfg, s);
      if E(sym.weakRevDep) != 0 && E(sym.directDep) != 0 then Max(E(sym.weakRevDep), dflt) else dflt
    }

    lemma BoolishTerm(s: nat)
      requires Ok()
      ensures T(Boolish(cfg, s)) != 0 <==> BoolSymbol(s) || E(SymbolOf(cfg, s).weakRevDep) == 2
    {
      hide T, Ok, Value, SymbolIsBool, BoolSymbol, E;
      TermParts();
      ExprTerm(SymbolOf(cfg, s).weakRevDep);
      TypeTerms(s);
    }

    /** A symbol outside choices: what is asked for, then selects and promotion. */
    lemma PlainValue(s: nat)
      requires Ok() && s < |cfg.syms| && IsLogic(cfg.syms[s].kind) && cfg.syms[s].choice < 0
      ensures Tri(s) == Settle(s,
        if Vis(Sym(s)) != 0 && HasUser(Sym(s)) then Min(UserTri(Sym(s)), Vis(Sym(s)))
        else Implied(s, T(FirstDefault(cfg, cfg.syms[s].defaults))))
    {
      hide T, Ok, Value, FirstDefault, Boolish, BoolSymbol, E;
      var sym := cfg.syms[s];
      TermParts();
      ExprTerm(sym.directDep);
      ExprTerm(sym.weakRevDep);
      ExprTerm(sym.revDep);
      BoolishTerm(s);
      NodeValue(KconfigRules.Tri(s));
    }

    /** A visible symbol the user has set: the lesser of that and its visibility. */
    lemma UserValueCut(s: nat)
      requires Ok() && s < |cfg.syms| && IsLogic(cfg.syms[s].kind) && cfg.syms[s].choice < 0
      requires Vis(Sym(s)) != 0 && HasUser(Sym(s))
      ensures Tri(s) == Settle(s, Min(UserTri(Sym(s)), Vis(Sym(s))))
    {
      PlainValue(s);
    }

    /** Any other: the first default with a true condition, cut to the condition; raised by an imply while the direct
        dependency holds. */
    lemma DefaultUsed(s: nat, i: nat)
      requires Ok() && s < |cfg.syms| && IsLogic(cfg.syms[s].kind) && cfg.syms[s].choice < 0
      requires Vis(Sym(s)) == 0 || !HasUser(Sym(s))
      requires FirstTrue(cfg.syms[s].defaults, i)
      ensures Tri(s) == Settle(s, Implied(s, DefaultValue(cfg.syms[s].defaults, i)))
    {
      PlainValue(s);
      DefaultTerms(cfg.syms[s].defaults, i);
    }

    /** A select is never undercut. */
    lemma SelectedAtLeast(s: nat)
      requires Ok() && s < |cfg.syms| && IsLogic(cfg.syms[s].kind) && cfg.syms[s].choice < 0
      ensures Tri(s) >= E(cfg.syms[s].revDep)
    {
      PlainValue(s);
    }

    /** A symbol in a choice: where it is visible at y, y exactly if it is selected; at m, m exactly if the user has
        set it to m or y; else n. */
    lemma MemberValue(s: nat)
      requires Ok() && s < |cfg.syms| && IsLogic(cfg.syms[s].kind) && cfg.syms[s].choice >= 0
      ensures Tri(s) ==
        if Vis(Sym(s)) == 2 then (if Of(Selection(cfg.syms[s].choice)) == s + 1 then 2 else 0)
        else if Vis(Sym(s)) != 0 && UserTri(Sym(s)) != 0 then 1
        else 0
    {
      hide T, Ok;
      TermParts();
      NodeValue(KconfigRules.Tri(s));
    }

    /** Symbols that are neither bool nor tristate, and undefined ones, are n. */
    lemma OtherValue(s: nat)
      requires Ok() && (s < |cfg.syms| ==> !IsLogic(cfg.syms[s].kind))
      ensures Tri(s) == 0
    {
      hide T, Ok;
      TermParts();
      NodeValue(KconfigRules.Tri(s));
    }

    // ----- choices -----

    /** The mode is never above the visibility, and never below the least mode while the choice is visible. */
    lemma ModeBetween(c: nat)
      requires Ok() && c < |cfg.choices|
      ensures Mode(c) <= Vis(Cho(c))
      ensures Vis(Cho(c)) != 0 && !cfg.choices[c].optional ==> Mode(c) >= 1
      ensures HasUser(Cho(c)) && 1 <= UserTri(Cho(c)) <= Vis(Cho(c)) && !BoolChoice(c) ==> Mode(c) == UserTri(Cho(c))
    {
      ChoiceVisibility(c);
    }

    /** Member k is the first visible one; none is when k is their number. */
    ghost predicate FirstShown(syms: seq<nat>, k: nat)
      requires Ok()
    {
      && k <= |syms| && (k < |syms| ==> Vis(Sym(syms[k])) != 0)
      && forall j :: 0 <= j < k ==> Vis(Sym(syms[j])) == 0
    }

    /** Default j is the first with a true condition and a visible symbol; none is when j is their number. */
    ghost predicate FirstDefaultShown(defaults: seq<ChoiceDefault>, j: nat)
      requires Ok()
    {
      && j <= |defaults| && (j < |defaults| ==> DefaultShown(defaults[j]))
      && forall i :: 0 <= i < j ==> !DefaultShown(defaults[i])
    }

    ghost predicate DefaultShown(d: ChoiceDefault)
      requires Ok()
    {
      E(d.cond) != 0 && Vis(Sym(d.sym)) != 0
    }

    lemma {:induction false} FirstVisibleTerm(syms: seq<nat>, k: nat)
      requires Ok() && FirstShown(syms, k)
      ensures T(FirstVisible(syms)) == if k == |syms| then 0 else syms[k] + 1
      decreases |syms|
    {
      hide T, Ok;
      TermParts();
      if k > 0 {
        forall j | 0 <= j < k - 1 ensures Vis(Sym(syms[1..][j])) == 0 {
          assert syms[1..][j] == syms[j + 1];
        }
        FirstVisibleTerm(syms[1..], k - 1);
      }
    }

    lemma {:induction false} DefaultSelectionTerm(defaults: seq<ChoiceDefault>, syms: seq<nat>, j: nat)
      requires Ok() && FirstDefaultShown(defaults, j)
      ensures T(DefaultSelection(cfg, defaults, syms)) ==
        if j == |defaults| then T(FirstVisible(syms)) else defaults[j].sym + 1
      decreases |defaults|
    {
      hide T, Ok, Value, E, FirstVisible;
      TermParts();
      if defaults != [] {
        ExprTerm(defaults[0].cond);
        if j > 0 {
          forall i | 0 <= i < j - 1 ensures !DefaultShown(defaults[1..][i]) {
            assert defaults[1..][i] == defaults[i + 1];
          }
          DefaultSelectionTerm(defaults[1..], syms, j - 1);
        }
      }
    }

    /** The user's selection counts while it is a visible member. */
    ghost predicate UserSelects(c: nat, syms: seq<nat>)
      requires Ok()
    {
      var u := UserOf(user, UserSelection(c));
      u > 0 && u - 1 in syms && Vis(Sym(u - 1)) != 0
    }

    lemma {:induction false} UserSelectedTerm(c: nat, syms: seq<nat>, otherwise: Term)
      requires Ok()
      ensures T(UserSelected(c, syms, otherwise)) ==
        if UserSelects(c, syms) then UserOf(user, UserSelection(c)) else T(otherwise)
      decreases |syms|
    {
      hide T, Ok;
      TermParts();
      if syms != [] {
        UserSelectedTerm(c, syms[1..], otherwise);
        assert forall m :: m in syms <==> m == syms[0] || m in syms[1..];
      }
    }

    /** The selection: in y mode, what the user has selected if that is a visible member, else the first default that
        holds and is visible, else the first visible member; 0 for none. */
    lemma SelectionOf(c: nat, j: nat, k: nat)
      requires Ok() && c < |cfg.choices|
      requires FirstDefaultShown(cfg.choices[c].defaults, j) && FirstShown(cfg.choices[c].syms, k)
      ensures var ch := cfg.choices[c];
        Of(Selection(c)) ==
          if Mode(c) != 2 then 0
          else if UserSelects(c, ch.syms) then UserOf(user, UserSelection(c))
          else if j < |ch.defaults| then ch.defaults[j].sym + 1
          else if k < |ch.syms| then ch.syms[k] + 1
          else 0
    {
      hide T, Ok, ChoiceTri, DefaultSelection, FirstVisible, UserSelected, Mode, DefaultShown;
      var ch := cfg.choices[c];
      TermParts();
      NodeValue(Selection(c));
      InYMode(c);
      DefaultSelectionTerm(ch.defaults, ch.syms, j);
      FirstVisibleTerm(ch.syms, k);
      UserSelectedTerm(c, ch.syms, DefaultSelection(cfg, ch.defaults, ch.syms));
    }

    /** At most one member of a choice is y, and in y mode the selected one is. */
    lemma OneMember(s: nat, t: nat)
      requires Ok() && s < |cfg.syms| && t < |cfg.syms| && IsLogic(cfg.syms[s].kind) && IsLogic(cfg.syms[t].kind)
      requires cfg.syms[s].choice == cfg.syms[t].choice >= 0
      ensures Tri(s) == 2 && Tri(t) == 2 ==> s == t
      ensures Mode(cfg.syms[s].choice) == 2 && Vis(Sym(s)) <= 2 ==>
        (Tri(s) == 2 <==> Vis(Sym(s)) != 0 && Of(Selection(cfg.syms[s].choice)) == s + 1)
    {
      MemberValue(s);
      MemberValue(t);
      SymbolVisibility(s);
    }
  }
}
