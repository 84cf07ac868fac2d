/** Lazily cached Kconfig values with early-stopping recursive invalidation: after any sequence of
    assignments and reads, every cached value is the one a from-scratch evaluation would give. */
module KconfigCache {
  import opened KconfigRules
  import opened Sets

  datatype Option<T> = None | Some(value: T)

  type Cache = map<Node, nat>
  type UserState = map<UserKey, nat>

  function UserOf(user: UserState, k: UserKey): nat {
    if k in user then user[k] else 0
  }

  // ----- from-scratch evaluation -----

  /** Every node the term can read ranks below the bound. */
  predicate Below(t: Term, rank: Node -> nat, bound: nat) {
    match t
    case Lit(_) => true
    case Get(n) => rank(n) < bound
    case User(_) => true
    case Unary(_, a) => Below(a, rank, bound)
    case Strict(_, a, b) => Below(a, rank, bound) && Below(b, rank, bound)
    case Lazy(_, a, b) => Below(a, rank, bound) && Below(b, rank, bound)
    case Ite(c, a, b) => Below(c, rank, bound) && Below(a, rank, bound) && Below(b, rank, bound)
  }

  lemma BelowParts(rank: Node -> nat, bound: nat)
    ensures forall v: nat {:trigger Below(Lit(v), rank, bound)} :: Below(Lit(v), rank, bound)
    ensures forall n {:trigger Below(Get(n), rank, bound)} :: Below(Get(n), rank, bound) <==> rank(n) < bound
    ensures forall k {:trigger Below(User(k), rank, bound)} :: Below(User(k), rank, bound)
    ensures forall op, a {:trigger Below(Unary(op, a), rank, bound)} ::
      Below(Unary(op, a), rank, bound) <==> Below(a, rank, bound)
    ensures forall op, a, b {:trigger Below(Strict(op, a, b), rank, bound)} ::
      Below(Strict(op, a, b), rank, bound) <==> Below(a, rank, bound) && Below(b, rank, bound)
    ensures forall op, a, b {:trigger Below(Lazy(op, a, b), rank, bound)} ::
      Below(Lazy(op, a, b), rank, bound) <==> Below(a, rank, bound) && Below(b, rank, bound)
    ensures forall c, a, b {:trigger Below(Ite(c, a, b), rank, bound)} ::
      Below(Ite(c, a, b), rank, bound) <==> Below(c, rank, bound) && Below(a, rank, bound) && Below(b, rank, bound)
  {
  }

  /** Attributes can be ordered so that each reads only lower ones, so evaluation ends. Loading does not guarantee
      it: KconfigRank says exactly when it holds. */
  ghost predicate Ranked(cfg: Config, rank: Node -> nat) {
    forall n {:trigger Rule(cfg, n)} :: Below(Rule(cfg, n), rank, rank(n))
  }

  ghost function Fresh(cfg: Config, rank: Node -> nat, user: UserState, n: Node): nat
    requires Ranked(cfg, rank)
    decreases rank(n), 1
  {
    Eval(cfg, rank, user, Rule(cfg, n), rank(n))
  }

  ghost function Eval(cfg: Config, rank: Node -> nat, user: UserState, t: Term, bound: nat): nat
    requires Ranked(cfg, rank) && Below(t, rank, bound)
    decreases bound, 0, t
  {
    match t
    case Lit(v) => v
    case Get(n) => Fresh(cfg, rank, user, n)
    case User(k) => UserOf(user, k)
    case Unary(op, a) => ApplyUnary(op, Eval(cfg, rank, user, a, bound))
    case Strict(op, a, b) => ApplyStrict(op, Eval(cfg, rank, user, a, bound), Eval(cfg, rank, user, b, bound))
    case Lazy(op, a, b) =>
      var x := Eval(cfg, rank, user, a, bound);
      if Stops(op, x) then x else ApplyLazy(op, x, Eval(cfg, rank, user, b, bound))
    case Ite(c, a, b) =>
      if Eval(cfg, rank, user, c, bound) != 0 then Eval(cfg, rank, user, a, bound) else Eval(cfg, rank, user, b, bound)
  }

  // ----- evaluation on what is cached -----

  /** The value of a term when every node it actually reads is cached, None otherwise. */
  function Run(t: Term, cache: Cache, user: UserState): Option<nat> {
    match t
    case Lit(v) => Some(v)
    case Get(n) => if n in cache then Some(cache[n]) else None
    case User(k) => Some(UserOf(user, k))
    case Unary(op, a) =>
      (match Run(a, cache, user) case None => None case Some(x) => Some(ApplyUnary(op, x)))
    case Strict(op, a, b) =>
      (match (Run(a, cache, user), Run(b, cache, user))
       case (Some(x), Some(y)) => Some(ApplyStrict(op, x, y))
       case _ => None)
    case Lazy(op, a, b) =>
      (match Run(a, cache, user)
       case None => None
       case Some(x) =>
         if Stops(op, x) then Some(x) else
         match Run(b, cache, user) case None => None case Some(y) => Some(ApplyLazy(op, x, y)))
    case Ite(c, a, b) =>
      (match Run(c, cache, user)
       case None => None
       case Some(x) => if x != 0 then Run(a, cache, user) else Run(b, cache, user))
  }

  lemma {:induction false} RunGrows(t: Term, cache: Cache, more: Cache, user: UserState)
    requires Run(t, cache, user).Some? && forall n :: n in cache ==> n in more && more[n] == cache[n]
    ensures Run(t, more, user) == Run(t, cache, user)
  {
    match t
    case Lit(_) | Get(_) | User(_) =>
    case Unary(_, a) => RunGrows(a, cache, more, user);
    case Strict(_, a, b) => RunGrows(a, cache, more, user); RunGrows(b, cache, more, user);
    case Lazy(_, a, b) =>
      RunGrows(a, cache, more, user);
      if Run(b, cache, user).Some? { RunGrows(b, cache, more, user); }
    case Ite(c, a, b) =>
      RunGrows(c, cache, more, user);
      if Run(c, cache, user).value != 0 { RunGrows(a, cache, more, user); } else { RunGrows(b, cache, more, user); }
  }

  /** Dropping cache entries and changing user values the term's covered reads do not see changes nothing. */
  ghost predicate SameReads(cfg: Config, i: Item, own: bool, cache: Cache, user: UserState, cache': Cache,
      user': UserState) {
    && (forall n :: n in cache && Covered(cfg, i, n) ==> n in cache' && cache'[n] == cache[n])
    && (forall k :: CoveredKey(cfg, i, own, k) ==> UserOf(user', k) == UserOf(user, k))
  }

  lemma LeafUnaffected(cfg: Config, i: Item, own: bool, t: Term, cache: Cache, user: UserState, cache': Cache,
      user': UserState)
    requires t.Lit? || t.Get? || t.User?
    requires Run(t, cache, user).Some? && CoveredTerm(cfg, i, own, t)
      && SameReads(cfg, i, own, cache, user, cache', user')
    ensures Run(t, cache', user') == Run(t, cache, user)
  {
  }

  lemma {:induction false} RunUnaffected(cfg: Config, i: Item, own: bool, t: Term, cache: Cache, user: UserState,
      cache': Cache, user': UserState)
    requires Run(t, cache, user).Some? && CoveredTerm(cfg, i, own, t)
      && SameReads(cfg, i, own, cache, user, cache', user')
    ensures Run(t, cache', user') == Run(t, cache, user)
  {
    hide SameReads, ApplyStrict, ApplyLazy, ApplyUnary, Stops;
    match t
    case Lit(_) | Get(_) | User(_) => LeafUnaffected(cfg, i, own, t, cache, user, cache', user');
    case Unary(_, a) => RunUnaffected(cfg, i, own, a, cache, user, cache', user');
    case Strict(_, a, b) =>
      RunUnaffected(cfg, i, own, a, cache, user, cache', user');
      RunUnaffected(cfg, i, own, b, cache, user, cache', user');
    case Lazy(_, a, b) =>
      RunUnaffected(cfg, i, own, a, cache, user, cache', user');
      if Run(b, cache, user).Some? { RunUnaffected(cfg, i, own, b, cache, user, cache', user'); }
    case Ite(c, a, b) =>
      RunUnaffected(cfg, i, own, c, cache, user, cache', user');
      if Run(c, cache, user).value != 0 {
        RunUnaffected(cfg, i, own, a, cache, user, cache', user');
      } else {
        RunUnaffected(cfg, i, own, b, cache, user, cache', user');
      }
  }

  /** Where the cached values a term reads are right, so is its value. */
  lemma {:induction false} RunIsEval(cfg: Config, rank: Node -> nat, t: Term, bound: nat, cache: Cache, user: UserState)
    requires Ranked(cfg, rank) && Below(t, rank, bound) && Run(t, cache, user).Some?
    requires forall n :: n in cache && rank(n) < bound ==> cache[n] == Fresh(cfg, rank, user, n)
    ensures Run(t, cache, user) == Some(Eval(cfg, rank, user, t, bound))
  {
    match t
    case Lit(_) | Get(_) | User(_) =>
    case Unary(_, a) => RunIsEval(cfg, rank, a, bound, cache, user);
    case Strict(_, a, b) => RunIsEval(cfg, rank, a, bound, cache, user); RunIsEval(cfg, rank, b, bound, cache, user);
    case Lazy(_, a, b) =>
      RunIsEval(cfg, rank, a, bound, cache, user);
      if Run(b, cache, user).Some? { RunIsEval(cfg, rank, b, bound, cache, user); }
    case Ite(c, a, b) =>
      RunIsEval(cfg, rank, c, bound, cache, user);
      if Run(c, cache, user).value != 0 {
        RunIsEval(cfg, rank, a, bound, cache, user);
      } else {
        RunIsEval(cfg, rank, b, bound, cache, user);
      }
  }

  // ----- the cache invariant -----

  predicate IsConstant(cfg: Config, n: Node) {
    Rule(cfg, n).Lit?
  }

  /** A cached value is what its rule gives on the cached values it read, and its item's visibility is cached
      too, because every rule that is not constant reads it. Settled values are n. */
  predicate EntryOk(cfg: Config, cache: Cache, user: UserState, n: Node)
    requires n in cache
  {
    if Settled(cfg, ItemOf(n)) then cache[n] == 0
    else Run(Rule(cfg, n), cache, user) == Some(cache[n]) && (IsConstant(cfg, n) || Vis(ItemOf(n)) in cache)
  }

  ghost predicate CacheOk(cfg: Config, cache: Cache, user: UserState) {
    forall n :: n in cache ==> EntryOk(cfg, cache, user, n)
  }

  /** Coherence: every cached value is the from-scratch value on the current user values. */
  lemma {:induction false} CachedIsFresh(cfg: Config, rank: Node -> nat, cache: Cache, user: UserState, n: Node)
    requires Ranked(cfg, rank) && CacheOk(cfg, cache, user) && n in cache
    ensures cache[n] == Fresh(cfg, rank, user, n)
    decreases rank(n)
  {
    forall m | m in cache && rank(m) < rank(n) ensures cache[m] == Fresh(cfg, rank, user, m) {
      CachedIsFresh(cfg, rank, cache, user, m);
    }
    assert EntryOk(cfg, cache, user, n);
    assert Below(Rule(cfg, n), rank, rank(n));
    if Settled(cfg, ItemOf(n)) {
      SettledIsFresh(cfg, rank, user, n);
    } else {
      RunIsEval(cfg, rank, Rule(cfg, n), rank(n), cache, user);
    }
  }

  // ----- settled symbols -----

  lemma {:induction false} NoPrompts(cfg: Config, prompts: seq<Expr>, cache: Cache, user: UserState)
    requires forall k :: 0 <= k < |prompts| ==> prompts[k] == Const(0)
    ensures Run(PromptVisibility(cfg, prompts), cache, user) == Some(0)
  {
    if prompts != [] {
      NoPrompts(cfg, prompts[1..], cache, user);
    }
  }

  /** A settled symbol has all values n, whatever is cached for others. */
  lemma SettledRuns(cfg: Config, cache: Cache, user: UserState, n: Node)
    requires Settled(cfg, ItemOf(n)) && (Vis(ItemOf(n)) in cache ==> cache[Vis(ItemOf(n))] == 0)
    ensures Run(Rule(cfg, n), cache, user) == None || Run(Rule(cfg, n), cache, user) == Some(0)
  {
    var i := ItemOf(n);
    var sym := SymbolOf(cfg, i.s);
    match n
    case Vis(_) =>
      hide ChoiceTri, SymbolIsBool;
      NoPrompts(cfg, sym.prompts, cache, user);
      var vis := PromptVisibility(cfg, sym.prompts);
      var promoted := Promote(vis, NotTristate(cfg, i));
      var inY := Is(ChoiceTri(cfg, sym.choice), 2);
      hide PromptVisibility;
      assert Run(promoted, cache, user) == Some(0) && Run(Is(vis, 1), cache, user) == Some(0);
      assert Run(Ite(Is(vis, 1), Ite(inY, Lit(0), promoted), promoted), cache, user) == Some(0);
      var within := Ite(inY, promoted, Lit(0));
      assert Run(within, cache, user) == None || Run(within, cache, user) == Some(0);
    case Tri(_) =>
      var vis := Get(Vis(i));
      assert Run(vis, cache, user) == None || Run(vis, cache, user) == Some(0);
      assert Run(Is(vis, 2), cache, user) == None || Run(Is(vis, 2), cache, user) == Some(0);
      var rest := Ite(vis, Ite(UserTri(i), Lit(1), Lit(0)), Lit(0));
      assert Run(rest, cache, user) == None || Run(rest, cache, user) == Some(0);
    case Assignable(_) =>
      hide Value, Boolish;
      assert Rule(cfg, n).Lit? || (Rule(cfg, n).Ite? && Rule(cfg, n).c == Get(Vis(i)) && Rule(cfg, n).e == Lit(0));
  }

  lemma {:induction false} NoPromptsEval(cfg: Config, rank: Node -> nat, prompts: seq<Expr>, user: UserState,
      bound: nat)
    requires Ranked(cfg, rank) && Below(PromptVisibility(cfg, prompts), rank, bound)
    requires forall k :: 0 <= k < |prompts| ==> prompts[k] == Const(0)
    ensures Eval(cfg, rank, user, PromptVisibility(cfg, prompts), bound) == 0
  {
    if prompts != [] {
      NoPromptsEval(cfg, rank, prompts[1..], user, bound);
    }
  }

  /** The forms of the visibility of a choice member. */
  predicate MemberVisibility(t: Term, vis: Term, when: Term, inY: Term) {
    var promoted := Promote(vis, when);
    || t == promoted
    || t == Ite(Is(vis, 1), Ite(inY, Lit(0), promoted), promoted)
    || t == Then(vis, Ite(inY, promoted, Lit(0)))
  }

  lemma HiddenBelow(rank: Node -> nat, vis: Term, when: Term, inY: Term, t: Term, bound: nat)
    requires MemberVisibility(t, vis, when, inY) && Below(t, rank, bound)
    ensures Below(vis, rank, bound)
  {
    var promoted := Promote(vis, when);
    if t == Ite(Is(vis, 1), Ite(inY, Lit(0), promoted), promoted) {
      assert Below(promoted, rank, bound);
    }
  }

  lemma PromotedEval(cfg: Config, rank: Node -> nat, user: UserState, vis: Term, when: Term, bound: nat)
    requires Ranked(cfg, rank) && Below(Promote(vis, when), rank, bound)
    ensures Below(vis, rank, bound)
    ensures Eval(cfg, rank, user, vis, bound) == 0 ==> Eval(cfg, rank, user, Promote(vis, when), bound) == 0
  {
    hide Ranked;
  }

  /** A condition or both branches evaluate to n. */
  lemma IteEval(cfg: Config, rank: Node -> nat, user: UserState, c: Term, a: Term, b: Term, bound: nat)
    requires Ranked(cfg, rank) && Below(Ite(c, a, b), rank, bound)
    ensures Below(c, rank, bound) && Below(a, rank, bound) && Below(b, rank, bound)
    ensures Eval(cfg, rank, user, Ite(c, a, b), bound) == 0 <==>
      if Eval(cfg, rank, user, c, bound) != 0 then Eval(cfg, rank, user, a, bound) == 0
      else Eval(cfg, rank, user, b, bound) == 0
  {
    hide Ranked;
  }

  lemma SecondEval(cfg: Config, rank: Node -> nat, user: UserState, a: Term, b: Term, v: nat, bound: nat)
    requires Ranked(cfg, rank)
    ensures Below(Then(a, b), rank, bound) ==>
      Below(b, rank, bound) && Eval(cfg, rank, user, Then(a, b), bound) == Eval(cfg, rank, user, b, bound)
    ensures Below(Is(a, v), rank, bound) ==>
      Below(a, rank, bound)
      && Eval(cfg, rank, user, Is(a, v), bound) == if Eval(cfg, rank, user, a, bound) == v then 2 else 0
  {
    hide Ranked;
    if Below(Is(a, v), rank, bound) {
      assert Eval(cfg, rank, user, Lit(v), bound) == v;
    }
  }

  lemma HiddenEval(cfg: Config, rank: Node -> nat, user: UserState, vis: Term, when: Term, inY: Term, t: Term,
      bound: nat)
    requires MemberVisibility(t, vis, when, inY) && Ranked(cfg, rank)
    requires Below(t, rank, bound) && Below(vis, rank, bound) && Eval(cfg, rank, user, vis, bound) == 0
    ensures Eval(cfg, rank, user, t, bound) == 0
  {
    hide Ranked, Eval, Promote, Then, Is;
    var promoted, within := Promote(vis, when), Ite(inY, Promote(vis, when), Lit(0));
    if t == promoted {
    } else if t == Then(vis, within) {
      SecondEval(cfg, rank, user, vis, within, 0, bound);
      IteEval(cfg, rank, user, inY, promoted, Lit(0), bound);
      LitEval(cfg, rank, user, 0, bound);
    } else {
      IteEval(cfg, rank, user, Is(vis, 1), Ite(inY, Lit(0), promoted), promoted, bound);
      SecondEval(cfg, rank, user, vis, vis, 1, bound);
    }
    PromotedEval(cfg, rank, user, vis, when, bound);
  }

  lemma LitEval(cfg: Config, rank: Node -> nat, user: UserState, v: nat, bound: nat)
    requires Ranked(cfg, rank)
    ensures Eval(cfg, rank, user, Lit(v), bound) == v
  {
  }

  lemma SettledIsFresh(cfg: Config, rank: Node -> nat, user: UserState, n: Node)
    requires Ranked(cfg, rank) && Settled(cfg, ItemOf(n))
    ensures Fresh(cfg, rank, user, n) == 0
    decreases if n.Vis? then 0 else 1
  {
    hide ChoiceTri, SymbolIsBool, PromptVisibility, NotTristate, Value, Boolish;
    var i := ItemOf(n);
    var sym := SymbolOf(cfg, i.s);
    var bound := rank(n);
    assert Below(Rule(cfg, n), rank, bound);
    match n
    case Vis(_) =>
      var vis, when := PromptVisibility(cfg, sym.prompts), NotTristate(cfg, i);
      var inY := Is(ChoiceTri(cfg, sym.choice), 2);
      HiddenBelow(rank, vis, when, inY, Rule(cfg, n), bound);
      NoPromptsEval(cfg, rank, sym.prompts, user, bound);
      HiddenEval(cfg, rank, user, vis, when, inY, Rule(cfg, n), bound);
    case Tri(_) =>
      SettledIsFresh(cfg, rank, user, Vis(i));
      var vis := Get(Vis(i));
      if IsLogic(sym.kind) {
        assert Below(Is(vis, 2), rank, bound) && Below(vis, rank, bound);
        assert Eval(cfg, rank, user, Is(vis, 2), bound) == 0;
        var rest := Ite(vis, Ite(UserTri(i), Lit(1), Lit(0)), Lit(0));
        assert Eval(cfg, rank, user, rest, bound) == 0;
      }
    case Assignable(_) =>
      SettledIsFresh(cfg, rank, user, Vis(i));
      assert Rule(cfg, n).Lit? || (Rule(cfg, n).Ite? && Rule(cfg, n).c == Get(Vis(i)) && Rule(cfg, n).e == Lit(0));
      if Rule(cfg, n).Ite? {
        assert Eval(cfg, rank, user, Get(Vis(i)), bound) == 0;
        assert Eval(cfg, rank, user, Lit(0), bound) == 0;
      }
  }

  /** A rule that is not constant reads the visibility of its own item. */
  lemma RuleReadsVisibility(cfg: Config, n: Node, cache: Cache, user: UserState)
    requires Run(Rule(cfg, n), cache, user).Some? && !IsConstant(cfg, n)
    ensures n.Vis? || Vis(ItemOf(n)) in cache
  {
    match n
    case Vis(_) =>
    case Selection(c) => ChoiceReadsVisibility(cfg, c, cache, user);
    case Assignable(i) =>
      hide Value, Boolish, ChoiceIsBool;
      assert Rule(cfg, n).Ite? && Rule(cfg, n).c == Get(Vis(i));
    case Tri(s) =>
      var sym := SymbolOf(cfg, s);
      var vis := Get(Vis(Sym(s)));
      if sym.choice >= 0 {
        assert Rule(cfg, n).Ite? && Rule(cfg, n).c == Is(vis, 2);
        assert Run(Is(vis, 2), cache, user).Some?;
        assert Run(vis, cache, user).Some?;
      } else {
        var direct := Value(cfg, sym.directDep);
        var dflt := FirstDefault(cfg, sym.defaults);
        var weak := Value(cfg, sym.weakRevDep);
        var implied := Ite(weak, Ite(direct, Maximum(weak, dflt), dflt), dflt);
        var wanted := Ite(vis, User(UserValue(Sym(s))), Lit(0));
        var base := Ite(wanted, Minimum(UserTri(Sym(s)), vis), implied);
        var rev := Value(cfg, sym.revDep);
        var selected := Ite(rev, Then(direct, Maximum(rev, base)), base);
        hide Value, FirstDefault, Boolish;
        assert Rule(cfg, n) == Promote(selected, Boolish(cfg, s));
        assert Run(selected, cache, user).Some?;
        if Run(rev, cache, user).value != 0 {
          assert Run(Then(direct, Maximum(rev, base)), cache, user).Some?;
          assert Run(Maximum(rev, base), cache, user).Some?;
        }
        assert Run(base, cache, user).Some?;
        assert Run(wanted, cache, user).Some?;
        assert Run(vis, cache, user).Some?;
      }
  }

  lemma ChoiceReadsVisibility(cfg: Config, c: nat, cache: Cache, user: UserState)
    requires Run(SelectionRule(cfg, c), cache, user).Some?
    ensures Vis(Cho(c)) in cache
  {
    hide UserSelected, DefaultSelection, ChoiceIsBool;
    var least := Lit(if ChoiceOf(cfg, c).optional then 0 else 1);
    var wanted := Ite(User(UserValue(Cho(c))), Maximum(least, UserTri(Cho(c))), least);
    assert SelectionRule(cfg, c).Ite? && SelectionRule(cfg, c).c == Is(ChoiceTri(cfg, c), 2);
    assert Run(Is(ChoiceTri(cfg, c), 2), cache, user).Some?;
    assert Run(ChoiceTri(cfg, c), cache, user).Some?;
    assert ChoiceTri(cfg, c).Lazy? && ChoiceTri(cfg, c).a == Minimum(wanted, Get(Vis(Cho(c))));
    assert Run(Minimum(wanted, Get(Vis(Cho(c)))), cache, user).Some?;
    assert Run(Get(Vis(Cho(c))), cache, user).Some?;
  }

  // ----- invalidation -----

  function Keep(cache: Cache, dropped: set<Item>): Cache {
    cache - (set n | n in cache && ItemOf(n) in dropped)
  }

  /** No dependent of a dropped item still has a cached visibility; dropping MODULES drops everything. */
  ghost predicate Closed(cfg: Config, dropped: set<Item>, cache: Cache) {
    && (forall j, k :: j in dropped && k in Dependents(cfg, j) ==> Vis(k) !in cache)
    && (Sym(cfg.modules) in dropped ==> Items(cfg) <= dropped)
  }

  /** A user value may change if its item was dropped, or is a symbol without cached visibility or settled. */
  ghost predicate ChangeOk(cfg: Config, user: UserState, user': UserState, dropped: set<Item>, cache: Cache) {
    forall k :: UserOf(user, k) != UserOf(user', k) ==>
      KeyItem(k) in dropped || (KeyItem(k).Sym? && (Vis(KeyItem(k)) !in cache || Settled(cfg, KeyItem(k))))
  }

  lemma InvalidationKeepsOk(cfg: Config, cache: Cache, user: UserState, dropped: set<Item>, user': UserState)
    requires Linked(cfg) && CacheOk(cfg, cache, user)
    requires Closed(cfg, dropped, Keep(cache, dropped)) && ChangeOk(cfg, user, user', dropped, Keep(cache, dropped))
    ensures CacheOk(cfg, Keep(cache, dropped), user')
  {
    var cache' := Keep(cache, dropped);
    forall n | n in cache' ensures EntryOk(cfg, cache', user', n) {
      assert EntryOk(cfg, cache, user, n);
      if !IsConstant(cfg, n) && !Settled(cfg, ItemOf(n)) {
        RulesCovered(cfg, n);
        KeptReads(cfg, cache, user, dropped, user', n);
        RunUnaffected(cfg, ItemOf(n), n.Tri?, Rule(cfg, n), cache, user, cache', user');
      }
    }
  }

  lemma KeptReads(cfg: Config, cache: Cache, user: UserState, dropped: set<Item>, user': UserState, n: Node)
    requires Closed(cfg, dropped, Keep(cache, dropped)) && ChangeOk(cfg, user, user', dropped, Keep(cache, dropped))
    requires n in Keep(cache, dropped) && !IsConstant(cfg, n) && !Settled(cfg, ItemOf(n)) && Vis(ItemOf(n)) in cache
    ensures SameReads(cfg, ItemOf(n), n.Tri?, cache, user, Keep(cache, dropped), user')
  {
    var i, cache' := ItemOf(n), Keep(cache, dropped);
    assert i in Items(cfg) && Vis(i) in cache';
    forall j | DependsOn(cfg, i, j) ensures j !in dropped {
      assert i in Dependents(cfg, j);
    }
  }

  // ----- symbols without a prompt -----

  lemma PromptlessIsInvisible(cfg: Config, s: nat, cache: Cache, user: UserState)
    requires CacheOk(cfg, cache, user) && Defined(cfg, Sym(s)) && SymbolOf(cfg, s).prompts == []
    ensures Vis(Sym(s)) in cache ==> cache[Vis(Sym(s))] == 0
  {
    if Vis(Sym(s)) in cache {
      assert EntryOk(cfg, cache, user, Vis(Sym(s)));
      hide ChoiceTri, SymbolIsBool;
      var vis := PromptVisibility(cfg, []);
      assert vis == Lit(0) && Run(vis, cache, user) == Some(0);
      var promoted := Promote(vis, NotTristate(cfg, Sym(s)));
      assert Run(promoted, cache, user) == Some(0);
      assert Run(Is(vis, 1), cache, user) == Some(0);
      if SymbolOf(cfg, s).choice >= 0 {
        var inY := Ite(Is(ChoiceTri(cfg, SymbolOf(cfg, s).choice), 2), promoted, Lit(0));
        assert Run(inY, cache, user) == None || Run(inY, cache, user) == Some(0);
      }
    }
  }

  /** User values of symbols without a prompt have no effect, so nothing need be invalidated. */
  lemma PromptlessKeepsOk(cfg: Config, cache: Cache, user: UserState, s: nat, user': UserState)
    requires Linked(cfg) && CacheOk(cfg, cache, user) && SymbolOf(cfg, s).prompts == []
    requires forall k :: k != UserValue(Sym(s)) ==> UserOf(user, k) == UserOf(user', k)
    ensures CacheOk(cfg, cache, user')
  {
    forall n | n in cache ensures EntryOk(cfg, cache, user', n) {
      assert EntryOk(cfg, cache, user, n);
      if !Settled(cfg, ItemOf(n)) {
        RulesCovered(cfg, n);
        if n == Tri(s) {
          if !IsConstant(cfg, n) { PromptlessTri(cfg, cache, user, s, user'); }
        } else {
          assert SameReads(cfg, ItemOf(n), n.Tri?, cache, user, cache, user');
          RunUnaffected(cfg, ItemOf(n), n.Tri?, Rule(cfg, n), cache, user, cache, user');
        }
      }
    }
  }

  lemma PromptlessTri(cfg: Config, cache: Cache, user: UserState, s: nat, user': UserState)
    requires Linked(cfg) && CacheOk(cfg, cache, user) && SymbolOf(cfg, s).prompts == [] && !IsConstant(cfg, Tri(s))
    requires !Settled(cfg, Sym(s))
    requires forall k :: k != UserValue(Sym(s)) ==> UserOf(user, k) == UserOf(user', k)
    requires Run(TriRule(cfg, s), cache, user).Some?
    ensures Run(TriRule(cfg, s), cache, user') == Run(TriRule(cfg, s), cache, user)
  {
    var i, sym := Sym(s), SymbolOf(cfg, s);
    RuleReadsVisibility(cfg, Tri(s), cache, user);
    PromptlessIsInvisible(cfg, s, cache, user);
    var vis := Get(Vis(i));
    assert Run(vis, cache, user) == Run(vis, cache, user') == Some(0);
    assert SameReads(cfg, i, false, cache, user, cache, user');
    assert sym.choice < 0;
    var direct := Value(cfg, sym.directDep);
    var dflt := FirstDefault(cfg, sym.defaults);
    var weak := Value(cfg, sym.weakRevDep);
    var implied := Ite(weak, Ite(direct, Maximum(weak, dflt), dflt), dflt);
    var wanted := Ite(vis, User(UserValue(i)), Lit(0));
    var base := Ite(wanted, Minimum(UserTri(i), vis), implied);
    var rev := Value(cfg, sym.revDep);
    var selected := Ite(rev, Then(direct, Maximum(rev, base)), base);
    assert TriRule(cfg, s) == Promote(selected, Boolish(cfg, s));
    BoolishCovered(cfg, false, s);
    ImpliedCovered(cfg, s);
    hide Value, FirstDefault, Boolish, CoveredTerm, SameReads;
    PromptlessSelected(cfg, i, direct, wanted, Minimum(UserTri(i), vis), implied, rev, cache, user, user');
    if Run(Boolish(cfg, s), cache, user).Some? {
      RunUnaffected(cfg, i, false, Boolish(cfg, s), cache, user, cache, user');
    }
  }

  lemma ImpliedCovered(cfg: Config, s: nat)
    ensures var sym := SymbolOf(cfg, s); var direct, dflt, weak := Value(cfg, sym.directDep),
      FirstDefault(cfg, sym.defaults), Value(cfg, sym.weakRevDep);
      && CoveredTerm(cfg, Sym(s), false, Ite(weak, Ite(direct, Maximum(weak, dflt), dflt), dflt))
      && CoveredTerm(cfg, Sym(s), false, direct) && CoveredTerm(cfg, Sym(s), false, Value(cfg, sym.revDep))
  {
    ExpressionsCovered(cfg, false, s);
    hide Value, FirstDefault;
    var sym := SymbolOf(cfg, s);
    var direct, dflt, weak := Value(cfg, sym.directDep), FirstDefault(cfg, sym.defaults), Value(cfg, sym.weakRevDep);
    assert CoveredTerm(cfg, Sym(s), false, Ite(direct, Maximum(weak, dflt), dflt));
  }

  lemma PromptlessSelected(cfg: Config, i: Item, direct: Term, wanted: Term, chosen: Term, implied: Term, rev: Term,
      cache: Cache, user: UserState, user': UserState)
    requires SameReads(cfg, i, false, cache, user, cache, user')
    requires CoveredTerm(cfg, i, false, direct) && CoveredTerm(cfg, i, false, implied)
      && CoveredTerm(cfg, i, false, rev)
    requires Run(wanted, cache, user) == Run(wanted, cache, user') == Some(0)
    ensures var base := Ite(wanted, chosen, implied);
      var selected := Ite(rev, Then(direct, Maximum(rev, base)), base);
      Run(selected, cache, user).Some? ==> Run(selected, cache, user') == Run(selected, cache, user)
  {
    hide SameReads, CoveredTerm, ApplyStrict;
    var base := Ite(wanted, chosen, implied);
    var selected := Ite(rev, Then(direct, Maximum(rev, base)), base);
    if Run(selected, cache, user).Some? {
      RunUnaffected(cfg, i, false, rev, cache, user, cache, user');
      if Run(rev, cache, user).value != 0 {
        assert Run(Then(direct, Maximum(rev, base)), cache, user).Some?;
        RunUnaffected(cfg, i, false, direct, cache, user, cache, user');
        assert Run(Maximum(rev, base), cache, user).Some?;
      }
      assert Run(base, cache, user) == Run(implied, cache, user);
      RunUnaffected(cfg, i, false, implied, cache, user, cache, user');
      assert Run(base, cache, user') == Run(implied, cache, user');
      assert Run(Maximum(rev, base), cache, user') == Run(Maximum(rev, base), cache, user);
    }
  }

  // ----- the engine -----

  /** Invalidating item i leads to item k, directly or through others. */
  ghost predicate Reaches(cfg: Config, i: Item, k: Item) {
    exists p :: Route(cfg, i, k, p)
  }

  ghost predicate Route(cfg: Config, i: Item, k: Item, p: seq<Item>) {
    && p != [] && p[0] == i && p[|p| - 1] == k
    && forall x :: 0 <= x < |p| - 1 ==> p[x + 1] in Dependents(cfg, p[x])
  }

  /** What invalidating item i may drop: what it leads to, or everything when it leads to MODULES. */
  ghost predicate Affected(cfg: Config, i: Item, k: Item) {
    Reaches(cfg, i, k) || Reaches(cfg, i, Sym(cfg.modules))
  }

  /** Invalidating item i comes to item k through items whose visibility is cached. */
  ghost predicate Finds(cfg: Config, cache: Cache, i: Item, k: Item) {
    exists p :: Route(cfg, i, k, p) && Shown(cache, p)
  }

  ghost predicate Shown(cache: Cache, p: seq<Item>) {
    forall x :: 1 <= x < |p| ==> Vis(p[x]) in cache
  }

  /** What invalidating item i drops of the cache: what it finds, or everything once it finds MODULES. */
  ghost predicate Drops(cfg: Config, cache: Cache, i: Item, k: Item) {
    Finds(cfg, cache, i, k) || (Finds(cfg, cache, i, Sym(cfg.modules)) && k in Items(cfg))
  }

  ghost function Invalidated(cfg: Config, cache: Cache, i: Item): Cache {
    cache - (set n | n in cache && Drops(cfg, cache, i, ItemOf(n)))
  }

  /** Setting a symbol without a prompt invalidates nothing. */
  ghost function PromptInvalidated(cfg: Config, cache: Cache, s: nat): Cache {
    if SymbolOf(cfg, s).prompts == [] then cache else Invalidated(cfg, cache, Sym(s))
  }

  /** What is left of the cache once symbol s is set to a value; was is its user value before. */
  ghost function AfterSet(cfg: Config, cache: Cache, s: nat, value: nat, was: nat): Cache {
    var choice := SymbolOf(cfg, s).choice;
    if choice < 0 && was == value + 1 then cache
    else if choice >= 0 && value == 2 then Invalidated(cfg, cache, Cho(choice))
    else PromptInvalidated(cfg, cache, s)
  }

  lemma DropsAffected(cfg: Config, cache: Cache, i: Item, k: Item)
    requires Drops(cfg, cache, i, k)
    ensures Affected(cfg, i, k)
  {
  }

  lemma DropsSelf(cfg: Config, cache: Cache, i: Item)
    ensures Drops(cfg, cache, i, i)
    ensures i == Sym(cfg.modules) ==> forall k :: k in Items(cfg) ==> Drops(cfg, cache, i, k)
  {
    assert Route(cfg, i, i, [i]) && Shown(cache, [i]);
  }

  lemma FindsFurther(cfg: Config, cache: Cache, i: Item, j: Item, sub: Cache, k: Item)
    requires j in Dependents(cfg, i) && Vis(j) in cache && sub.Keys <= cache.Keys && Finds(cfg, sub, j, k)
    ensures Finds(cfg, cache, i, k)
  {
    var p :| Route(cfg, j, k, p) && Shown(sub, p);
    assert Route(cfg, i, k, [i] + p) && Shown(cache, [i] + p);
  }

  lemma DropsFurther(cfg: Config, cache: Cache, i: Item, j: Item, sub: Cache)
    requires j in Dependents(cfg, i) && Vis(j) in cache && sub.Keys <= cache.Keys
    ensures forall k :: Drops(cfg, sub, j, k) ==> Drops(cfg, cache, i, k)
  {
    hide Finds, Dependents, Items;
    forall k | Finds(cfg, sub, j, k) ensures Finds(cfg, cache, i, k) {
      FindsFurther(cfg, cache, i, j, sub, k);
    }
  }

  lemma {:induction false} FoundIsDropped(cfg: Config, cache: Cache, k: Item, p: seq<Item>, dropped: set<Item>)
    requires p != [] && Route(cfg, p[0], k, p) && Shown(cache, p)
    requires p[0] in dropped && Closed(cfg, dropped, Keep(cache, dropped))
    ensures k in dropped
    decreases |p|
  {
    if |p| > 1 {
      assert p[1] in Dependents(cfg, p[0]);
      assert Vis(p[1]) !in Keep(cache, dropped);
      FoundIsDropped(cfg, cache, k, p[1..], dropped);
    }
  }

  /** A closed set that holds what is invalidated holds all that is found, and no larger one is dropped. */
  lemma DroppedExactly(cfg: Config, cache: Cache, i: Item, dropped: set<Item>)
    requires i in dropped && Closed(cfg, dropped, Keep(cache, dropped))
    requires forall k :: k in dropped ==> Drops(cfg, cache, i, k)
    ensures Keep(cache, dropped) == Invalidated(cfg, cache, i)
  {
    forall k | Finds(cfg, cache, i, k) ensures k in dropped {
      var p :| Route(cfg, i, k, p) && Shown(cache, p);
      FoundIsDropped(cfg, cache, k, p, dropped);
    }
    assert forall k :: Drops(cfg, cache, i, k) ==> k in dropped;
  }

  /** The `_cached_*` fields of all symbols and choices, and the user values. */
  class Kconfig {
    const cfg: Config
    ghost const rank: Node -> nat
    var cache: Cache
    var user: UserState

    /** The configuration is one whose reads invalidation finds, and the cache is right. */
    ghost predicate Valid()
      reads this
    {
      Linked(cfg) && Ranked(cfg, rank) && CacheOk(cfg, cache, user)
    }

    constructor (cfg: Config, ghost rank: Node -> nat)
      requires Ranked(cfg, rank)
      ensures this.cfg == cfg && this.rank == rank && cache == map[] && user == map[]
      ensures CacheOk(cfg, cache, user) && (Linked(cfg) ==> Valid())
    {
      this.cfg, this.rank := cfg, rank;
      cache, user := map[], map[];
    }

    /** Every cached value is the one a from-scratch evaluation on the current user values gives. */
    lemma Coherent(n: Node)
      requires Ranked(cfg, rank) && CacheOk(cfg, cache, user) && n in cache
      ensures cache[n] == Fresh(cfg, rank, user, n)
    {
      CachedIsFresh(cfg, rank, cache, user, n);
    }

    /** More may be cached, of attributes ranked below the bound. */
    ghost predicate Grew(before: Cache, bound: nat)
      reads this
    {
      && (forall n :: n in before ==> n in cache && cache[n] == before[n])
      && (forall n :: n in cache && n !in before ==> rank(n) < bound)
    }

    /** The value properties: cached, or computed by the rule and cached. */
    method GetValue(n: Node) returns (v: nat)
      requires Ranked(cfg, rank)
      modifies this`cache
      ensures Grew(old(cache), rank(n) + 1) && n in cache && v == cache[n]
      ensures old(CacheOk(cfg, cache, user)) ==> CacheOk(cfg, cache, user) && v == Fresh(cfg, rank, user, n)
      decreases rank(n), 1
    {
      hide CacheOk, Rule;
      if n in cache {
        v := cache[n];
      } else {
        assert Below(Rule(cfg, n), rank, rank(n));
        v := EvalTerm(Rule(cfg, n), rank(n));
        AddEntry(n, v);
      }
      if CacheOk(cfg, cache, user) {
        Coherent(n);
      }
    }

    method AddEntry(n: Node, v: nat)
      requires n !in cache && Run(Rule(cfg, n), cache, user) == Some(v)
      modifies this`cache
      ensures cache == old(cache)[n := v]
      ensures old(CacheOk(cfg, cache, user)) ==> CacheOk(cfg, cache, user)
    {
      EntryAdded(cfg, cache, user, n, v);
      cache := cache[n := v];
    }

    method EvalTerm(t: Term, ghost bound: nat) returns (v: nat)
      requires Ranked(cfg, rank) && Below(t, rank, bound)
      modifies this`cache
      ensures Grew(old(cache), bound) && Run(t, cache, user) == Some(v)
      ensures old(CacheOk(cfg, cache, user)) ==> CacheOk(cfg, cache, user)
      decreases bound, 0, t
    {
      hide Ranked, CacheOk, ApplyStrict, ApplyLazy, ApplyUnary, Stops;
      match t
      case Lit(w) => v := w;
      case Get(n) => v := GetValue(n);
      case User(k) => v := UserOf(user, k);
      case Unary(op, a) =>
        var x := EvalTerm(a, bound);
        v := ApplyUnary(op, x);
      case Strict(op, a, b) =>
        var x := EvalTerm(a, bound);
        ghost var c := cache;
        var y := EvalTerm(b, bound);
        RunGrows(a, c, cache, user);
        v := ApplyStrict(op, x, y);
      case Lazy(op, a, b) =>
        var x := EvalTerm(a, bound);
        if Stops(op, x) {
          v := x;
        } else {
          ghost var c := cache;
          var y := EvalTerm(b, bound);
          RunGrows(a, c, cache, user);
          v := ApplyLazy(op, x, y);
        }
      case Ite(c, a, b) =>
        var x := EvalTerm(c, bound);
        ghost var d := cache;
        if x != 0 {
          v := EvalTerm(a, bound);
        } else {
          v := EvalTerm(b, bound);
        }
        RunGrows(c, d, cache, user);
    }

    // ----- invalidation -----

    /** `_rec_invalidate`: drops an item and, through dependents whose visibility is cached, everything that
        may have read it. It ends because every further item visited loses its cached visibility. */
    method RecInvalidate(i: Item) returns (ghost dropped: set<Item>)
      requires Defined(cfg, i)
      modifies this`cache
      ensures i in dropped && cache == Keep(old(cache), dropped) && Closed(cfg, dropped, cache)
      ensures forall k :: k in dropped ==> Drops(cfg, old(cache), i, k)
      ensures cache == Invalidated(cfg, old(cache), i)
      decreases |Keep(cache, {i})|
    {
      hide Drops, Invalidated, Keep, Items, Dependents, Closed, AlmostClosed;
      ghost var before := cache;
      DropsSelf(cfg, before, i);
      if i == Sym(cfg.modules) {
        cache := Keep(cache, Items(cfg)); // _invalidate_all
        dropped := Items(cfg);
        AllDropped(cfg, i, before);
        DroppedExactly(cfg, before, i, dropped);
        return;
      }
      cache := Keep(cache, {i});
      dropped := {i};
      var pending := Dependents(cfg, i);
      NoneVisited(cfg, i, before);
      while pending != {}
        invariant i in dropped && cache == Keep(before, dropped) && |cache| <= |Keep(before, {i})|
        invariant AlmostClosed(cfg, i, dropped, pending, cache)
        invariant forall k :: k in dropped ==> Drops(cfg, before, i, k)
        decreases pending
      {
        var k :| k in pending;
        NextVisited(cfg, i, dropped, pending, k, cache);
        if Vis(k) in cache {
          KeepLess(cache, k);
          ghost var more := RecInvalidate(k);
          KeptVis(before, dropped, k);
          DropsFurther(cfg, before, i, k, Keep(before, dropped));
          KeepTwice(before, dropped, more);
          KeepSize(Keep(before, dropped), more);
          DroppedMore(cfg, i, dropped, pending, k, more, Keep(before, dropped));
          dropped := dropped + more;
        }
        pending := pending - {k};
      }
      AllVisited(cfg, i, dropped, cache);
      DroppedExactly(cfg, before, i, dropped);
    }

    /** `_rec_invalidate_if_has_prompt`. */
    method InvalidateIfPrompt(s: nat, ghost was: UserState)
      requires Defined(cfg, Sym(s))
      requires forall k :: k != UserValue(Sym(s)) ==> UserOf(was, k) == UserOf(user, k)
      modifies this`cache
      ensures cache == PromptInvalidated(cfg, old(cache), s)
      ensures Linked(cfg) && old(CacheOk(cfg, cache, was)) ==> CacheOk(cfg, cache, user)
    {
      hide Drops, Invalidated, CacheOk, Linked, Closed;
      if SymbolOf(cfg, s).prompts != [] {
        ghost var before := cache;
        ghost var dropped := RecInvalidate(Sym(s));
        if Linked(cfg) && CacheOk(cfg, before, was) {
          InvalidationKeepsOk(cfg, before, was, dropped, user);
        }
      } else if Linked(cfg) && CacheOk(cfg, cache, was) {
        PromptlessKeepsOk(cfg, cache, was, s, user);
      }
    }

    /** Symbol.set_value for n, m and y. Setting a choice symbol to y also selects it in its choice. */
    method SetValue(s: nat, value: nat) returns (ok: bool)
      requires ChoicesExist(cfg) && value <= 2
      modifies this`cache, this`user
      ensures old(Valid()) ==> Valid()
      ensures ok <==> SymbolOf(cfg, s).kind == Tristate || (SymbolOf(cfg, s).kind == Bool && value != 1)
                      || (UserOf(old(user), UserValue(Sym(s))) == value + 1 && SymbolOf(cfg, s).choice < 0)
      ensures !ok ==> user == old(user) && cache == old(cache)
      ensures ok ==> user == (if SymbolOf(cfg, s).choice >= 0 && value == 2
                              then old(user)[UserValue(Sym(s)) := 3][UserSelection(SymbolOf(cfg, s).choice) := s + 1]
                              else old(user)[UserValue(Sym(s)) := value + 1])
      ensures ok ==> cache == AfterSet(cfg, old(cache), s, value, UserOf(old(user), UserValue(Sym(s))))
    {
      hide Drops, Invalidated, CacheOk, Linked, Closed, Ranked;
      var sym := SymbolOf(cfg, s);
      if UserOf(user, UserValue(Sym(s))) == value + 1 && sym.choice < 0 {
        return true;
      }
      if !(sym.kind == Tristate || (sym.kind == Bool && value != 1)) {
        return false;
      }
      ghost var was := user;
      user := user[UserValue(Sym(s)) := value + 1];
      if sym.choice >= 0 && value == 2 {
        ghost var before := cache;
        user := user[UserSelection(sym.choice) := s + 1];
        ghost var dropped := RecInvalidate(Cho(sym.choice));
        if Linked(cfg) && CacheOk(cfg, before, was) {
          ChoiceSymbolChange(cfg, s, was, user, dropped, cache);
          InvalidationKeepsOk(cfg, before, was, dropped, user);
        }
      } else {
        InvalidateIfPrompt(s, was);
      }
      return true;
    }

    /** Symbol.unset_value. */
    method UnsetValue(s: nat)
      requires Defined(cfg, Sym(s))
      modifies this`cache, this`user
      ensures old(Valid()) ==> Valid()
      ensures user == old(user) - {UserValue(Sym(s))}
      ensures cache == if UserValue(Sym(s)) in old(user) then PromptInvalidated(cfg, old(cache), s) else old(cache)
    {
      hide Drops, Invalidated, CacheOk, Linked, Closed, Ranked;
      ghost var was := user;
      if UserValue(Sym(s)) in user {
        user := user - {UserValue(Sym(s))};
        InvalidateIfPrompt(s, was);
      }
    }

    /** Choice.set_value. */
    method SetChoiceValue(c: nat, value: nat) returns (ok: bool)
      requires Defined(cfg, Cho(c)) && value <= 2
      modifies this`cache, this`user
      ensures old(Valid()) ==> Valid()
      ensures ok ==> user == old(user)[UserValue(Cho(c)) := value + 1]
      ensures ok ==> cache == if UserOf(old(user), UserValue(Cho(c))) == value + 1 then old(cache)
                              else Invalidated(cfg, old(cache), Cho(c))
      ensures !ok ==> user == old(user) && cache == old(cache)
      ensures ok <==> UserOf(old(user), UserValue(Cho(c))) == value + 1 || ChoiceOf(cfg, c).kind == Tristate
                      || (ChoiceOf(cfg, c).kind == Bool && value != 1)
    {
      hide Drops, Invalidated, CacheOk, Linked, Closed, Ranked;
      if UserOf(user, UserValue(Cho(c))) == value + 1 {
        return true;
      }
      if !(ChoiceOf(cfg, c).kind == Tristate || (ChoiceOf(cfg, c).kind == Bool && value != 1)) {
        return false;
      }
      ghost var was, before := user, cache;
      user := user[UserValue(Cho(c)) := value + 1];
      ghost var dropped := RecInvalidate(Cho(c));
      if Linked(cfg) && CacheOk(cfg, before, was) {
        InvalidationKeepsOk(cfg, before, was, dropped, user);
      }
      return true;
    }

    /** Choice.unset_value. */
    method UnsetChoice(c: nat)
      requires Defined(cfg, Cho(c))
      modifies this`cache, this`user
      ensures old(Valid()) ==> Valid()
      ensures user == old(user) - {UserValue(Cho(c)), UserSelection(c)}
      ensures cache == if UserValue(Cho(c)) in old(user) || UserSelection(c) in old(user)
                       then Invalidated(cfg, old(cache), Cho(c)) else old(cache)
    {
      hide Drops, Invalidated, CacheOk, Linked, Closed, Ranked;
      if UserValue(Cho(c)) in user || UserSelection(c) in user {
        ghost var was, before := user, cache;
        user := user - {UserValue(Cho(c)), UserSelection(c)};
        ghost var dropped := RecInvalidate(Cho(c));
        if Linked(cfg) && CacheOk(cfg, before, was) {
          InvalidationKeepsOk(cfg, before, was, dropped, user);
        }
      }
    }
  }

  lemma EntryAdded(cfg: Config, cache: Cache, user: UserState, n: Node, v: nat)
    requires n !in cache && Run(Rule(cfg, n), cache, user) == Some(v)
    ensures CacheOk(cfg, cache, user) ==> CacheOk(cfg, cache[n := v], user)
  {
    if CacheOk(cfg, cache, user) {
      var more := cache[n := v];
      forall m | m in more ensures EntryOk(cfg, more, user, m) {
        if m != n {
          assert EntryOk(cfg, cache, user, m);
          if !Settled(cfg, ItemOf(m)) { RunGrows(Rule(cfg, m), cache, more, user); }
        } else if Settled(cfg, ItemOf(n)) {
          assert Vis(ItemOf(n)) in cache ==> EntryOk(cfg, cache, user, Vis(ItemOf(n)));
          SettledRuns(cfg, cache, user, n);
        } else {
          RunGrows(Rule(cfg, n), cache, more, user);
          if !IsConstant(cfg, n) { RuleReadsVisibility(cfg, n, cache, user); }
        }
      }
    }
  }

  /** Setting a choice symbol to y: its user value is seen by nobody else, and it is dropped with its choice. */
  lemma ChoiceSymbolChange(cfg: Config, s: nat, was: UserState, user: UserState, dropped: set<Item>, cache: Cache)
    requires Linked(cfg) && SymbolOf(cfg, s).choice >= 0
    requires Cho(SymbolOf(cfg, s).choice) in dropped && Closed(cfg, dropped, cache)
    requires user == was[UserValue(Sym(s)) := 3][UserSelection(SymbolOf(cfg, s).choice) := s + 1]
    ensures ChangeOk(cfg, was, user, dropped, cache)
  {
    var c := SymbolOf(cfg, s).choice;
    assert SymbolLinked(cfg, s);
    if !Settled(cfg, Sym(s)) {
      assert Sym(s) in Dependents(cfg, Cho(c));
    }
  }

  // ----- why choice defaults must be mentioned -----

  lemma NotAffected(cfg: Config, cache: Cache, s: nat, n: Node)
    requires n in cache && !Affected(cfg, Sym(s), ItemOf(n))
    ensures n in PromptInvalidated(cfg, cache, s) && PromptInvalidated(cfg, cache, s)[n] == cache[n]
  {
    if Drops(cfg, cache, Sym(s), ItemOf(n)) { DropsAffected(cfg, cache, Sym(s), ItemOf(n)); }
  }

  /** The engine at work where invalidation may miss a read: from any right cache, an attribute that setting symbol s
      does not lead to is read as before, which is right exactly when its from-scratch value has not changed. */
  method ReadSetRead(k: Kconfig, n: Node, s: nat, value: nat) returns (before: nat, after: nat)
    requires ChoicesExist(k.cfg) && Ranked(k.cfg, k.rank) && CacheOk(k.cfg, k.cache, k.user)
    requires value <= 2 && SymbolOf(k.cfg, s).choice < 0
    requires SymbolOf(k.cfg, s).kind == Tristate || (SymbolOf(k.cfg, s).kind == Bool && value != 1)
    requires !Affected(k.cfg, Sym(s), ItemOf(n))
    modifies k
    ensures k.user == old(k.user)[UserValue(Sym(s)) := value + 1]
    ensures before == Fresh(k.cfg, k.rank, old(k.user), n) && n in k.cache && after == before == k.cache[n]
    ensures after == Fresh(k.cfg, k.rank, k.user, n) <==>
      Fresh(k.cfg, k.rank, k.user, n) == Fresh(k.cfg, k.rank, old(k.user), n)
  {
    hide Affected, Drops, CacheOk, Ranked;
    before := k.GetValue(n);
    NotAffected(k.cfg, k.cache, s, n);
    var ok := k.SetValue(s, value);
    after := k.GetValue(n);
  }

  /** Default j of choice c decides the selection: the choice is in y mode, the user has selected none of its symbols,
      and j is the first default with a true condition and a visible symbol. */
  ghost predicate Decides(cfg: Config, rank: Node -> nat, user: UserState, c: nat, j: nat)
    requires Ranked(cfg, rank) && c < |cfg.choices| && j < |cfg.choices[c].defaults|
  {
    var ch, bound := cfg.choices[c], rank(Selection(c));
    SelectionBelow(cfg, rank, c);
    && Eval(cfg, rank, user, Is(ChoiceTri(cfg, c), 2), bound) != 0
    && (forall m :: m in ch.syms ==> UserOf(user, UserSelection(c)) != m + 1)
    && FirstShown(cfg, rank, user, ch.defaults, ch.syms, j, bound)
  }

  ghost predicate FirstShown(cfg: Config, rank: Node -> nat, user: UserState, defaults: seq<ChoiceDefault>,
      syms: seq<nat>, j: nat, bound: nat)
    requires Ranked(cfg, rank) && j < |defaults| && Below(DefaultSelection(cfg, defaults, syms), rank, bound)
  {
    var shown := Eval(cfg, rank, user, Value(cfg, defaults[0].cond), bound) != 0
      && Fresh(cfg, rank, user, Vis(Sym(defaults[0].sym))) != 0;
    if j == 0 then shown else !shown && FirstShown(cfg, rank, user, defaults[1..], syms, j - 1, bound)
  }

  lemma SelectionBelow(cfg: Config, rank: Node -> nat, c: nat)
    requires Ranked(cfg, rank) && c < |cfg.choices|
    ensures var ch, bound := cfg.choices[c], rank(Selection(c));
      && Below(Is(ChoiceTri(cfg, c), 2), rank, bound)
      && Below(UserSelected(c, ch.syms, DefaultSelection(cfg, ch.defaults, ch.syms)), rank, bound)
      && Below(DefaultSelection(cfg, ch.defaults, ch.syms), rank, bound)
  {
    var ch, bound := cfg.choices[c], rank(Selection(c));
    assert Below(Rule(cfg, Selection(c)), rank, bound);
    hide ChoiceTri, DefaultSelection;
    var chosen := DefaultSelection(cfg, ch.defaults, ch.syms);
    assert Rule(cfg, Selection(c)) == Ite(Is(ChoiceTri(cfg, c), 2), UserSelected(c, ch.syms, chosen), Lit(0));
    OtherwiseBelow(rank, c, ch.syms, chosen, bound);
  }

  lemma UserSelectedStep(c: nat, syms: seq<nat>, otherwise: Term, rank: Node -> nat, bound: nat)
    requires syms != [] && Below(UserSelected(c, syms, otherwise), rank, bound)
    ensures var wanted, mine := Is(User(UserSelection(c)), syms[0] + 1),
      Ite(Get(Vis(Sym(syms[0]))), Lit(syms[0] + 1), otherwise);
      && UserSelected(c, syms, otherwise) == Ite(wanted, mine, UserSelected(c, syms[1..], otherwise))
      && Below(wanted, rank, bound) && Below(mine, rank, bound)
        && Below(UserSelected(c, syms[1..], otherwise), rank, bound)
      && Below(otherwise, rank, bound) && Below(Get(Vis(Sym(syms[0]))), rank, bound)
  {
    var wanted, mine := Is(User(UserSelection(c)), syms[0] + 1),
      Ite(Get(Vis(Sym(syms[0]))), Lit(syms[0] + 1), otherwise);
    var rest := UserSelected(c, syms[1..], otherwise);
    assert UserSelected(c, syms, otherwise) == Ite(wanted, mine, rest);
    assert Below(Ite(wanted, mine, rest), rank, bound);
    assert Below(mine, rank, bound);
  }

  lemma {:induction false} OtherwiseBelow(rank: Node -> nat, c: nat, syms: seq<nat>, otherwise: Term, bound: nat)
    requires Below(UserSelected(c, syms, otherwise), rank, bound)
    ensures Below(otherwise, rank, bound)
  {
    if syms != [] {
      UserSelectedStep(c, syms, otherwise, rank, bound);
      OtherwiseBelow(rank, c, syms[1..], otherwise, bound);
    }
  }

  lemma {:induction false} NothingSelected(cfg: Config, rank: Node -> nat, user: UserState, c: nat, syms: seq<nat>,
      otherwise: Term, bound: nat)
    requires Ranked(cfg, rank) && Below(UserSelected(c, syms, otherwise), rank, bound) && Below(otherwise, rank, bound)
    requires forall m :: m in syms ==> UserOf(user, UserSelection(c)) != m + 1
    ensures Eval(cfg, rank, user, UserSelected(c, syms, otherwise), bound) == Eval(cfg, rank, user, otherwise, bound)
  {
    if syms != [] {
      UserSelectedStep(c, syms, otherwise, rank, bound);
      assert syms[0] in syms && forall m :: m in syms[1..] ==> m in syms;
      assert Eval(cfg, rank, user, Is(User(UserSelection(c)), syms[0] + 1), bound) == 0;
      NothingSelected(cfg, rank, user, c, syms[1..], otherwise, bound);
    }
  }

  lemma DefaultSelectionStep(cfg: Config, rank: Node -> nat, user: UserState, defaults: seq<ChoiceDefault>,
      syms: seq<nat>, bound: nat)
    requires Ranked(cfg, rank) && defaults != [] && Below(DefaultSelection(cfg, defaults, syms), rank, bound)
    ensures var next, cond := DefaultSelection(cfg, defaults[1..], syms), Value(cfg, defaults[0].cond);
      && Below(next, rank, bound) && Below(cond, rank, bound)
      && Eval(cfg, rank, user, DefaultSelection(cfg, defaults, syms), bound) ==
           if Eval(cfg, rank, user, cond, bound) != 0 && Fresh(cfg, rank, user, Vis(Sym(defaults[0].sym))) != 0
           then defaults[0].sym + 1 else Eval(cfg, rank, user, next, bound)
  {
    var next, cond := DefaultSelection(cfg, defaults[1..], syms), Value(cfg, defaults[0].cond);
    var shown := Ite(Get(Vis(Sym(defaults[0].sym))), Lit(defaults[0].sym + 1), next);
    assert DefaultSelection(cfg, defaults, syms) == Ite(cond, shown, next);
    hide DefaultSelection, Value;
    assert Below(shown, rank, bound);
    assert Eval(cfg, rank, user, shown, bound) ==
      if Fresh(cfg, rank, user, Vis(Sym(defaults[0].sym))) != 0 then defaults[0].sym + 1
        else Eval(cfg, rank, user, next, bound);
  }

  lemma {:induction false} ShownIsSelected(cfg: Config, rank: Node -> nat, user: UserState,
      defaults: seq<ChoiceDefault>, syms: seq<nat>, j: nat, bound: nat)
    requires Ranked(cfg, rank) && j < |defaults| && Below(DefaultSelection(cfg, defaults, syms), rank, bound)
    requires FirstShown(cfg, rank, user, defaults, syms, j, bound)
    ensures Eval(cfg, rank, user, DefaultSelection(cfg, defaults, syms), bound) == defaults[j].sym + 1
  {
    DefaultSelectionStep(cfg, rank, user, defaults, syms, bound);
    hide DefaultSelection, Value;
    if j > 0 {
      ShownIsSelected(cfg, rank, user, defaults[1..], syms, j - 1, bound);
    }
  }

  /** A deciding default is the from-scratch selection. */
  lemma DecidedSelection(cfg: Config, rank: Node -> nat, user: UserState, c: nat, j: nat)
    requires Ranked(cfg, rank) && c < |cfg.choices| && j < |cfg.choices[c].defaults| && Decides(cfg, rank, user, c, j)
    ensures Fresh(cfg, rank, user, Selection(c)) == cfg.choices[c].defaults[j].sym + 1
  {
    var ch, bound := cfg.choices[c], rank(Selection(c));
    SelectionBelow(cfg, rank, c);
    ShownIsSelected(cfg, rank, user, ch.defaults, ch.syms, j, bound);
    hide ChoiceTri, DefaultSelection;
    NothingSelected(cfg, rank, user, c, ch.syms, DefaultSelection(cfg, ch.defaults, ch.syms), bound);
    assert Rule(cfg, Selection(c)) ==
      Ite(Is(ChoiceTri(cfg, c), 2), UserSelected(c, ch.syms, DefaultSelection(cfg, ch.defaults, ch.syms)), Lit(0));
  }

  lemma {:induction false} HiddenFirst(cfg: Config, rank: Node -> nat, user: UserState, syms: seq<nat>, d: nat,
      bound: nat)
    requires Ranked(cfg, rank) && Below(FirstVisible(syms), rank, bound) && d !in syms
    ensures Eval(cfg, rank, user, FirstVisible(syms), bound) != d + 1
  {
    if syms != [] {
      HiddenFirst(cfg, rank, user, syms[1..], d, bound);
    }
  }

  lemma {:induction false} HiddenDefault(cfg: Config, rank: Node -> nat, user: UserState,
      defaults: seq<ChoiceDefault>, syms: seq<nat>, d: nat, bound: nat)
    requires Ranked(cfg, rank) && Below(DefaultSelection(cfg, defaults, syms), rank, bound)
    requires d !in syms && Fresh(cfg, rank, user, Vis(Sym(d))) == 0
    ensures Eval(cfg, rank, user, DefaultSelection(cfg, defaults, syms), bound) != d + 1
  {
    if defaults == [] {
      HiddenFirst(cfg, rank, user, syms, d, bound);
    } else {
      DefaultSelectionStep(cfg, rank, user, defaults, syms, bound);
      hide DefaultSelection, Value;
      HiddenDefault(cfg, rank, user, defaults[1..], syms, d, bound);
    }
  }

  lemma {:induction false} HiddenUser(cfg: Config, rank: Node -> nat, user: UserState, c: nat, syms: seq<nat>,
      otherwise: Term, d: nat, bound: nat)
    requires Ranked(cfg, rank) && Below(UserSelected(c, syms, otherwise), rank, bound) && Below(otherwise, rank, bound)
    requires d !in syms && Eval(cfg, rank, user, otherwise, bound) != d + 1
    ensures Eval(cfg, rank, user, UserSelected(c, syms, otherwise), bound) != d + 1
  {
    if syms != [] {
      UserSelectedStep(c, syms, otherwise, rank, bound);
      var mine := Ite(Get(Vis(Sym(syms[0]))), Lit(syms[0] + 1), otherwise);
      assert Eval(cfg, rank, user, mine, bound) != d + 1;
      HiddenUser(cfg, rank, user, c, syms[1..], otherwise, d, bound);
    }
  }

  /** An invisible symbol outside the choice is never the from-scratch selection. */
  lemma HiddenSelection(cfg: Config, rank: Node -> nat, user: UserState, c: nat, d: nat)
    requires Ranked(cfg, rank) && c < |cfg.choices| && d !in cfg.choices[c].syms
    requires Fresh(cfg, rank, user, Vis(Sym(d))) == 0
    ensures Fresh(cfg, rank, user, Selection(c)) != d + 1
  {
    var ch, bound := cfg.choices[c], rank(Selection(c));
    SelectionBelow(cfg, rank, c);
    HiddenDefault(cfg, rank, user, ch.defaults, ch.syms, d, bound);
    hide ChoiceTri, DefaultSelection;
    var chosen := DefaultSelection(cfg, ch.defaults, ch.syms);
    HiddenUser(cfg, rank, user, c, ch.syms, chosen, d, bound);
    var mine := UserSelected(c, ch.syms, chosen);
    assert Eval(cfg, rank, user, Lit(0), bound) == 0 && Eval(cfg, rank, user, mine, bound) != d + 1;
    assert Rule(cfg, Selection(c)) == Ite(Is(ChoiceTri(cfg, c), 2), mine, Lit(0));
  }

  /** Why defaults must be mentioned: a default outside its choice, invisible now, that decides the selection once
      symbol s is set, while setting s does not lead to the choice, leaves a stale selection behind. */
  method OutsideDefaultGoesStale(k: Kconfig, c: nat, j: nat, s: nat, value: nat) returns (after: nat)
    requires ChoicesExist(k.cfg) && Ranked(k.cfg, k.rank) && CacheOk(k.cfg, k.cache, k.user)
    requires value <= 2 && SymbolOf(k.cfg, s).choice < 0
    requires SymbolOf(k.cfg, s).kind == Tristate || (SymbolOf(k.cfg, s).kind == Bool && value != 1)
    requires c < |k.cfg.choices| && j < |k.cfg.choices[c].defaults|
    requires k.cfg.choices[c].defaults[j].sym !in k.cfg.choices[c].syms
    requires !Affected(k.cfg, Sym(s), Cho(c))
    requires Fresh(k.cfg, k.rank, k.user, Vis(Sym(k.cfg.choices[c].defaults[j].sym))) == 0
    requires Decides(k.cfg, k.rank, k.user[UserValue(Sym(s)) := value + 1], c, j)
    modifies k
    ensures Selection(c) in k.cache && after == k.cache[Selection(c)]
    ensures k.user == old(k.user)[UserValue(Sym(s)) := value + 1]
    ensures after != Fresh(k.cfg, k.rank, k.user, Selection(c)) == k.cfg.choices[c].defaults[j].sym + 1
  {
    HiddenSelection(k.cfg, k.rank, k.user, c, k.cfg.choices[c].defaults[j].sym);
    DecidedSelection(k.cfg, k.rank, k.user[UserValue(Sym(s)) := value + 1], c, j);
    hide Affected, CacheOk, Ranked, Decides;
    var before;
    before, after := ReadSetRead(k, Selection(c), s, value);
  }

  /** A choice whose default lies outside it (which is only warned about), the default shown when symbol 1 is y. */
  function OutsideDefault(): Config {
    Config(
      [Symbol(Bool, [Leaf(Sym(1))], [], Const(0), Const(0), Const(2), -1),
       Symbol(Bool, [Const(2)], [], Const(0), Const(0), Const(2), -1)],
      [Choice(Bool, false, [Const(2)], [ChoiceDefault(0, Const(2))], [])],
      7)
  }

  function OutsideRank(n: Node): nat {
    match n
    case Vis(Sym(s)) => if s == 0 then 2 else 0
    case Vis(Cho(_)) => 0
    case Tri(s) => if s == 0 then 3 else 1
    case Selection(_) => 3
    case Assignable(_) => 4
  }

  lemma OutsideTriRanked(s: nat)
    ensures Below(Rule(OutsideDefault(), Tri(s)), OutsideRank, OutsideRank(Tri(s)))
  {
    hide Below;
    BelowParts(OutsideRank, OutsideRank(Tri(s)));
  }

  lemma OutsideSymbolsRanked(n: Node)
    requires ItemOf(n).Sym? && !n.Tri?
    ensures Below(Rule(OutsideDefault(), n), OutsideRank, OutsideRank(n))
  {
    hide Below;
    BelowParts(OutsideRank, OutsideRank(n));
  }

  lemma OutsideChoiceRanked(n: Node)
    requires ItemOf(n).Cho?
    ensures Below(Rule(OutsideDefault(), n), OutsideRank, OutsideRank(n))
  {
    hide Below;
    BelowParts(OutsideRank, OutsideRank(n));
  }

  lemma OutsideRanked()
    ensures Ranked(OutsideDefault(), OutsideRank)
  {
    forall n ensures Below(Rule(OutsideDefault(), n), OutsideRank, OutsideRank(n)) {
      if n.Tri? {
        OutsideTriRanked(n.s);
      } else if ItemOf(n).Sym? {
        OutsideSymbolsRanked(n);
      } else {
        OutsideChoiceRanked(n);
      }
    }
  }

  function StaleCache(): Cache {
    map[Vis(Cho(0)) := 2, Selection(0) := 0, Vis(Sym(0)) := 0, Vis(Sym(1)) := 2, Tri(1) := 0]
  }

  /** The selection is read as none, symbol 1 is set to y, and the selection is still read as none, although
      from-scratch evaluation now gives symbol 0. */
  method OutsideDefaultRun() returns (after: nat)
    ensures Ranked(OutsideDefault(), OutsideRank) && after == 0
    ensures Fresh(OutsideDefault(), OutsideRank, map[UserValue(Sym(1)) := 3], Selection(0)) == 1
  {
    hide Rule, CacheOk, Affected;
    OutsideRanked();
    var k := new Kconfig(OutsideDefault(), OutsideRank);
    StaleCacheOk();
    NewCacheOk();
    hide Ranked;
    CachedIsFresh(k.cfg, OutsideRank, StaleCache(), map[], Selection(0));
    CachedIsFresh(k.cfg, OutsideRank, NewCache(), map[UserValue(Sym(1)) := 3], Selection(0));
    OutsideNotAffected();
    var before;
    before, after := ReadSetRead(k, Selection(0), 1, 2);
  }

  lemma {:induction false} RouteStays(cfg: Config, i: Item, k: Item, p: seq<Item>, items: set<Item>)
    requires Route(cfg, i, k, p) && i in items && forall j :: j in items ==> Dependents(cfg, j) <= items
    ensures k in items
    decreases |p|
  {
    if |p| > 1 {
      assert p[1] in Dependents(cfg, p[0]);
      RouteStays(cfg, p[1], k, p[1..], items);
    }
  }

  lemma OutsideNotAffected()
    ensures !Affected(OutsideDefault(), Sym(1), Cho(0))
  {
    var cfg := OutsideDefault();
    forall k | k == Cho(0) || k == Sym(7) ensures !Reaches(cfg, Sym(1), k) {
      if p :| Route(cfg, Sym(1), k, p) {
        OutsideDependents();
        RouteStays(cfg, Sym(1), k, p, {Sym(0), Sym(1)});
      }
    }
  }

  lemma OutsideDependents()
    ensures Dependents(OutsideDefault(), Sym(0)) == {} && Dependents(OutsideDefault(), Sym(1)) <= {Sym(0)}
  {
  }

  lemma StaleCacheOk()
    ensures CacheOk(OutsideDefault(), StaleCache(), map[])
  {
    StaleVis();
    StaleSelection();
    StaleTri();
    hide Rule;
    forall n | n in StaleCache() ensures Run(Rule(OutsideDefault(), n), StaleCache(), map[]) == Some(StaleCache()[n]) {
    }
  }

  lemma StaleVis()
    ensures Run(Rule(OutsideDefault(), Vis(Cho(0))), StaleCache(), map[]) == Some(2)
    ensures Run(Rule(OutsideDefault(), Vis(Sym(0))), StaleCache(), map[]) == Some(0)
    ensures Run(Rule(OutsideDefault(), Vis(Sym(1))), StaleCache(), map[]) == Some(2)
  {
  }

  lemma StaleSelection()
    ensures Run(Rule(OutsideDefault(), Selection(0)), StaleCache(), map[]) == Some(0)
  {
  }

  lemma StaleTri()
    ensures Run(Rule(OutsideDefault(), Tri(1)), StaleCache(), map[]) == Some(0)
  {
  }

  /** What reading everything again would cache. */
  function NewCache(): Cache {
    map[Vis(Cho(0)) := 2, Selection(0) := 1, Vis(Sym(0)) := 2, Vis(Sym(1)) := 2, Tri(1) := 2]
  }

  lemma NewCacheOk()
    ensures CacheOk(OutsideDefault(), NewCache(), map[UserValue(Sym(1)) := 3])
  {
    var cfg, cache, user' := OutsideDefault(), NewCache(), map[UserValue(Sym(1)) := 3];
    assert Run(Rule(cfg, Vis(Cho(0))), cache, user') == Some(2);
    assert Run(Rule(cfg, Vis(Sym(0))), cache, user') == Some(2);
    assert Run(Rule(cfg, Vis(Sym(1))), cache, user') == Some(2);
    NewTri();
    NewSelection();
  }

  lemma NewSelection()
    ensures Run(Rule(OutsideDefault(), Selection(0)), NewCache(), map[UserValue(Sym(1)) := 3]) == Some(1)
  {
  }

  lemma NewTri()
    ensures Run(Rule(OutsideDefault(), Tri(1)), NewCache(), map[UserValue(Sym(1)) := 3]) == Some(2)
  {
  }

  /** Closed but for the dependents of i that are still to be visited. */
  ghost predicate AlmostClosed(cfg: Config, i: Item, dropped: set<Item>, pending: set<Item>, cache: Cache) {
    && pending <= Dependents(cfg, i)
    && (forall j, k :: j in dropped && k in Dependents(cfg, j) && !(j == i && k in pending) ==> Vis(k) !in cache)
    && (Sym(cfg.modules) in dropped ==> Items(cfg) <= dropped)
  }

  lemma AllDropped(cfg: Config, i: Item, cache: Cache)
    requires i == Sym(cfg.modules) && Defined(cfg, i)
    ensures i in Items(cfg) && Closed(cfg, Items(cfg), Keep(cache, Items(cfg)))
  {
  }

  lemma NoneVisited(cfg: Config, i: Item, cache: Cache)
    requires i != Sym(cfg.modules)
    ensures AlmostClosed(cfg, i, {i}, Dependents(cfg, i), Keep(cache, {i}))
  {
  }

  lemma NextVisited(cfg: Config, i: Item, dropped: set<Item>, pending: set<Item>, k: Item, cache: Cache)
    requires AlmostClosed(cfg, i, dropped, pending, cache) && k in pending
    ensures k in Dependents(cfg, i) && Defined(cfg, k)
    ensures Vis(k) !in cache ==> AlmostClosed(cfg, i, dropped, pending - {k}, cache)
  {
  }

  lemma DroppedMore(cfg: Config, i: Item, dropped: set<Item>, pending: set<Item>, k: Item, more: set<Item>,
      cache: Cache)
    requires AlmostClosed(cfg, i, dropped, pending, cache) && k in more && Closed(cfg, more, Keep(cache, more))
    ensures AlmostClosed(cfg, i, dropped + more, pending - {k}, Keep(cache, more))
  {
    hide Dependents, Items;
  }

  lemma AllVisited(cfg: Config, i: Item, dropped: set<Item>, cache: Cache)
    requires AlmostClosed(cfg, i, dropped, {}, cache)
    ensures Closed(cfg, dropped, cache)
  {
    hide Dependents, Items;
  }

  lemma KeptVis(cache: Cache, dropped: set<Item>, k: Item)
    requires Vis(k) in Keep(cache, dropped)
    ensures Vis(k) in cache && Keep(cache, dropped).Keys <= cache.Keys
  {
  }

  lemma KeepTwice(cache: Cache, a: set<Item>, b: set<Item>)
    ensures Keep(Keep(cache, a), b) == Keep(cache, a + b)
  {
  }

  lemma KeepSize(cache: Cache, a: set<Item>)
    ensures |Keep(cache, a)| <= |cache|
  {
    assert Keep(cache, a).Keys <= cache.Keys;
    SubsetSize(Keep(cache, a).Keys, cache.Keys);
  }

  lemma KeepLess(cache: Cache, k: Item)
    requires Vis(k) in cache
    ensures |Keep(cache, {k})| < |cache|
  {
    assert Keep(cache, {k}).Keys <= cache.Keys - {Vis(k)};
    SubsetSize(Keep(cache, {k}).Keys, cache.Keys - {Vis(k)});
  }
}
