/** Exactly when invalidation keeps every right cache right: when whatever a change of user values alters is found
    along what its own evaluation has read. */
module KconfigStale {
  import opened KconfigRules
  import opened KconfigCache

  // ----- what one evaluation reads -----

  /** All attributes that from-scratch evaluation of n reads, itself included. Settled symbols are n unread. */
  ghost function ReadsOf(cfg: Config, rank: Node -> nat, user: UserState, n: Node): set<Node>
    requires Ranked(cfg, rank)
    decreases rank(n), 1
  {
    if Settled(cfg, ItemOf(n)) then {n} else {n} + TermReads(cfg, rank, user, Rule(cfg, n), rank(n))
  }

  ghost function TermReads(cfg: Config, rank: Node -> nat, user: UserState, t: Term, bound: nat): set<Node>
    requires Ranked(cfg, rank) && Below(t, rank, bound)
    decreases bound, 0, t
  {
    match t
    case Lit(_) => {}
    case Get(n) => ReadsOf(cfg, rank, user, n)
    case User(_) => {}
    case Unary(_, a) => TermReads(cfg, rank, user, a, bound)
    case Strict(_, a, b) => TermReads(cfg, rank, user, a, bound) + TermReads(cfg, rank, user, b, bound)
    case Lazy(op, a, b) =>
      TermReads(cfg, rank, user, a, bound) +
      if Stops(op, Eval(cfg, rank, user, a, bound)) then {} else TermReads(cfg, rank, user, b, bound)
    case Ite(c, a, b) =>
      TermReads(cfg, rank, user, c, bound) +
      if Eval(cfg, rank, user, c, bound) != 0 then TermReads(cfg, rank, user, a, bound)
      else TermReads(cfg, rank, user, b, bound)
  }

  /** The cache with the values of what evaluating n reads. */
  ghost function ReadCache(cfg: Config, rank: Node -> nat, user: UserState, n: Node): Cache
    requires Ranked(cfg, rank)
  {
    map m | m in ReadsOf(cfg, rank, user, n) :: Fresh(cfg, rank, user, m)
  }

  ghost predicate AllFresh(cfg: Config, rank: Node -> nat, cache: Cache, user: UserState)
    requires Ranked(cfg, rank)
  {
    forall n :: n in cache ==> cache[n] == Fresh(cfg, rank, user, n)
  }

  // ----- that cache is right, and every right cache with n contains it -----

  lemma {:induction false} ReadsClosed(cfg: Config, rank: Node -> nat, user: UserState, n: Node, m: Node)
    requires Ranked(cfg, rank) && m in ReadsOf(cfg, rank, user, n)
    ensures ReadsOf(cfg, rank, user, m) <= ReadsOf(cfg, rank, user, n)
    decreases rank(n), 1
  {
    hide Rule;
    if m != n {
      TermReadsClosed(cfg, rank, user, Rule(cfg, n), rank(n), m);
    }
  }

  lemma {:induction false} TermReadsClosed(cfg: Config, rank: Node -> nat, user: UserState, t: Term, bound: nat,
      m: Node)
    requires Ranked(cfg, rank) && Below(t, rank, bound) && m in TermReads(cfg, rank, user, t, bound)
    ensures ReadsOf(cfg, rank, user, m) <= TermReads(cfg, rank, user, t, bound)
    decreases bound, 0, t
  {
    hide Ranked, Rule;
    match t
    case Get(n) => ReadsClosed(cfg, rank, user, n, m);
    case Unary(_, a) => TermReadsClosed(cfg, rank, user, a, bound, m);
    case Strict(_, a, b) =>
      TermReadsClosed(cfg, rank, user, if m in TermReads(cfg, rank, user, a, bound) then a else b, bound, m);
    case Lazy(_, a, b) =>
      TermReadsClosed(cfg, rank, user, if m in TermReads(cfg, rank, user, a, bound) then a else b, bound, m);
    case Ite(c, a, b) =>
      var taken := if Eval(cfg, rank, user, c, bound) != 0 then a else b;
      TermReadsClosed(cfg, rank, user, if m in TermReads(cfg, rank, user, c, bound) then c else taken, bound, m);
  }

  /** A term runs on any cache that has what it reads. */
  lemma {:induction false} RunsOnReads(cfg: Config, rank: Node -> nat, user: UserState, t: Term, bound: nat,
      cache: Cache)
    requires Ranked(cfg, rank) && Below(t, rank, bound) && AllFresh(cfg, rank, cache, user)
    requires TermReads(cfg, rank, user, t, bound) <= cache.Keys
    ensures Run(t, cache, user) == Some(Eval(cfg, rank, user, t, bound))
  {
    hide Ranked, Rule, ApplyUnary, ApplyStrict, ApplyLazy, Stops, Fresh;
    match t
    case Lit(_) | User(_) =>
    case Get(n) => assert n in ReadsOf(cfg, rank, user, n);
    case Unary(_, a) => RunsOnReads(cfg, rank, user, a, bound, cache);
    case Strict(_, a, b) =>
      RunsOnReads(cfg, rank, user, a, bound, cache);
      RunsOnReads(cfg, rank, user, b, bound, cache);
    case Lazy(op, a, b) =>
      RunsOnReads(cfg, rank, user, a, bound, cache);
      if !Stops(op, Eval(cfg, rank, user, a, bound)) { RunsOnReads(cfg, rank, user, b, bound, cache); }
    case Ite(c, a, b) =>
      RunsOnReads(cfg, rank, user, c, bound, cache);
      RunsOnReads(cfg, rank, user, if Eval(cfg, rank, user, c, bound) != 0 then a else b, bound, cache);
  }

  lemma ReadCacheOk(cfg: Config, rank: Node -> nat, user: UserState, n: Node)
    requires Ranked(cfg, rank)
    ensures n in ReadCache(cfg, rank, user, n) && CacheOk(cfg, ReadCache(cfg, rank, user, n), user)
  {
    var cache := ReadCache(cfg, rank, user, n);
    forall m | m in cache ensures EntryOk(cfg, cache, user, m) {
      hide Rule, Settled;
      if Settled(cfg, ItemOf(m)) {
        SettledIsFresh(cfg, rank, user, m);
      } else {
        ReadsClosed(cfg, rank, user, n, m);
        RunsOnReads(cfg, rank, user, Rule(cfg, m), rank(m), cache);
        if !IsConstant(cfg, m) { RuleReadsVisibility(cfg, m, cache, user); }
      }
    }
  }

  lemma {:induction false} ReadsAreCached(cfg: Config, rank: Node -> nat, user: UserState, cache: Cache, n: Node)
    requires Ranked(cfg, rank) && CacheOk(cfg, cache, user) && n in cache
    ensures ReadsOf(cfg, rank, user, n) <= cache.Keys
    decreases rank(n), 1
  {
    hide Rule, Settled;
    assert EntryOk(cfg, cache, user, n);
    if !Settled(cfg, ItemOf(n)) {
      TermReadsAreCached(cfg, rank, user, cache, Rule(cfg, n), rank(n));
    }
  }

  lemma {:induction false} TermReadsAreCached(cfg: Config, rank: Node -> nat, user: UserState, cache: Cache, t: Term,
      bound: nat)
    requires Ranked(cfg, rank) && Below(t, rank, bound) && CacheOk(cfg, cache, user) && Run(t, cache, user).Some?
    ensures TermReads(cfg, rank, user, t, bound) <= cache.Keys
    ensures Run(t, cache, user) == Some(Eval(cfg, rank, user, t, bound))
    decreases bound, 0, t
  {
    hide Ranked, CacheOk, Rule, ApplyUnary, ApplyStrict, ApplyLazy, Stops, Fresh;
    match t
    case Lit(_) | User(_) =>
    case Get(n) =>
      CachedIsFresh(cfg, rank, cache, user, n);
      ReadsAreCached(cfg, rank, user, cache, n);
    case Unary(_, a) => TermReadsAreCached(cfg, rank, user, cache, a, bound);
    case Strict(_, a, b) =>
      TermReadsAreCached(cfg, rank, user, cache, a, bound);
      TermReadsAreCached(cfg, rank, user, cache, b, bound);
    case Lazy(op, a, b) =>
      TermReadsAreCached(cfg, rank, user, cache, a, bound);
      if !Stops(op, Eval(cfg, rank, user, a, bound)) { TermReadsAreCached(cfg, rank, user, cache, b, bound); }
    case Ite(c, a, b) =>
      TermReadsAreCached(cfg, rank, user, cache, c, bound);
      TermReadsAreCached(cfg, rank, user, cache, if Eval(cfg, rank, user, c, bound) != 0 then a else b, bound);
  }

  // ----- exactly when a change of user values is found -----

  /** The more is cached, the more invalidation finds. */
  lemma DropsMore(cfg: Config, cache: Cache, more: Cache, i: Item, k: Item)
    requires cache.Keys <= more.Keys && Drops(cfg, cache, i, k)
    ensures Drops(cfg, more, i, k)
  {
    forall j | Finds(cfg, cache, i, j) ensures Finds(cfg, more, i, j) {
      var p :| Route(cfg, i, j, p) && Shown(cache, p);
      assert Shown(more, p);
    }
  }

  /** Invalidating item i finds attribute n along what evaluating n has read. */
  ghost predicate FoundAlongReads(cfg: Config, rank: Node -> nat, user: UserState, i: Item, n: Node)
    requires Ranked(cfg, rank)
  {
    Drops(cfg, ReadCache(cfg, rank, user, n), i, ItemOf(n))
  }

  /** Whatever the configuration, and however the user values have changed: invalidating item i makes every right
      cache right again exactly when each attribute keeps its value or is found along its own reads. */
  lemma InvalidationExact(cfg: Config, rank: Node -> nat, user: UserState, user': UserState, i: Item)
    requires Ranked(cfg, rank)
    ensures (forall cache :: CacheOk(cfg, cache, user) ==> AllFresh(cfg, rank, Invalidated(cfg, cache, i), user')) <==>
      (forall n :: FoundAlongReads(cfg, rank, user, i, n) || Fresh(cfg, rank, user', n) == Fresh(cfg, rank, user, n))
  {
    hide Drops, CacheOk, Rule, Ranked, Fresh, ReadsOf;
    if forall n :: FoundAlongReads(cfg, rank, user, i, n) || Fresh(cfg, rank, user', n) == Fresh(cfg, rank, user, n) {
      forall cache | CacheOk(cfg, cache, user) ensures AllFresh(cfg, rank, Invalidated(cfg, cache, i), user') {
        forall n | n in Invalidated(cfg, cache, i) ensures cache[n] == Fresh(cfg, rank, user', n) {
          CachedIsFresh(cfg, rank, cache, user, n);
          ReadsAreCached(cfg, rank, user, cache, n);
          if FoundAlongReads(cfg, rank, user, i, n) {
            DropsMore(cfg, ReadCache(cfg, rank, user, n), cache, i, ItemOf(n));
          }
        }
      }
    }
    if forall cache :: CacheOk(cfg, cache, user) ==> AllFresh(cfg, rank, Invalidated(cfg, cache, i), user') {
      forall n | !FoundAlongReads(cfg, rank, user, i, n)
        ensures Fresh(cfg, rank, user', n) == Fresh(cfg, rank, user, n)
      {
        var cache := ReadCache(cfg, rank, user, n);
        ReadCacheOk(cfg, rank, user, n);
        assert n in Invalidated(cfg, cache, i);
      }
    }
  }

  // ----- leading to the choice is not enough -----

  /** As OutsideDefault, and the choice mentions symbol 2, a string whose prompt depends on symbol 1. */
  function LazyLead(): Config {
    Config(
      [Symbol(Bool, [Leaf(Sym(1))], [], Const(0), Const(0), Const(2), -1),
       Symbol(Bool, [Const(2)], [], Const(0), Const(0), Const(2), -1),
       Symbol(NonLogic, [Leaf(Sym(1))], [], Const(0), Const(0), Const(2), -1)],
      [Choice(Bool, false, [Const(2)], [ChoiceDefault(0, Or(Leaf(Sym(2)), Const(2)))], [])],
      7)
  }

  function LazyRank(n: Node): nat {
    match n
    case Vis(Sym(s)) => if s == 0 then 2 else if s == 2 then 9 else 0
    case Vis(Cho(_)) => 0
    case Tri(s) => if s == 0 then 3 else if s == 2 then 0 else 1
    case Selection(_) => 3
    case Assignable(_) => 4
  }

  lemma LazyTriRanked(s: nat)
    ensures Below(Rule(LazyLead(), Tri(s)), LazyRank, LazyRank(Tri(s)))
  {
    hide Below;
    BelowParts(LazyRank, LazyRank(Tri(s)));
  }

  lemma LazyVisRanked(s: nat)
    ensures Below(Rule(LazyLead(), Vis(Sym(s))), LazyRank, LazyRank(Vis(Sym(s))))
  {
    hide Below;
    BelowParts(LazyRank, LazyRank(Vis(Sym(s))));
  }

  lemma LazyAssignableRanked(s: nat)
    ensures Below(Rule(LazyLead(), Assignable(Sym(s))), LazyRank, 4)
  {
    hide Below;
    BelowParts(LazyRank, 4);
  }

  lemma LazyModeRanked(bound: nat)
    requires bound > 0
    ensures Below(ChoiceTri(LazyLead(), 0), LazyRank, bound)
  {
    hide Below;
    BelowParts(LazyRank, bound);
  }

  lemma LazySelectionRanked(c: nat)
    ensures Below(Rule(LazyLead(), Selection(c)), LazyRank, 3)
  {
    hide Below, ChoiceTri;
    BelowParts(LazyRank, 3);
    if c == 0 {
      LazyModeRanked(3);
      assert DefaultSelection(LazyLead(), LazyLead().choices[0].defaults[1..], []) == Lit(0);
    }
  }

  lemma LazyChoiceRanked(n: Node)
    requires ItemOf(n).Cho? && !n.Selection?
    ensures Below(Rule(LazyLead(), n), LazyRank, LazyRank(n))
  {
    hide DefaultSelection, ChoiceTri;
  }

  lemma LazyRanked()
    ensures Ranked(LazyLead(), LazyRank)
  {
    forall n ensures Below(Rule(LazyLead(), n), LazyRank, LazyRank(n)) {
      match n
      case Tri(s) => LazyTriRanked(s);
      case Vis(Sym(s)) => LazyVisRanked(s);
      case Assignable(Sym(s)) => LazyAssignableRanked(s);
      case Selection(c) => LazySelectionRanked(c);
      case _ => LazyChoiceRanked(n);
    }
  }

  /** What reading the selection caches, and what reading it again from scratch would cache. */
  function LazyCache(vis: nat, picked: nat): Cache {
    map[Vis(Cho(0)) := 2, Selection(0) := picked, Vis(Sym(0)) := vis, Vis(Sym(1)) := 2, Tri(1) := vis, Tri(2) := 0]
  }

  /** Symbol 1 unset, or set to y. */
  function LazyUser(y: bool): UserState {
    if y then map[UserValue(Sym(1)) := 3] else map[]
  }

  lemma LazyPrompt(e: Expr, cache: Cache, user: UserState, v: nat)
    requires Run(Value(LazyLead(), e), cache, user) == Some(v)
    ensures v != 1 ==> Run(Promote(PromptVisibility(LazyLead(), [e]), Lit(2)), cache, user) == Some(v)
  {
    var rest := PromptVisibility(LazyLead(), []);
    assert rest == Lit(0) && [e][1..] == [];
    assert PromptVisibility(LazyLead(), [e]) == Maximum(Value(LazyLead(), e), rest);
    assert Run(PromptVisibility(LazyLead(), [e]), cache, user) == Some(v);
  }

  lemma LazyVis(y: bool)
    ensures var v, picked := if y then 2 else 0, if y then 1 else 0; var cache := LazyCache(v, picked);
      && Run(Rule(LazyLead(), Vis(Cho(0))), cache, LazyUser(y)) == Some(2)
      && Run(Rule(LazyLead(), Vis(Sym(0))), cache, LazyUser(y)) == Some(v)
      && Run(Rule(LazyLead(), Vis(Sym(1))), cache, LazyUser(y)) == Some(2)
      && Rule(LazyLead(), Tri(2)) == Lit(0)
  {
    var v, picked := if y then 2 else 0, if y then 1 else 0;
    LazyPrompt(Const(2), LazyCache(v, picked), LazyUser(y), 2);
    LazyPrompt(Leaf(Sym(1)), LazyCache(v, picked), LazyUser(y), v);
    hide PromptVisibility;
  }

  lemma LazyTri(y: bool)
    ensures var v, picked := if y then 2 else 0, if y then 1 else 0;
      Run(Rule(LazyLead(), Tri(1)), LazyCache(v, picked), LazyUser(y)) == Some(v)
  {
    var v, picked := if y then 2 else 0, if y then 1 else 0;
    var cfg, cache, user, vis := LazyLead(), LazyCache(v, picked), LazyUser(y), Get(Vis(Sym(1)));
    var implied := Ite(Lit(0), Ite(Lit(2), Maximum(Lit(0), Lit(0)), Lit(0)), Lit(0));
    var chosen := Ite(vis, User(UserValue(Sym(1))), Lit(0));
    var base := Ite(chosen, Minimum(UserTri(Sym(1)), vis), implied);
    var selected := Ite(Lit(0), Then(Lit(2), Maximum(Lit(0), base)), base);
    assert Rule(cfg, Tri(1)) == Promote(selected, Boolish(cfg, 1));
    assert Run(chosen, cache, user) == Some(if y then 3 else 0) && Run(implied, cache, user) == Some(0);
    assert y ==> Run(Minimum(UserTri(Sym(1)), vis), cache, user) == Some(2);
    assert Run(base, cache, user) == Some(v);
    assert Run(selected, cache, user) == Some(v);
  }

  lemma LazySelection(y: bool)
    ensures var v, picked := if y then 2 else 0, if y then 1 else 0;
      Run(Rule(LazyLead(), Selection(0)), LazyCache(v, picked), LazyUser(y)) == Some(picked)
  {
    var v, picked := if y then 2 else 0, if y then 1 else 0;
    var cfg, cache, user := LazyLead(), LazyCache(v, picked), LazyUser(y);
    var ch := cfg.choices[0];
    var cond := LazyOr(Get(Tri(2)), Lit(2));
    assert Value(cfg, ch.defaults[0].cond) == cond && Run(cond, cache, user) == Some(2);
    var none := DefaultSelection(cfg, [], []);
    assert none == Lit(0) && ch.defaults[1..] == [];
    var byDefault := DefaultSelection(cfg, ch.defaults, []);
    var shown := Ite(Get(Vis(Sym(0))), Lit(1), none);
    assert byDefault == Ite(cond, shown, none) && Run(shown, cache, user) == Some(picked);
    assert Run(byDefault, cache, user) == Some(picked);
    assert Run(ChoiceTri(cfg, 0), cache, user) == Some(2) by {
      var wish := Ite(User(UserValue(Cho(0))), Maximum(Lit(1), UserTri(Cho(0))), Lit(1));
      assert Run(wish, cache, user) == Some(1);
      assert Run(Minimum(wish, Get(Vis(Cho(0)))), cache, user) == Some(1);
    }
    hide ChoiceTri, DefaultSelection;
    assert Run(Is(ChoiceTri(cfg, 0), 2), cache, user) == Some(2);
    assert Rule(cfg, Selection(0)) == Ite(Is(ChoiceTri(cfg, 0), 2), UserSelected(0, [], byDefault), Lit(0));
  }

  lemma LazyCacheOk(y: bool)
    ensures CacheOk(LazyLead(), LazyCache(if y then 2 else 0, if y then 1 else 0), LazyUser(y))
  {
    LazyVis(y);
    LazyTri(y);
    LazySelection(y);
    hide Rule;
    var cache := LazyCache(if y then 2 else 0, if y then 1 else 0);
    forall n | n in cache ensures Run(Rule(LazyLead(), n), cache, LazyUser(y)) == Some(cache[n]) {
    }
  }

  lemma {:induction false} FindsWithin(cfg: Config, cache: Cache, k: Item, p: seq<Item>, items: set<Item>)
    requires p != [] && Route(cfg, p[0], k, p) && Shown(cache, p) && p[0] in items
    requires forall j, m :: j in items && m in Dependents(cfg, j) && Vis(m) in cache ==> m in items
    ensures k in items
    decreases |p|
  {
    if |p| > 1 {
      assert p[1] in Dependents(cfg, p[0]) && Vis(p[1]) in cache;
      FindsWithin(cfg, cache, k, p[1..], items);
    }
  }

  lemma LazyDependents()
    ensures Dependents(LazyLead(), Sym(0)) == {} && Dependents(LazyLead(), Sym(1)) == {Sym(0), Sym(2)}
    ensures Cho(0) in Dependents(LazyLead(), Sym(2))
  {
    var cfg := LazyLead();
    assert Mentions(cfg.syms[0].prompts[0], Sym(1)) && Mentions(cfg.syms[2].prompts[0], Sym(1));
    assert Mentions(cfg.choices[0].defaults[0].cond, Sym(2));
  }

  /** Symbol 1 leads to the choice by way of symbol 2, whose visibility nothing has read. */
  lemma LedToButNotFound(cache: Cache)
    requires Vis(Sym(2)) !in cache
    ensures Affected(LazyLead(), Sym(1), Cho(0)) && !Drops(LazyLead(), cache, Sym(1), Cho(0))
  {
    hide Dependents;
    var cfg := LazyLead();
    LazyDependents();
    assert Route(cfg, Sym(1), Cho(0), [Sym(1), Sym(2), Cho(0)]);
    forall k | k == Cho(0) || k == Sym(7) ensures !Finds(cfg, cache, Sym(1), k) {
      if p :| Route(cfg, Sym(1), k, p) && Shown(cache, p) {
        FindsWithin(cfg, cache, k, p, {Sym(0), Sym(1)});
      }
    }
  }

  /** The selection is read, symbol 1 is set to y, which leads to the choice, and the selection is still read as none,
      although from-scratch evaluation now gives symbol 0. */
  method LedToAndStale() returns (after: nat)
    ensures Ranked(LazyLead(), LazyRank) && Affected(LazyLead(), Sym(1), Cho(0)) && after == 0
    ensures Fresh(LazyLead(), LazyRank, LazyUser(true), Selection(0)) == 1
  {
    hide Rule, CacheOk, Affected, Drops;
    LazyRanked();
    var k := new Kconfig(LazyLead(), LazyRank);
    LazyCacheOk(false);
    LazyCacheOk(true);
    hide Ranked;
    CachedIsFresh(k.cfg, LazyRank, LazyCache(0, 0), LazyUser(false), Selection(0));
    CachedIsFresh(k.cfg, LazyRank, LazyCache(2, 1), LazyUser(true), Selection(0));
    var before := k.GetValue(Selection(0));
    LedToButNotFound(k.cache);
    var ok := k.SetValue(1, 2);
    after := k.GetValue(Selection(0));
  }
}
