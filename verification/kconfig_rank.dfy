/** When evaluation ends: what loop detection checks, what evaluation reads, and the gap between the two, which
    is the read of MODULES by the type of every tristate symbol. */
module KconfigRank {
  import opened KconfigRules
  import opened KconfigCache
  import L = KconfigLoops

  // ----- the two graphs of a configuration without choices -----

  predicate ChoiceFree(cfg: Config) {
    cfg.choices == [] && forall s :: 0 <= s < |cfg.syms| ==> cfg.syms[s].choice < 0
  }

  predicate AllLogic(cfg: Config) {
    forall s :: 0 <= s < |cfg.syms| ==> IsLogic(cfg.syms[s].kind)
  }

  /** Symbol s is in the `_dependents` of symbol j. */
  predicate Recorded(cfg: Config, j: nat, s: nat) {
    DependsOn(cfg, Sym(s), Sym(j))
  }

  /** The value of symbol s may be read off that of symbol j: by a recorded dependency, or as MODULES. */
  predicate Reads(cfg: Config, j: nat, s: nat) {
    && s < |cfg.syms| && IsLogic(cfg.syms[s].kind)
    && (Recorded(cfg, j, s) || (cfg.syms[s].kind == Tristate && j == cfg.modules))
  }

  function Recordings(cfg: Config, j: nat, n: nat): (r: seq<nat>)
    ensures forall s: nat :: s in r <==> s < n && Recorded(cfg, j, s)
  {
    if n == 0 then [] else Recordings(cfg, j, n - 1) + if Recorded(cfg, j, n - 1) then [n - 1] else []
  }

  function Readers(cfg: Config, j: nat, n: nat): (r: seq<nat>)
    ensures forall s: nat :: s in r <==> s < n && Reads(cfg, j, s)
  {
    if n == 0 then [] else Readers(cfg, j, n - 1) + if Reads(cfg, j, n - 1) then [n - 1] else []
  }

  /** The graph that is searched for loops after loading. */
  function RecordedGraph(cfg: Config): (g: L.Graph)
    ensures |g| == |cfg.syms| && L.WellFormed(g)
    ensures forall j: nat, s: nat :: L.Edge(g, j, s) <==> j < |g| && s < |g| && Recorded(cfg, j, s)
  {
    var g: L.Graph := seq(|cfg.syms|, j requires 0 <= j < |cfg.syms| => Recordings(cfg, j, |cfg.syms|));
    assert forall u, k :: 0 <= u < |g| && 0 <= k < |g[u]| ==> g[u][k] in g[u];
    g
  }

  /** The graph along which evaluation goes. */
  function ReadGraph(cfg: Config): (g: L.Graph)
    ensures |g| == |cfg.syms| && L.WellFormed(g)
    ensures forall j: nat, s: nat :: L.Edge(g, j, s) <==> j < |g| && s < |g| && Reads(cfg, j, s)
  {
    var g: L.Graph := seq(|cfg.syms|, j requires 0 <= j < |cfg.syms| => Readers(cfg, j, |cfg.syms|));
    assert forall u, k :: 0 <= u < |g| && 0 <= k < |g[u]| ==> g[u][k] in g[u];
    g
  }

  // ----- from an order to a rank -----

  /** A height for every symbol, above that of all it reads. */
  ghost predicate Climbs(cfg: Config, height: nat -> nat) {
    forall j: nat, s: nat :: j < |cfg.syms| && s < |cfg.syms| && Reads(cfg, j, s) ==> height(j) < height(s)
  }

  /** Values of logic symbols rank by height, visibilities just below them, the rest above or at the bottom. */
  function RankBy(cfg: Config, height: nat -> nat, n: Node): nat {
    match n
    case Tri(s) => if s < |cfg.syms| && IsLogic(cfg.syms[s].kind) then 2 * height(s) + 2 else 0
    case Vis(Sym(s)) =>
      if s < |cfg.syms| && !IsLogic(cfg.syms[s].kind) then PromptTop(cfg, height) else 2 * HeightOf(cfg, height, s) + 1
    case Vis(Cho(_)) => 0
    case Assignable(Sym(s)) => 2 * HeightOf(cfg, height, s) + 3
    case Assignable(Cho(_)) => 0
    case Selection(_) => 0
  }

  function HeightOf(cfg: Config, height: nat -> nat, s: nat): nat {
    if s < |cfg.syms| then height(s) else 0
  }

  /** Above the value of every symbol: nothing reads the visibility of a symbol that is not of logic type. */
  function PromptTop(cfg: Config, height: nat -> nat): nat {
    Above(height, |cfg.syms|)
  }

  function Above(height: nat -> nat, n: nat): (r: nat)
    ensures forall s: nat :: s < n ==> 2 * height(s) + 2 < r
    ensures r > 0
  {
    if n == 0 then 1
    else
      var r := Above(height, n - 1);
      if 2 * height(n - 1) + 2 < r then r else 2 * height(n - 1) + 3
  }

  lemma {:induction false} ValueBelow(cfg: Config, rank: Node -> nat, e: Expr, bound: nat)
    requires cfg.choices == [] && forall c: nat :: rank(Vis(Cho(c))) < bound
    requires forall j: nat :: Mentions(e, Sym(j)) ==> rank(Tri(j)) < bound
    ensures Below(Value(cfg, e), rank, bound)
  {
    match e
    case Const(_) =>
    case Leaf(Sym(j)) => assert Mentions(e, Sym(j));
    case Leaf(Cho(c)) => ChoiceBelow(cfg, rank, c, bound);
    case And(l, r) => ValueBelow(cfg, rank, l, bound); ValueBelow(cfg, rank, r, bound);
    case Or(l, r) => ValueBelow(cfg, rank, l, bound); ValueBelow(cfg, rank, r, bound);
    case Not(f) => ValueBelow(cfg, rank, f, bound);
    case Rel(_, a, b) => ValueBelow(cfg, rank, a, bound); ValueBelow(cfg, rank, b, bound);
  }

  lemma ChoiceBelow(cfg: Config, rank: Node -> nat, c: nat, bound: nat)
    requires cfg.choices == [] && rank(Vis(Cho(c))) < bound
    ensures Below(ChoiceTri(cfg, c), rank, bound)
  {
    var least := Lit(1);
    var wanted := Ite(User(UserValue(Cho(c))), Maximum(least, UserTri(Cho(c))), least);
    assert Below(UserTri(Cho(c)), rank, bound);
    assert Below(Maximum(least, UserTri(Cho(c))), rank, bound);
    assert Below(wanted, rank, bound);
    assert Below(Minimum(wanted, Get(Vis(Cho(c)))), rank, bound);
    assert ChoiceTri(cfg, c) == Promote(Minimum(wanted, Get(Vis(Cho(c)))), Lit(0));
  }

  lemma {:induction false} MentionedBelow(cfg: Config, rank: Node -> nat, e: Expr, bound: nat, j: nat)
    requires Below(Value(cfg, e), rank, bound) && Mentions(e, Sym(j))
    ensures rank(Tri(j)) < bound
  {
    match e
    case Leaf(_) =>
    case And(l, r) =>
      if Mentions(l, Sym(j)) {
        MentionedBelow(cfg, rank, l, bound, j);
      } else {
        MentionedBelow(cfg, rank, r, bound, j);
      }
    case Or(l, r) =>
      if Mentions(l, Sym(j)) {
        MentionedBelow(cfg, rank, l, bound, j);
      } else {
        MentionedBelow(cfg, rank, r, bound, j);
      }
    case Not(f) => MentionedBelow(cfg, rank, f, bound, j);
    case Rel(_, a, b) =>
      if Mentions(a, Sym(j)) {
        MentionedBelow(cfg, rank, a, bound, j);
      } else {
        MentionedBelow(cfg, rank, b, bound, j);
      }
  }

  lemma {:induction false} PromptsBelow(cfg: Config, rank: Node -> nat, prompts: seq<Expr>, bound: nat)
    requires cfg.choices == [] && forall c: nat :: rank(Vis(Cho(c))) < bound
    requires forall k, j: nat :: 0 <= k < |prompts| && Mentions(prompts[k], Sym(j)) ==> rank(Tri(j)) < bound
    ensures Below(PromptVisibility(cfg, prompts), rank, bound)
  {
    if prompts != [] {
      ValueBelow(cfg, rank, prompts[0], bound);
      PromptsBelow(cfg, rank, prompts[1..], bound);
    }
  }

  lemma {:induction false} PromptMentionedBelow(cfg: Config, rank: Node -> nat, prompts: seq<Expr>, bound: nat,
      k: nat, j: nat)
    requires Below(PromptVisibility(cfg, prompts), rank, bound) && k < |prompts| && Mentions(prompts[k], Sym(j))
    ensures rank(Tri(j)) < bound
  {
    if k == 0 {
      MentionedBelow(cfg, rank, prompts[0], bound, j);
    } else {
      PromptMentionedBelow(cfg, rank, prompts[1..], bound, k - 1, j);
    }
  }

  lemma {:induction false} DefaultsBelow(cfg: Config, rank: Node -> nat, defaults: seq<Default>, bound: nat)
    requires cfg.choices == [] && forall c: nat :: rank(Vis(Cho(c))) < bound
    requires forall k, j: nat ::
      0 <= k < |defaults| && (Mentions(defaults[k].value, Sym(j)) || Mentions(defaults[k].cond, Sym(j))) ==>
        rank(Tri(j)) < bound
    ensures Below(FirstDefault(cfg, defaults), rank, bound)
  {
    if defaults != [] {
      ValueBelow(cfg, rank, defaults[0].value, bound);
      ValueBelow(cfg, rank, defaults[0].cond, bound);
      DefaultsBelow(cfg, rank, defaults[1..], bound);
    }
  }

  lemma {:induction false} DefaultMentionedBelow(cfg: Config, rank: Node -> nat, defaults: seq<Default>, bound: nat,
      k: nat, j: nat)
    requires Below(FirstDefault(cfg, defaults), rank, bound) && k < |defaults|
    requires Mentions(defaults[k].value, Sym(j)) || Mentions(defaults[k].cond, Sym(j))
    ensures rank(Tri(j)) < bound
  {
    if k > 0 {
      DefaultMentionedBelow(cfg, rank, defaults[1..], bound, k - 1, j);
    } else if Mentions(defaults[0].value, Sym(j)) {
      MentionedBelow(cfg, rank, defaults[0].value, bound, j);
    } else {
      MentionedBelow(cfg, rank, defaults[0].cond, bound, j);
    }
  }

  /** What the rules of symbol s may read besides its own visibility ranks below the bound. */
  ghost predicate InputsBelow(cfg: Config, rank: Node -> nat, s: nat, bound: nat) {
    && (forall j: nat :: Recorded(cfg, j, s) ==> rank(Tri(j)) < bound)
    && (SymbolOf(cfg, s).kind == Tristate ==> rank(Tri(cfg.modules)) < bound)
    && (forall c: nat :: rank(Vis(Cho(c))) < bound)
  }

  lemma ModulesBelow(cfg: Config, rank: Node -> nat, s: nat, bound: nat)
    requires ChoiceFree(cfg) && s < |cfg.syms| && InputsBelow(cfg, rank, s, bound)
    ensures Below(SymbolIsBool(cfg, s), rank, bound) && Below(NotTristate(cfg, Sym(s)), rank, bound)
  {
  }

  lemma VisibilityBelow(cfg: Config, rank: Node -> nat, s: nat, bound: nat)
    requires ChoiceFree(cfg) && s < |cfg.syms| && InputsBelow(cfg, rank, s, bound)
    ensures Below(VisibilityRule(cfg, Sym(s)), rank, bound)
  {
    var sym := SymbolOf(cfg, s);
    forall k, j: nat | 0 <= k < |sym.prompts| && Mentions(sym.prompts[k], Sym(j)) ensures rank(Tri(j)) < bound {
      assert Recorded(cfg, j, s);
    }
    PromptsBelow(cfg, rank, sym.prompts, bound);
    ModulesBelow(cfg, rank, s, bound);
  }

  lemma ExpressionsBelow(cfg: Config, rank: Node -> nat, s: nat, bound: nat)
    requires ChoiceFree(cfg) && s < |cfg.syms| && InputsBelow(cfg, rank, s, bound)
    ensures var sym := SymbolOf(cfg, s);
      && Below(Value(cfg, sym.directDep), rank, bound) && Below(Value(cfg, sym.revDep), rank, bound)
      && Below(Value(cfg, sym.weakRevDep), rank, bound) && Below(FirstDefault(cfg, sym.defaults), rank, bound)
  {
    var sym := SymbolOf(cfg, s);
    forall j: nat | Mentions(sym.directDep, Sym(j)) || Mentions(sym.revDep, Sym(j)) || Mentions(sym.weakRevDep, Sym(j))
      ensures rank(Tri(j)) < bound
    {
      assert Recorded(cfg, j, s);
    }
    forall k, j: nat | 0 <= k < |sym.defaults|
      && (Mentions(sym.defaults[k].value, Sym(j)) || Mentions(sym.defaults[k].cond, Sym(j)))
      ensures rank(Tri(j)) < bound
    {
      assert Recorded(cfg, j, s);
    }
    ValueBelow(cfg, rank, sym.directDep, bound);
    ValueBelow(cfg, rank, sym.revDep, bound);
    ValueBelow(cfg, rank, sym.weakRevDep, bound);
    DefaultsBelow(cfg, rank, sym.defaults, bound);
  }

  lemma BoolishBelow(cfg: Config, rank: Node -> nat, s: nat, bound: nat)
    requires ChoiceFree(cfg) && s < |cfg.syms| && InputsBelow(cfg, rank, s, bound)
    ensures Below(Boolish(cfg, s), rank, bound)
  {
    ExpressionsBelow(cfg, rank, s, bound);
    ModulesBelow(cfg, rank, s, bound);
    hide Value, SymbolIsBool;
    var weak := Value(cfg, SymbolOf(cfg, s).weakRevDep);
    assert Below(Is(weak, 2), rank, bound);
    assert Boolish(cfg, s) == LazyOr(SymbolIsBool(cfg, s), Is(weak, 2));
  }

  lemma GetBelow(rank: Node -> nat, n: Node, bound: nat)
    requires rank(n) < bound
    ensures Below(Get(n), rank, bound) && Below(Is(Get(n), 2), rank, bound)
  {
    assert Below(Get(n), rank, bound) && Below(Lit(2), rank, bound);
  }

  lemma UserTriBelow(rank: Node -> nat, i: Item, bound: nat)
    ensures Below(UserTri(i), rank, bound)
  {
  }

  lemma TriBelow(cfg: Config, rank: Node -> nat, s: nat, bound: nat)
    requires ChoiceFree(cfg) && s < |cfg.syms| && InputsBelow(cfg, rank, s, bound) && rank(Vis(Sym(s))) < bound
    ensures Below(TriRule(cfg, s), rank, bound) && Below(SymbolAssignableRule(cfg, s), rank, bound)
  {
    hide Value, FirstDefault, Boolish, Recorded;
    ExpressionsBelow(cfg, rank, s, bound);
    BoolishBelow(cfg, rank, s, bound);
    var sym := SymbolOf(cfg, s);
    var vis := Get(Vis(Sym(s)));
    var direct, dflt := Value(cfg, sym.directDep), FirstDefault(cfg, sym.defaults);
    var weak, rev := Value(cfg, sym.weakRevDep), Value(cfg, sym.revDep);
    var implied := Ite(weak, Ite(direct, Maximum(weak, dflt), dflt), dflt);
    var base := Ite(Ite(vis, User(UserValue(Sym(s))), Lit(0)), Minimum(UserTri(Sym(s)), vis), implied);
    assert Below(Ite(direct, Maximum(weak, dflt), dflt), rank, bound);
    GetBelow(rank, Vis(Sym(s)), bound);
    UserTriBelow(rank, Sym(s), bound);
    assert Below(implied, rank, bound);
    assert Below(Ite(vis, User(UserValue(Sym(s))), Lit(0)), rank, bound);
    assert Below(Minimum(UserTri(Sym(s)), vis), rank, bound);
    assert Below(base, rank, bound);
    assert Below(Then(direct, Maximum(rev, base)), rank, bound);
    assert Below(Is(weak, 2), rank, bound);
    assert Below(Is(vis, 2), rank, bound) && Below(Is(rev, 2), rank, bound);
    var inY := Ite(rev, Ite(Is(rev, 2), Lit(Y), Ite(Boolish(cfg, s), Lit(Y), Lit(MY))),
      Ite(Boolish(cfg, s), Lit(NY), Lit(NMY)));
    assert Below(Ite(Boolish(cfg, s), Lit(Y), Lit(MY)), rank, bound);
    assert Below(Ite(Boolish(cfg, s), Lit(NY), Lit(NMY)), rank, bound);
    assert Below(Ite(Is(rev, 2), Lit(Y), Ite(Boolish(cfg, s), Lit(Y), Lit(MY))), rank, bound);
    assert Below(inY, rank, bound);
    assert Below(Ite(Is(rev, 2), Lit(Y), Lit(M)), rank, bound);
    assert Below(Ite(Is(weak, 2), Lit(NY), Lit(NM)), rank, bound);
    var inM := Ite(rev, Ite(Is(rev, 2), Lit(Y), Lit(M)), Ite(Is(weak, 2), Lit(NY), Lit(NM)));
    assert Below(inM, rank, bound) && Below(Ite(Is(vis, 2), inY, inM), rank, bound);
  }

  /** A height gives a rank. */
  lemma RankFromHeight(cfg: Config, height: nat -> nat, rank: Node -> nat)
    requires ChoiceFree(cfg) && Climbs(cfg, height) && forall n :: rank(n) == RankBy(cfg, height, n)
    ensures Ranked(cfg, rank)
  {
    forall n ensures Below(Rule(cfg, n), rank, rank(n)) {
      if Defined(cfg, ItemOf(n)) {
        var s := ItemOf(n).s;
        if IsLogic(cfg.syms[s].kind) {
          LogicRanked(cfg, height, rank, s);
        } else {
          OtherInputs(cfg, height, rank, s);
          VisibilityBelow(cfg, rank, s, PromptTop(cfg, height));
        }
      }
    }
  }

  lemma LogicRanked(cfg: Config, height: nat -> nat, rank: Node -> nat, s: nat)
    requires ChoiceFree(cfg) && Climbs(cfg, height) && forall n :: rank(n) == RankBy(cfg, height, n)
    requires s < |cfg.syms| && IsLogic(cfg.syms[s].kind)
    ensures Below(Rule(cfg, Vis(Sym(s))), rank, rank(Vis(Sym(s)))) && Below(Rule(cfg, Tri(s)), rank, rank(Tri(s)))
    ensures Below(Rule(cfg, Assignable(Sym(s))), rank, rank(Assignable(Sym(s))))
  {
    hide VisibilityRule, TriRule, SymbolAssignableRule, Below, InputsBelow, Climbs;
    LogicInputs(cfg, height, rank, s);
    VisibilityBelow(cfg, rank, s, 2 * height(s) + 1);
    TriBelow(cfg, rank, s, 2 * height(s) + 2);
    TriBelow(cfg, rank, s, 2 * height(s) + 3);
  }

  lemma LogicInputs(cfg: Config, height: nat -> nat, rank: Node -> nat, s: nat)
    requires ChoiceFree(cfg) && Climbs(cfg, height) && forall n :: rank(n) == RankBy(cfg, height, n)
    requires s < |cfg.syms| && IsLogic(cfg.syms[s].kind)
    ensures InputsBelow(cfg, rank, s, 2 * height(s) + 1)
    ensures InputsBelow(cfg, rank, s, 2 * height(s) + 2) && InputsBelow(cfg, rank, s, 2 * height(s) + 3)
  {
    forall j: nat | Reads(cfg, j, s) ensures rank(Tri(j)) < 2 * height(s) + 1 {
      if j < |cfg.syms| { assert height(j) < height(s); }
    }
    forall j: nat | Recorded(cfg, j, s) ensures rank(Tri(j)) < 2 * height(s) + 1 {
      assert Reads(cfg, j, s);
    }
    assert cfg.syms[s].kind == Tristate ==> Reads(cfg, cfg.modules, s);
  }

  lemma OtherInputs(cfg: Config, height: nat -> nat, rank: Node -> nat, s: nat)
    requires ChoiceFree(cfg) && forall n :: rank(n) == RankBy(cfg, height, n)
    requires s < |cfg.syms| && !IsLogic(cfg.syms[s].kind)
    ensures InputsBelow(cfg, rank, s, PromptTop(cfg, height))
  {
    forall j: nat ensures rank(Tri(j)) < PromptTop(cfg, height) {
    }
  }

  // ----- from a rank to an order -----

  /** In a ranked configuration a value ranks above every value it may read. */
  lemma RankClimbs(cfg: Config, rank: Node -> nat, j: nat, s: nat)
    requires ChoiceFree(cfg) && Ranked(cfg, rank) && Reads(cfg, j, s)
    ensures rank(Tri(j)) < rank(Tri(s))
  {
    var sym := cfg.syms[s];
    var bound := rank(Tri(s));
    assert Below(Rule(cfg, Tri(s)), rank, bound) && Below(Rule(cfg, Vis(Sym(s))), rank, rank(Vis(Sym(s))));
    TriReads(cfg, rank, s, bound);
    if Recorded(cfg, j, s) {
      if k :| 0 <= k < |sym.prompts| && Mentions(sym.prompts[k], Sym(j)) {
        PromptMentionedBelow(cfg, rank, sym.prompts, rank(Vis(Sym(s))), k, j);
      } else if k :|
          && 0 <= k < |sym.defaults|
          && (Mentions(sym.defaults[k].value, Sym(j)) || Mentions(sym.defaults[k].cond, Sym(j))) {
        DefaultMentionedBelow(cfg, rank, sym.defaults, bound, k, j);
      } else if Mentions(sym.revDep, Sym(j)) {
        MentionedBelow(cfg, rank, sym.revDep, bound, j);
      } else if Mentions(sym.weakRevDep, Sym(j)) {
        MentionedBelow(cfg, rank, sym.weakRevDep, bound, j);
      } else {
        MentionedBelow(cfg, rank, sym.directDep, bound, j);
      }
    }
  }

  lemma TriReads(cfg: Config, rank: Node -> nat, s: nat, bound: nat)
    requires ChoiceFree(cfg) && s < |cfg.syms| && IsLogic(cfg.syms[s].kind) && Below(TriRule(cfg, s), rank, bound)
    ensures var sym := cfg.syms[s];
      && rank(Vis(Sym(s))) < bound
      && Below(Value(cfg, sym.directDep), rank, bound) && Below(Value(cfg, sym.revDep), rank, bound)
      && Below(Value(cfg, sym.weakRevDep), rank, bound) && Below(FirstDefault(cfg, sym.defaults), rank, bound)
      && (sym.kind == Tristate ==> rank(Tri(cfg.modules)) < bound)
  {
    var sym := cfg.syms[s];
    var vis := Get(Vis(Sym(s)));
    var direct, dflt := Value(cfg, sym.directDep), FirstDefault(cfg, sym.defaults);
    var weak, rev := Value(cfg, sym.weakRevDep), Value(cfg, sym.revDep);
    hide Value, FirstDefault;
    var implied := Ite(weak, Ite(direct, Maximum(weak, dflt), dflt), dflt);
    var base := Ite(Ite(vis, User(UserValue(Sym(s))), Lit(0)), Minimum(UserTri(Sym(s)), vis), implied);
    var selected := Ite(rev, Then(direct, Maximum(rev, base)), base);
    assert TriRule(cfg, s) == Promote(selected, Boolish(cfg, s));
    assert Below(selected, rank, bound) && Below(base, rank, bound) && Below(implied, rank, bound);
    assert Below(Ite(vis, User(UserValue(Sym(s))), Lit(0)), rank, bound) && Below(vis, rank, bound);
    assert Below(Ite(direct, Maximum(weak, dflt), dflt), rank, bound);
    assert Below(Boolish(cfg, s), rank, bound) && Below(SymbolIsBool(cfg, s), rank, bound);
    assert sym.kind == Tristate ==> Below(ModulesOff(cfg), rank, bound);
  }

  // ----- orders and ranks -----

  /** All symbols in an order in which each comes after all that read it. */
  ghost predicate Orders(cfg: Config, g: L.Graph, order: seq<nat>) {
    |g| == |cfg.syms| && L.Topological(g, order) && forall s: nat :: s < |cfg.syms| ==> s in order
  }

  ghost predicate HasRank(cfg: Config) {
    exists rank: Node -> nat :: Ranked(cfg, rank)
  }

  ghost predicate HasOrder(cfg: Config) {
    exists order :: Orders(cfg, ReadGraph(cfg), order)
  }

  function Height(order: seq<nat>, s: nat): nat {
    if s in order then |order| - L.Position(order, s) else 0
  }

  lemma OrderGivesRank(cfg: Config, order: seq<nat>)
    requires ChoiceFree(cfg) && Orders(cfg, ReadGraph(cfg), order)
    ensures Ranked(cfg, n => RankBy(cfg, s => Height(order, s), n))
  {
    var g := ReadGraph(cfg);
    var height: nat -> nat := s => Height(order, s);
    forall j: nat, s: nat | j < |cfg.syms| && s < |cfg.syms| && Reads(cfg, j, s) ensures height(j) < height(s) {
      assert L.Edge(g, j, s);
      L.EdgeGoesBack(g, order, j, s);
    }
    RankFromHeight(cfg, height, n => RankBy(cfg, height, n));
  }

  /** The symbols below n from the highest rank down. */
  ghost predicate Descending(rank: Node -> nat, order: seq<nat>) {
    forall i, j :: 0 <= i < j < |order| ==> order[i] != order[j] && rank(Tri(order[i])) >= rank(Tri(order[j]))
  }

  lemma {:induction false} SortByRank(rank: Node -> nat, n: nat) returns (order: seq<nat>)
    ensures Descending(rank, order) && forall s: nat :: s in order <==> s < n
  {
    if n == 0 {
      order := [];
    } else {
      var rest := SortByRank(rank, n - 1);
      order := InsertByRank(rank, rest, n - 1);
    }
  }

  lemma {:induction false} InsertByRank(rank: Node -> nat, rest: seq<nat>, x: nat) returns (order: seq<nat>)
    requires Descending(rank, rest) && x !in rest
    ensures Descending(rank, order) && forall s: nat :: s in order <==> s in rest || s == x
    decreases |rest|
  {
    if rest == [] || rank(Tri(x)) >= rank(Tri(rest[0])) {
      order := [x] + rest;
    } else {
      var tail := InsertByRank(rank, rest[1..], x);
      order := [rest[0]] + tail;
      assert rest == [rest[0]] + rest[1..];
      forall j | 0 <= j < |tail| ensures rest[0] != tail[j] && rank(Tri(rest[0])) >= rank(Tri(tail[j])) {
        assert tail[j] in tail;
      }
    }
  }

  lemma RankGivesOrder(cfg: Config, rank: Node -> nat) returns (order: seq<nat>)
    requires ChoiceFree(cfg) && Ranked(cfg, rank)
    ensures Orders(cfg, ReadGraph(cfg), order)
  {
    order := SortByRank(rank, |cfg.syms|);
    var g := ReadGraph(cfg);
    forall i | 0 <= i < |order| ensures order[i] < |g| && L.Behind(g, order, i) {
      assert order[i] in order;
      forall v | L.Edge(g, order[i], v) ensures v in order[..i] {
        RankClimbs(cfg, rank, order[i], v);
        assert v in order;
        var k :| 0 <= k < |order| && order[k] == v;
        assert k < i;
      }
    }
  }

  /** Exactly when evaluation has a rank: when what values are read off can be put in an order. */
  lemma RankIffOrder(cfg: Config)
    requires ChoiceFree(cfg)
    ensures HasRank(cfg) <==> HasOrder(cfg)
    ensures HasRank(cfg) ==> !L.HasCycle(ReadGraph(cfg))
  {
    if HasRank(cfg) {
      var rank :| Ranked(cfg, rank);
      var order := RankGivesOrder(cfg, rank);
      L.OrderedHasNoCycle(ReadGraph(cfg), order);
    }
    if HasOrder(cfg) {
      var order :| Orders(cfg, ReadGraph(cfg), order);
      OrderGivesRank(cfg, order);
    }
  }

  /** The same search for loops, on the graph that evaluation goes along: it decides whether there is a rank. */
  method CheckReads(cfg: Config) returns (ok: bool, ghost order: seq<nat>)
    requires ChoiceFree(cfg)
    ensures ok <==> HasRank(cfg)
    ensures ok ==> Ranked(cfg, n => RankBy(cfg, s => Height(order, s), n))
  {
    var check := new L.LoopCheck(ReadGraph(cfg));
    var r := check.CheckAll();
    ok, order := r.NoLoop?, check.order;
    RankIffOrder(cfg);
    if ok {
      OrderGivesRank(cfg, order);
    }
  }

  /** The engine on such a configuration, its rank built from the order the search has found. */
  method Start(cfg: Config) returns (k: Kconfig)
    requires ChoiceFree(cfg) && HasRank(cfg)
    ensures fresh(k) && k.cfg == cfg && k.Valid() && k.cache == map[] && k.user == map[]
  {
    ghost var order;
    var ok;
    ok, order := CheckReads(cfg);
    k := new Kconfig(cfg, n => RankBy(cfg, s => Height(order, s), n));
  }

  // ----- what loading lets through -----

  /** v feeds MODULES: MODULES is v or depends on it, through recorded dependencies. */
  ghost predicate Feeds(cfg: Config, v: nat) {
    exists c :: FeedsBy(cfg, v, c)
  }

  ghost predicate FeedsBy(cfg: Config, v: nat, c: seq<nat>) {
    c != [] && L.Chain(RecordedGraph(cfg), c) && c[0] == cfg.modules && c[|c| - 1] == v
  }

  /** MODULES is a tristate symbol or depends on one. */
  ghost predicate ModulesOnTristate(cfg: Config) {
    cfg.modules < |cfg.syms| && exists t: nat :: t < |cfg.syms| && cfg.syms[t].kind == Tristate && Feeds(cfg, t)
  }

  lemma FeedsFurther(cfg: Config, j: nat, s: nat)
    requires L.Edge(RecordedGraph(cfg), j, s) && Feeds(cfg, s)
    ensures Feeds(cfg, j)
  {
    var c :| FeedsBy(cfg, s, c);
    var d := c + [j];
    forall i | 0 <= i < |d| - 1 ensures L.Edge(RecordedGraph(cfg), d[i + 1], d[i]) {
      if i < |c| - 1 { assert L.Edge(RecordedGraph(cfg), c[i + 1], c[i]); }
    }
    assert FeedsBy(cfg, j, d);
  }

  lemma ModulesFeeds(cfg: Config)
    ensures Feeds(cfg, cfg.modules)
  {
    assert FeedsBy(cfg, cfg.modules, [cfg.modules]);
  }

  /** What feeds MODULES, and none of it is tristate, stays below everything else. */
  ghost function SplitHeight(cfg: Config, order: seq<nat>, s: nat): nat {
    if Feeds(cfg, s) then Height(order, s) else Height(order, s) + |order| + 1
  }

  lemma SplitClimbs(cfg: Config, order: seq<nat>)
    requires ChoiceFree(cfg) && Orders(cfg, RecordedGraph(cfg), order) && !ModulesOnTristate(cfg)
    ensures Climbs(cfg, s => SplitHeight(cfg, order, s))
  {
    forall j: nat, s: nat | j < |cfg.syms| && s < |cfg.syms| && Reads(cfg, j, s)
      ensures SplitHeight(cfg, order, j) < SplitHeight(cfg, order, s)
    {
      if Recorded(cfg, j, s) {
        assert L.Edge(RecordedGraph(cfg), j, s);
        L.EdgeGoesBack(RecordedGraph(cfg), order, j, s);
        if Feeds(cfg, s) { FeedsFurther(cfg, j, s); }
      } else {
        ModulesFeeds(cfg);
      }
    }
  }

  lemma {:induction false} ChainRanks(cfg: Config, rank: Node -> nat, v: nat, c: seq<nat>)
    requires ChoiceFree(cfg) && AllLogic(cfg) && Ranked(cfg, rank) && FeedsBy(cfg, v, c)
    ensures rank(Tri(v)) <= rank(Tri(cfg.modules))
    decreases |c|
  {
    if |c| > 1 {
      var d := c[..|c| - 1];
      var g := RecordedGraph(cfg);
      forall i | 0 <= i < |d| - 1 ensures L.Edge(g, d[i + 1], d[i]) { assert L.Edge(g, c[i + 1], c[i]); }
      ChainRanks(cfg, rank, d[|d| - 1], d);
      assert L.Edge(g, c[|c| - 1], c[|c| - 2]);
      RankClimbs(cfg, rank, v, d[|d| - 1]);
    }
  }

  /** Exactly when a configuration that loads can be evaluated in some order: when MODULES is not and does not depend
      on a tristate symbol, whose type would read MODULES again. */
  lemma LoadedRank(cfg: Config, order: seq<nat>)
    requires ChoiceFree(cfg) && Orders(cfg, RecordedGraph(cfg), order)
    ensures !ModulesOnTristate(cfg) ==> HasRank(cfg)
    ensures AllLogic(cfg) ==> (HasRank(cfg) <==> !ModulesOnTristate(cfg))
  {
    if !ModulesOnTristate(cfg) {
      var height: nat -> nat := s => SplitHeight(cfg, order, s);
      SplitClimbs(cfg, order);
      assert Climbs(cfg, height);
      var rank: Node -> nat := n => RankBy(cfg, height, n);
      RankFromHeight(cfg, height, rank);
    } else if AllLogic(cfg) && HasRank(cfg) {
      var rank :| Ranked(cfg, rank);
      var t: nat :| t < |cfg.syms| && cfg.syms[t].kind == Tristate && Feeds(cfg, t);
      var c :| FeedsBy(cfg, t, c);
      ChainRanks(cfg, rank, t, c);
      RankClimbs(cfg, rank, cfg.modules, t);
    }
  }

  // ----- evaluation that is cut off after so many nested reads -----

  function Steps(cfg: Config, user: UserState, t: Term, depth: nat): Option<nat>
    decreases depth, t
  {
    match t
    case Lit(v) => Some(v)
    case Get(n) => if depth == 0 then None else Steps(cfg, user, Rule(cfg, n), depth - 1)
    case User(k) => Some(UserOf(user, k))
    case Unary(op, a) =>
      (match Steps(cfg, user, a, depth) case None => None case Some(x) => Some(ApplyUnary(op, x)))
    case Strict(op, a, b) =>
      (match (Steps(cfg, user, a, depth), Steps(cfg, user, b, depth))
       case (Some(x), Some(y)) => Some(ApplyStrict(op, x, y)) case _ => None)
    case Lazy(op, a, b) =>
      (match Steps(cfg, user, a, depth)
       case None => None
       case Some(x) =>
         if Stops(op, x) then Some(x) else
         match Steps(cfg, user, b, depth) case None => None case Some(y) => Some(ApplyLazy(op, x, y)))
    case Ite(c, a, b) =>
      (match Steps(cfg, user, c, depth)
       case None => None
       case Some(x) => if x != 0 then Steps(cfg, user, a, depth) else Steps(cfg, user, b, depth))
  }

  /** With a rank every evaluation ends, in the from-scratch value, within as many nested reads as the rank. */
  lemma {:induction false} EvaluationEnds(cfg: Config, rank: Node -> nat, user: UserState, t: Term, bound: nat)
    requires Ranked(cfg, rank) && Below(t, rank, bound)
    ensures Steps(cfg, user, t, bound) == Some(Eval(cfg, rank, user, t, bound))
    decreases bound, t
  {
    hide ApplyUnary, ApplyStrict, ApplyLazy, Stops, Rule;
    match t
    case Lit(_) | User(_) =>
    case Get(n) =>
      assert Below(Rule(cfg, n), rank, rank(n));
      EvaluationEnds(cfg, rank, user, Rule(cfg, n), rank(n));
      MoreSteps(cfg, user, Rule(cfg, n), rank(n), bound - 1);
    case Unary(_, a) => EvaluationEnds(cfg, rank, user, a, bound);
    case Strict(_, a, b) => EvaluationEnds(cfg, rank, user, a, bound); EvaluationEnds(cfg, rank, user, b, bound);
    case Lazy(_, a, b) => EvaluationEnds(cfg, rank, user, a, bound); EvaluationEnds(cfg, rank, user, b, bound);
    case Ite(c, a, b) =>
      EvaluationEnds(cfg, rank, user, c, bound);
      EvaluationEnds(cfg, rank, user, a, bound);
      EvaluationEnds(cfg, rank, user, b, bound);
  }

  lemma {:induction false} MoreSteps(cfg: Config, user: UserState, t: Term, depth: nat, more: nat)
    requires depth <= more && Steps(cfg, user, t, depth).Some?
    ensures Steps(cfg, user, t, more) == Steps(cfg, user, t, depth)
    decreases depth, t
  {
    hide ApplyUnary, ApplyStrict, ApplyLazy, Stops, Rule;
    match t
    case Lit(_) | User(_) =>
    case Get(n) => MoreSteps(cfg, user, Rule(cfg, n), depth - 1, more - 1);
    case Unary(_, a) => MoreSteps(cfg, user, a, depth, more);
    case Strict(_, a, b) => MoreSteps(cfg, user, a, depth, more); MoreSteps(cfg, user, b, depth, more);
    case Lazy(_, a, b) =>
      MoreSteps(cfg, user, a, depth, more);
      if Steps(cfg, user, b, depth).Some? { MoreSteps(cfg, user, b, depth, more); }
    case Ite(c, a, b) =>
      MoreSteps(cfg, user, c, depth, more);
      if Steps(cfg, user, c, depth).value != 0 {
        MoreSteps(cfg, user, a, depth, more);
      } else {
        MoreSteps(cfg, user, b, depth, more);
      }
  }

  // ----- a configuration that loads and cannot be evaluated -----

  /** MODULES, a bool whose prompt depends on the tristate T. */
  function ModulesLoop(): Config {
    Config(
      [Symbol(Bool, [Leaf(Sym(1))], [], Const(0), Const(0), Const(2), -1),
       Symbol(Tristate, [Const(2)], [], Const(0), Const(0), Const(2), -1)],
      [],
      0)
  }

  lemma ModulesLoopRecorded(j: nat, s: nat)
    ensures Recorded(ModulesLoop(), j, s) <==> j == 1 && s == 0
  {
    var cfg := ModulesLoop();
    assert Mentions(cfg.syms[0].prompts[0], Sym(1));
  }

  lemma ModulesLoopOrder()
    ensures Orders(ModulesLoop(), RecordedGraph(ModulesLoop()), [0, 1])
    ensures L.Edge(RecordedGraph(ModulesLoop()), 1, 0)
  {
    hide Recorded;
    var g, order := RecordedGraph(ModulesLoop()), [0, 1];
    forall j: nat, s: nat ensures Recorded(ModulesLoop(), j, s) <==> j == 1 && s == 0 {
      ModulesLoopRecorded(j, s);
    }
    assert order[..1] == [0];
    assert L.Behind(g, order, 0) && L.Behind(g, order, 1);
  }

  /** It loads, as the only recorded dependency is that of MODULES on T; but no rank exists. */
  lemma ModulesLoopLoads()
    ensures Linked(ModulesLoop()) && ChoiceFree(ModulesLoop()) && AllLogic(ModulesLoop())
    ensures !L.HasCycle(RecordedGraph(ModulesLoop()))
    ensures ModulesOnTristate(ModulesLoop()) && !HasRank(ModulesLoop())
  {
    hide RecordedGraph, Feeds, HasRank, Orders, L.Topological, L.Edge, L.HasCycle;
    var cfg := ModulesLoop();
    ModulesLoopOrder();
    Acyclic(cfg, [0, 1]);
    ModulesFeeds(cfg);
    FeedsFurther(cfg, 1, 0);
    LoadedRank(cfg, [0, 1]);
  }

  lemma Acyclic(cfg: Config, order: seq<nat>)
    requires Orders(cfg, RecordedGraph(cfg), order)
    ensures !L.HasCycle(RecordedGraph(cfg))
  {
    L.OrderedHasNoCycle(RecordedGraph(cfg), order);
  }
}
