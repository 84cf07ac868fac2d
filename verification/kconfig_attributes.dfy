/** Exactly when the cached attributes can be evaluated in some order, choices included: when the graph of what each
    rule may read has no cycle, which the search for loops decides. */
module KconfigAttributes {
  import opened KconfigRules
  import opened KconfigCache
  import opened KconfigRank
  import L = KconfigLoops

  /** The rule may read the attribute. */
  predicate Occurs(t: Term, n: Node) {
    match t
    case Lit(_) => false
    case Get(m) => m == n
    case User(_) => false
    case Unary(_, a) => Occurs(a, n)
    case Strict(_, a, b) => Occurs(a, n) || Occurs(b, n)
    case Lazy(_, a, b) => Occurs(a, n) || Occurs(b, n)
    case Ite(c, a, b) => Occurs(c, n) || Occurs(a, n) || Occurs(b, n)
  }

  lemma {:induction false} BelowIsOccurs(t: Term, rank: Node -> nat, bound: nat)
    ensures Below(t, rank, bound) <==> forall n :: Occurs(t, n) ==> rank(n) < bound
  {
    match t
    case Lit(_) | User(_) =>
    case Get(n) => assert Occurs(t, n);
    case Unary(_, a) =>
      BelowIsOccurs(a, rank, bound);
      assert forall n :: Occurs(t, n) <==> Occurs(a, n);
    case Strict(_, a, b) =>
      BelowIsOccurs(a, rank, bound);
      BelowIsOccurs(b, rank, bound);
      assert forall n :: Occurs(t, n) <==> Occurs(a, n) || Occurs(b, n);
    case Lazy(_, a, b) =>
      BelowIsOccurs(a, rank, bound);
      BelowIsOccurs(b, rank, bound);
      assert forall n :: Occurs(t, n) <==> Occurs(a, n) || Occurs(b, n);
    case Ite(c, a, b) =>
      BelowIsOccurs(c, rank, bound);
      BelowIsOccurs(a, rank, bound);
      BelowIsOccurs(b, rank, bound);
      assert forall n :: Occurs(t, n) <==> Occurs(c, n) || Occurs(a, n) || Occurs(b, n);
  }

  // ----- the attributes, numbered -----

  function Count(cfg: Config): nat {
    3 * |cfg.syms| + 3 * |cfg.choices|
  }

  function NodeAt(cfg: Config, i: nat): (n: Node)
    requires i < Count(cfg)
    ensures Defined(cfg, ItemOf(n)) && Index(cfg, n) == i
  {
    var s, c := |cfg.syms|, |cfg.choices|;
    if i < s then Vis(Sym(i))
    else if i < 2 * s then Tri(i - s)
    else if i < 3 * s then Assignable(Sym(i - 2 * s))
    else if i < 3 * s + c then Vis(Cho(i - 3 * s))
    else if i < 3 * s + 2 * c then Selection(i - 3 * s - c)
    else Assignable(Cho(i - 3 * s - 2 * c))
  }

  function Index(cfg: Config, n: Node): (i: nat)
    requires Defined(cfg, ItemOf(n))
    ensures i < Count(cfg)
  {
    var s, c := |cfg.syms|, |cfg.choices|;
    match n
    case Vis(Sym(j)) => j
    case Tri(j) => s + j
    case Assignable(Sym(j)) => 2 * s + j
    case Vis(Cho(j)) => 3 * s + j
    case Selection(j) => 3 * s + c + j
    case Assignable(Cho(j)) => 3 * s + 2 * c + j
  }

  lemma NodeOfIndex(cfg: Config, n: Node)
    requires Defined(cfg, ItemOf(n))
    ensures NodeAt(cfg, Index(cfg, n)) == n
  {
  }

  /** The rule of attribute v may read attribute u. */
  predicate ReadBy(cfg: Config, u: nat, v: nat) {
    u < Count(cfg) && v < Count(cfg) && Occurs(Rule(cfg, NodeAt(cfg, v)), NodeAt(cfg, u))
  }

  function ReadersOf(cfg: Config, u: nat, n: nat): (r: seq<nat>)
    ensures forall v: nat :: v in r <==> v < n && ReadBy(cfg, u, v)
  {
    if n == 0 then [] else ReadersOf(cfg, u, n - 1) + if ReadBy(cfg, u, n - 1) then [n - 1] else []
  }

  function AttributeGraph(cfg: Config): (g: L.Graph)
    ensures |g| == Count(cfg) && L.WellFormed(g)
    ensures forall u: nat, v: nat :: L.Edge(g, u, v) <==> ReadBy(cfg, u, v)
  {
    var n := Count(cfg);
    var g: L.Graph := seq(n, u requires 0 <= u < n => ReadersOf(cfg, u, n));
    assert forall u, k :: 0 <= u < |g| && 0 <= k < |g[u]| ==> g[u][k] in g[u];
    g
  }

  ghost predicate OrdersAll(g: L.Graph, order: seq<nat>) {
    L.Topological(g, order) && forall v: nat :: v < |g| ==> v in order
  }

  /** An attribute ranks above all it may read; undefined ones are n and read nothing. */
  function RankIn(cfg: Config, order: seq<nat>, n: Node): nat {
    if Defined(cfg, ItemOf(n)) then 1 + Height(order, Index(cfg, n)) else 0
  }

  lemma OrderRanks(cfg: Config, order: seq<nat>)
    requires OrdersAll(AttributeGraph(cfg), order)
    ensures Ranked(cfg, n => RankIn(cfg, order, n))
  {
    var g := AttributeGraph(cfg);
    var rank: Node -> nat := n => RankIn(cfg, order, n);
    forall m ensures Below(Rule(cfg, m), rank, rank(m)) {
      hide Rule;
      forall n | Occurs(Rule(cfg, m), n) ensures rank(n) < rank(m) {
        ReaderDefined(cfg, m, n);
        if Defined(cfg, ItemOf(n)) {
          var u, v := Index(cfg, n), Index(cfg, m);
          NodeOfIndex(cfg, n);
          NodeOfIndex(cfg, m);
          assert L.Edge(g, u, v);
          L.EdgeGoesBack(g, order, u, v);
        }
      }
      BelowIsOccurs(Rule(cfg, m), rank, rank(m));
    }
  }

  lemma ReaderDefined(cfg: Config, m: Node, n: Node)
    requires Occurs(Rule(cfg, m), n)
    ensures Defined(cfg, ItemOf(m))
  {
  }

  /** The rank of the attribute with the number of the symbol. */
  function ByIndex(cfg: Config, rank: Node -> nat, m: Node): nat {
    if m.Tri? && m.s < Count(cfg) then rank(NodeAt(cfg, m.s)) else 0
  }

  lemma RanksGiveOrder(cfg: Config, rank: Node -> nat) returns (order: seq<nat>)
    requires Ranked(cfg, rank)
    ensures OrdersAll(AttributeGraph(cfg), order)
  {
    hide Rule;
    var g, n := AttributeGraph(cfg), Count(cfg);
    var byIndex: Node -> nat := m => ByIndex(cfg, rank, m);
    order := SortByRank(byIndex, n);
    forall i | 0 <= i < |order| ensures order[i] < |g| && L.Behind(g, order, i) {
      assert order[i] in order;
      forall v | L.Edge(g, order[i], v) ensures v in order[..i] {
        var u := order[i];
        assert ReadBy(cfg, u, v);
        assert Below(Rule(cfg, NodeAt(cfg, v)), rank, rank(NodeAt(cfg, v)));
        BelowIsOccurs(Rule(cfg, NodeAt(cfg, v)), rank, rank(NodeAt(cfg, v)));
        assert byIndex(Tri(u)) < byIndex(Tri(v));
        assert v in order;
        var k :| 0 <= k < |order| && order[k] == v;
        assert k < i;
      }
    }
  }

  /** Exactly when there is a rank, for every configuration. */
  lemma RankIffOrdered(cfg: Config)
    ensures HasRank(cfg) <==> exists order :: OrdersAll(AttributeGraph(cfg), order)
    ensures HasRank(cfg) ==> !L.HasCycle(AttributeGraph(cfg))
  {
    if HasRank(cfg) {
      var rank :| Ranked(cfg, rank);
      var order := RanksGiveOrder(cfg, rank);
      L.OrderedHasNoCycle(AttributeGraph(cfg), order);
    }
    if order :| OrdersAll(AttributeGraph(cfg), order) {
      OrderRanks(cfg, order);
      var rank: Node -> nat := n => RankIn(cfg, order, n);
      assert Ranked(cfg, rank);
    }
  }

  /** The search for loops on that graph: no rank means a cycle of reads, which is returned. */
  method CheckAttributes(cfg: Config) returns (r: L.Outcome, ghost order: seq<nat>)
    ensures r.NoLoop? <==> HasRank(cfg)
    ensures r.NoLoop? ==> Ranked(cfg, n => RankIn(cfg, order, n))
    ensures !r.NoLoop? ==> r.Raised? && L.Cycle(AttributeGraph(cfg), r.loop)
  {
    hide Rule, AttributeGraph;
    var check := new L.LoopCheck(AttributeGraph(cfg));
    r := check.CheckAll();
    order := check.order;
    RankIffOrdered(cfg);
    if r.NoLoop? {
      OrderRanks(cfg, order);
    }
  }

  /** The engine on every configuration that has a rank, its rank taken from the order found. */
  method Start(cfg: Config) returns (k: Kconfig)
    requires HasRank(cfg)
    ensures fresh(k) && k.cfg == cfg && k.cache == map[] && k.user == map[]
    ensures Ranked(cfg, k.rank) && (Linked(cfg) ==> k.Valid())
  {
    hide Rule, Linked;
    ghost var order;
    var r;
    r, order := CheckAttributes(cfg);
    k := new Kconfig(cfg, n => RankIn(cfg, order, n));
  }

  // ----- a configuration with a choice -----

  /** Two symbols in a choice, the second its default. */
  function TwoOfAChoice(): Config {
    var member := Symbol(Bool, [Leaf(Cho(0))], [], Const(0), Const(0), Leaf(Cho(0)), 0);
    Config([member, member], [Choice(Bool, false, [Const(2)], [ChoiceDefault(1, Const(2))], [0, 1])], 2)
  }

  function TwoRank(n: Node): nat {
    match n
    case Vis(Cho(_)) => 0
    case Vis(Sym(_)) => 1
    case Selection(_) => 2
    case Tri(_) => 3
    case Assignable(_) => 4
  }

  lemma ModeBelow(bound: nat)
    requires bound > 0
    ensures Below(ChoiceTri(TwoOfAChoice(), 0), TwoRank, bound)
  {
    hide Below;
    BelowParts(TwoRank, bound);
  }

  lemma TwoChoiceRanked(n: Node)
    requires ItemOf(n).Cho? && !n.Selection?
    ensures Below(Rule(TwoOfAChoice(), n), TwoRank, TwoRank(n))
  {
    hide ChoiceTri;
    ModeBelow(4);
  }

  lemma TwoSelectionRanked(c: nat)
    ensures Below(Rule(TwoOfAChoice(), Selection(c)), TwoRank, 2)
  {
    hide Below, ChoiceTri;
    BelowParts(TwoRank, 2);
    var cfg := TwoOfAChoice();
    if c == 0 {
      ModeBelow(2);
      var none := FirstVisible([0, 1]);
      assert none == Ite(Get(Vis(Sym(0))), Lit(1), Ite(Get(Vis(Sym(1))), Lit(2), Lit(0)));
      var byDefault := DefaultSelection(cfg, cfg.choices[0].defaults, [0, 1]);
      assert byDefault == Ite(Lit(2), Ite(Get(Vis(Sym(1))), Lit(2), none), none);
      var second := UserSelected(0, [1], byDefault);
      assert second == Ite(Is(User(UserSelection(0)), 2), Ite(Get(Vis(Sym(1))), Lit(2), byDefault), byDefault);
      assert Below(UserSelected(0, [0, 1], byDefault), TwoRank, 2);
    }
  }

  lemma TwoSymbolRanked(n: Node)
    requires ItemOf(n).Sym? && !n.Assignable?
    ensures Below(Rule(TwoOfAChoice(), n), TwoRank, TwoRank(n))
  {
    hide ChoiceTri;
    ModeBelow(1);
  }

  lemma TwoAssignableRanked(s: nat)
    ensures Below(Rule(TwoOfAChoice(), Assignable(Sym(s))), TwoRank, 4)
  {
    hide ChoiceTri;
    var vis := Get(Vis(Sym(s)));
    assert Below(vis, TwoRank, 4) && Below(Is(vis, 2), TwoRank, 4);
  }

  lemma ChoicesCanBeRanked()
    ensures Linked(TwoOfAChoice()) && HasRank(TwoOfAChoice())
  {
    var cfg := TwoOfAChoice();
    forall n ensures Below(Rule(cfg, n), TwoRank, TwoRank(n)) {
      match n
      case Selection(c) => TwoSelectionRanked(c);
      case Assignable(Sym(s)) => TwoAssignableRanked(s);
      case Vis(Sym(_)) | Tri(_) => TwoSymbolRanked(n);
      case _ => TwoChoiceRanked(n);
    }
    assert Ranked(cfg, TwoRank);
    assert Mentions(cfg.syms[0].prompts[0], Cho(0));
  }
}
