/** Printing and parsing of Kconfig expressions on tokens: what is printed is parsed back completely, to the
    same expression up to the grouping of nested && and ||, hence to one of the same value. */
module KconfigParser {
  import opened KconfigRules

  datatype Option<T> = None | Some(value: T)

  datatype Token = TSym(e: Expr) | TAnd | TOr | TNot | TOpen | TClose | TRel(op: Relation)

  /** Symbols and constants, which are single tokens. */
  predicate Atom(e: Expr) {
    e.Const? || e.Leaf?
  }

  /** Operands of relations are symbols. */
  predicate Printable(e: Expr) {
    match e
    case Const(_) => true
    case Leaf(_) => true
    case And(l, r) => Printable(l) && Printable(r)
    case Or(l, r) => Printable(l) && Printable(r)
    case Not(f) => Printable(f)
    case Rel(_, a, b) => Atom(a) && Atom(b)
  }

  // ----- expr_str -----

  function Print(e: Expr): seq<Token>
    decreases e, 0
  {
    match e
    case Const(_) => [TSym(e)]
    case Leaf(_) => [TSym(e)]
    case And(l, r) => AndOperand(l) + [TAnd] + AndOperand(r)
    case Or(l, r) => OrOperand(l) + [TOr] + OrOperand(r)
    case Not(f) => [TNot] + (if Atom(f) then Print(f) else Paren(Print(f)))
    case Rel(op, a, b) => [TSym(a), TRel(op), TSym(b)]
  }

  /** _parenthesize(e, OR). */
  function AndOperand(e: Expr): seq<Token>
    decreases e, 1
  {
    if e.Or? then Paren(Print(e)) else Print(e)
  }

  /** _parenthesize(e, AND). */
  function OrOperand(e: Expr): seq<Token>
    decreases e, 1
  {
    if e.And? then Paren(Print(e)) else Print(e)
  }

  function Paren(ts: seq<Token>): seq<Token> {
    [TOpen] + ts + [TClose]
  }

  /** Somewhere || stands under &&, && under ||, or something that is no symbol under !. */
  predicate Mixed(e: Expr) {
    match e
    case And(l, r) => l.Or? || r.Or? || Mixed(l) || Mixed(r)
    case Or(l, r) => l.And? || r.And? || Mixed(l) || Mixed(r)
    case Not(f) => !Atom(f) || Mixed(f)
    case _ => false
  }

  /** Parentheses are printed exactly where operators mix. */
  lemma {:induction false} ParenthesesOnlyWhereMixed(e: Expr)
    ensures TOpen in Print(e) <==> Mixed(e)
  {
    match e
    case And(l, r) => ParenthesesOnlyWhereMixed(l); ParenthesesOnlyWhereMixed(r);
    case Or(l, r) => ParenthesesOnlyWhereMixed(l); ParenthesesOnlyWhereMixed(r);
    case Not(f) => ParenthesesOnlyWhereMixed(f);
    case _ =>
  }

  // ----- the parser -----

  datatype Parsed = Parsed(e: Expr, rest: seq<Token>)

  function Expression(ts: seq<Token>): (r: Option<Parsed>)
    ensures r.Some? ==> |r.value.rest| < |ts|
    decreases |ts|, 2
  {
    match Conjunction(ts)
    case None => None
    case Some(p) =>
      if p.rest == [] || p.rest[0] != TOr then Some(p)
      else
        match Expression(p.rest[1..])
        case None => None
        case Some(q) => Some(Parsed(Or(p.e, q.e), q.rest))
  }

  function Conjunction(ts: seq<Token>): (r: Option<Parsed>)
    ensures r.Some? ==> |r.value.rest| < |ts|
    decreases |ts|, 1
  {
    match Factor(ts)
    case None => None
    case Some(p) =>
      if p.rest == [] || p.rest[0] != TAnd then Some(p)
      else
        match Conjunction(p.rest[1..])
        case None => None
        case Some(q) => Some(Parsed(And(p.e, q.e), q.rest))
  }

  function Factor(ts: seq<Token>): (r: Option<Parsed>)
    ensures r.Some? ==> |r.value.rest| < |ts|
    decreases |ts|, 0
  {
    if ts == [] then None
    else if ts[0].TSym? then
      if |ts| == 1 || !ts[1].TRel? then Some(Parsed(ts[0].e, ts[1..]))
      else if |ts| > 2 && ts[2].TSym? then Some(Parsed(Rel(ts[1].op, ts[0].e, ts[2].e), ts[3..]))
      else None
    else if ts[0] == TNot then
      match Factor(ts[1..])
      case None => None
      case Some(p) => Some(Parsed(Not(p.e), p.rest))
    else if ts[0] == TOpen then
      match Expression(ts[1..])
      case None => None
      case Some(p) => if p.rest != [] && p.rest[0] == TClose then Some(Parsed(p.e, p.rest[1..])) else None
    else None
  }

  // ----- the grammar -----

  /** The tokens are an expression for e: conjunctions joined by ||, grouped to the right. */
  ghost predicate IsExpression(ts: seq<Token>, e: Expr)
    decreases |ts|, 2
  {
    || IsConjunction(ts, e)
    || (e.Or? && exists k ::
          0 <= k < |ts| && ts[k] == TOr && IsConjunction(ts[..k], e.l) && IsExpression(ts[k + 1..], e.r))
  }

  /** Factors joined by &&, grouped to the right. */
  ghost predicate IsConjunction(ts: seq<Token>, e: Expr)
    decreases |ts|, 1
  {
    || IsFactor(ts, e)
    || (e.And? && exists k ::
          0 <= k < |ts| && ts[k] == TAnd && IsFactor(ts[..k], e.l) && IsConjunction(ts[k + 1..], e.r))
  }

  /** A symbol, a relation between two symbols, a negated factor, or an expression in parentheses. */
  ghost predicate IsFactor(ts: seq<Token>, e: Expr)
    decreases |ts|, 0
  {
    || ts == [TSym(e)]
    || (e.Rel? && ts == [TSym(e.a), TRel(e.op), TSym(e.b)])
    || (|ts| > 1 && ts[0] == TNot && e.Not? && IsFactor(ts[1..], e.e))
    || (|ts| > 2 && ts[0] == TOpen && ts[|ts| - 1] == TClose && IsExpression(ts[1..|ts| - 1], e))
  }

  /** The last factor is a symbol by itself. */
  predicate EndsInSymbol(ts: seq<Token>) {
    ts != [] && ts[|ts| - 1].TSym? && (|ts| == 1 || !ts[|ts| - 2].TRel?)
  }

  /** What may follow a factor: no relation behind a symbol. */
  predicate AfterFactor(ts: seq<Token>, rest: seq<Token>) {
    EndsInSymbol(ts) ==> rest == [] || !rest[0].TRel?
  }

  predicate AfterConjunction(ts: seq<Token>, rest: seq<Token>) {
    AfterFactor(ts, rest) && (rest != [] ==> rest[0] != TAnd)
  }

  predicate AfterExpression(ts: seq<Token>, rest: seq<Token>) {
    AfterConjunction(ts, rest) && (rest != [] ==> rest[0] != TOr)
  }

  // ----- what is parsed is derived -----

  lemma {:induction false} FactorDerives(ts: seq<Token>) returns (n: nat)
    requires Factor(ts).Some?
    ensures n <= |ts| && Factor(ts).value.rest == ts[n..]
    ensures IsFactor(ts[..n], Factor(ts).value.e) && AfterFactor(ts[..n], ts[n..])
    decreases |ts|, 0
  {
    hide Expression, IsExpression;
    var p := Factor(ts).value;
    if ts[0].TSym? {
      n := SymbolDerives(ts);
    } else if ts[0] == TNot {
      n := FactorDerives(ts[1..]);
      NotDerived(ts, n, p.e.e);
      n := n + 1;
    } else {
      n := ExpressionDerives(ts[1..]);
      ParenDerived(ts, n, p.e);
      n := n + 2;
    }
  }

  lemma SymbolDerives(ts: seq<Token>) returns (n: nat)
    requires Factor(ts).Some? && ts[0].TSym?
    ensures n <= |ts| && Factor(ts).value.rest == ts[n..]
    ensures IsFactor(ts[..n], Factor(ts).value.e) && AfterFactor(ts[..n], ts[n..])
  {
    n := if |ts| == 1 || !ts[1].TRel? then 1 else 3;
  }

  lemma NotDerived(ts: seq<Token>, n: nat, e: Expr)
    requires n < |ts| && ts[0] == TNot && IsFactor(ts[1..][..n], e) && AfterFactor(ts[1..][..n], ts[1..][n..])
    ensures ts[1..][n..] == ts[n + 1..]
    ensures IsFactor(ts[..n + 1], Not(e)) && AfterFactor(ts[..n + 1], ts[n + 1..])
  {
    var whole := ts[..n + 1];
    assert ts[1..][..n] == whole[1..];
    AfterSuffix(whole, 0, ts[n + 1..]);
  }

  lemma ParenDerived(ts: seq<Token>, n: nat, e: Expr)
    requires n + 1 < |ts| && ts[0] == TOpen && ts[n + 1] == TClose && IsExpression(ts[1..][..n], e)
    ensures ts[1..][n..][1..] == ts[n + 2..]
    ensures IsFactor(ts[..n + 2], e) && AfterFactor(ts[..n + 2], ts[n + 2..])
  {
    hide IsExpression;
    assert ts[1..][..n] == ts[..n + 2][1..n + 1];
    NotNothing(ts[1..][..n], e);
  }

  /** Where a prefix is cut at an operator. */
  lemma CutAt(ts: seq<Token>, k: nat, m: nat)
    requires k < |ts| && m <= |ts[k + 1..]|
    ensures var n := k + 1 + m;
      ts[..n][..k] == ts[..k] && ts[..n][k] == ts[k] && ts[..n][k + 1..] == ts[k + 1..][..m]
        && ts[k + 1..][m..] == ts[n..]
  {
  }

  lemma AfterSuffix(ts: seq<Token>, k: nat, rest: seq<Token>)
    requires k < |ts| && !ts[k].TRel? && k + 1 < |ts|
    ensures AfterFactor(ts[k + 1..], rest) <==> AfterFactor(ts, rest)
  {
    var more := ts[k + 1..];
    assert more[|more| - 1] == ts[|ts| - 1];
    if |more| > 1 { assert more[|more| - 2] == ts[|ts| - 2]; }
  }

  lemma {:induction false} ConjunctionDerives(ts: seq<Token>) returns (n: nat)
    requires Conjunction(ts).Some?
    ensures n <= |ts| && Conjunction(ts).value.rest == ts[n..]
    ensures IsConjunction(ts[..n], Conjunction(ts).value.e) && AfterConjunction(ts[..n], ts[n..])
    decreases |ts|, 1
  {
    hide Factor, IsFactor, IsConjunction, AfterFactor;
    n := FactorDerives(ts);
    var left := Factor(ts).value.e;
    JustFactor(ts[..n], left);
    if n < |ts| && ts[n] == TAnd {
      var k, tail := n, ts[n + 1..];
      assert ts[n..][1..] == tail;
      var m := ConjunctionDerives(tail);
      n := k + 1 + m;
      CutAt(ts, k, m);
      AndDerived(ts[..n], k, left, Conjunction(tail).value.e, ts[n..]);
    }
  }

  lemma JustFactor(ts: seq<Token>, e: Expr)
    ensures IsFactor(ts, e) ==> IsConjunction(ts, e)
    ensures IsConjunction(ts, e) ==> IsExpression(ts, e)
  {
    hide IsFactor;
  }

  lemma AndDerived(ts: seq<Token>, k: nat, l: Expr, r: Expr, rest: seq<Token>)
    requires k < |ts| && ts[k] == TAnd && IsFactor(ts[..k], l) && IsConjunction(ts[k + 1..], r)
    requires AfterConjunction(ts[k + 1..], rest)
    ensures IsConjunction(ts, And(l, r)) && AfterConjunction(ts, rest)
  {
    hide IsFactor;
    NotNothing(ts[k + 1..], r);
    AfterSuffix(ts, k, rest);
  }

  lemma OrDerived(ts: seq<Token>, k: nat, l: Expr, r: Expr, rest: seq<Token>)
    requires k < |ts| && ts[k] == TOr && IsConjunction(ts[..k], l) && IsExpression(ts[k + 1..], r)
    requires AfterExpression(ts[k + 1..], rest)
    ensures IsExpression(ts, Or(l, r)) && AfterExpression(ts, rest)
  {
    hide IsConjunction;
    NotNothing(ts[k + 1..], r);
    AfterSuffix(ts, k, rest);
  }

  lemma {:induction false} ExpressionDerives(ts: seq<Token>) returns (n: nat)
    requires Expression(ts).Some?
    ensures n <= |ts| && Expression(ts).value.rest == ts[n..]
    ensures IsExpression(ts[..n], Expression(ts).value.e) && AfterExpression(ts[..n], ts[n..])
    decreases |ts|, 2
  {
    hide Conjunction, IsConjunction, IsExpression, AfterFactor;
    n := ConjunctionDerives(ts);
    var left := Conjunction(ts).value.e;
    JustFactor(ts[..n], left);
    if n < |ts| && ts[n] == TOr {
      var k, tail := n, ts[n + 1..];
      assert ts[n..][1..] == tail;
      var m := ExpressionDerives(tail);
      n := k + 1 + m;
      CutAt(ts, k, m);
      OrDerived(ts[..n], k, left, Expression(tail).value.e, ts[n..]);
    }
  }

  // ----- what can be derived is parsed -----

  lemma {:induction false} FactorParses(ts: seq<Token>, e: Expr, rest: seq<Token>)
    requires IsFactor(ts, e) && AfterFactor(ts, rest)
    ensures Factor(ts + rest) == Some(Parsed(e, rest))
    decreases |ts|, 0
  {
    hide IsExpression, Expression;
    if ts[0].TSym? {
      SymbolParses(ts, e, rest);
    } else if ts[0] == TNot {
      FactorParses(ts[1..], e.e, rest);
      NotParses(ts, e.e, rest);
    } else {
      var inner := ts[1..|ts| - 1];
      ExpressionParses(inner, e, [TClose] + rest);
      ParenParses(inner, e, rest);
      assert ts == Paren(inner);
    }
  }

  lemma SymbolParses(ts: seq<Token>, e: Expr, rest: seq<Token>)
    requires IsFactor(ts, e) && AfterFactor(ts, rest) && ts[0].TSym?
    ensures Factor(ts + rest) == Some(Parsed(e, rest))
  {
    var all := ts + rest;
    if ts == [TSym(e)] {
      assert all[1..] == rest;
    } else {
      assert all[3..] == rest;
    }
  }

  lemma NotParses(ts: seq<Token>, e: Expr, rest: seq<Token>)
    requires |ts| > 1 && ts[0] == TNot && Factor(ts[1..] + rest) == Some(Parsed(e, rest))
    ensures Factor(ts + rest) == Some(Parsed(Not(e), rest))
  {
    hide Expression;
    assert (ts + rest)[1..] == ts[1..] + rest;
  }

  lemma ParenParses(ts: seq<Token>, e: Expr, rest: seq<Token>)
    requires Expression(ts + ([TClose] + rest)) == Some(Parsed(e, [TClose] + rest))
    ensures Factor(Paren(ts) + rest) == Some(Parsed(e, rest))
  {
    hide Expression;
    var more := [TClose] + rest;
    assert (Paren(ts) + rest)[1..] == ts + more && more[1..] == rest;
  }

  lemma AndParses(ts: seq<Token>, l: Expr, r: Expr, tail: seq<Token>, rest: seq<Token>)
    requires Factor(ts + ([TAnd] + tail)) == Some(Parsed(l, [TAnd] + tail))
    requires Conjunction(tail) == Some(Parsed(r, rest))
    ensures Conjunction(ts + ([TAnd] + tail)) == Some(Parsed(And(l, r), rest))
  {
    hide Factor;
    assert ([TAnd] + tail)[1..] == tail;
  }

  lemma OrParses(ts: seq<Token>, l: Expr, r: Expr, tail: seq<Token>, rest: seq<Token>)
    requires Conjunction(ts + ([TOr] + tail)) == Some(Parsed(l, [TOr] + tail))
    requires Expression(tail) == Some(Parsed(r, rest))
    ensures Expression(ts + ([TOr] + tail)) == Some(Parsed(Or(l, r), rest))
  {
    hide Conjunction;
    assert ([TOr] + tail)[1..] == tail;
  }

  lemma LoneFactor(ts: seq<Token>, e: Expr, rest: seq<Token>)
    requires Factor(ts + rest) == Some(Parsed(e, rest)) && (rest == [] || rest[0] != TAnd)
    ensures Conjunction(ts + rest) == Some(Parsed(e, rest))
  {
    hide Factor;
  }

  lemma LoneConjunction(ts: seq<Token>, e: Expr, rest: seq<Token>)
    requires Conjunction(ts + rest) == Some(Parsed(e, rest)) && (rest == [] || rest[0] != TOr)
    ensures Expression(ts + rest) == Some(Parsed(e, rest))
  {
    hide Conjunction;
  }

  lemma {:induction false} ConjunctionParses(ts: seq<Token>, e: Expr, rest: seq<Token>)
    requires IsConjunction(ts, e) && AfterConjunction(ts, rest)
    ensures Conjunction(ts + rest) == Some(Parsed(e, rest))
    decreases |ts|, 1
  {
    hide Factor, Conjunction, IsFactor, IsConjunction, AfterFactor;
    if IsFactor(ts, e) {
      FactorParses(ts, e, rest);
      LoneFactor(ts, e, rest);
    } else {
      var k := AndCut(ts, e);
      var right := ts[k + 1..];
      NotNothing(right, e.r);
      AfterSuffix(ts, k, rest);
      ConjunctionParses(right, e.r, rest);
      NoRelation(ts[..k], [TAnd] + (right + rest));
      FactorParses(ts[..k], e.l, [TAnd] + (right + rest));
      AndParses(ts[..k], e.l, e.r, right + rest, rest);
      assert ts + rest == ts[..k] + ([TAnd] + (right + rest));
    }
  }

  lemma {:induction false} ExpressionParses(ts: seq<Token>, e: Expr, rest: seq<Token>)
    requires IsExpression(ts, e) && AfterExpression(ts, rest)
    ensures Expression(ts + rest) == Some(Parsed(e, rest))
    decreases |ts|, 2
  {
    hide Conjunction, Expression, IsConjunction, IsExpression, AfterFactor;
    if IsConjunction(ts, e) {
      ConjunctionParses(ts, e, rest);
      LoneConjunction(ts, e, rest);
    } else {
      var k := OrCut(ts, e);
      var right := ts[k + 1..];
      NotNothing(right, e.r);
      AfterSuffix(ts, k, rest);
      ExpressionParses(right, e.r, rest);
      NoRelation(ts[..k], [TOr] + (right + rest));
      ConjunctionParses(ts[..k], e.l, [TOr] + (right + rest));
      OrParses(ts[..k], e.l, e.r, right + rest, rest);
      assert ts + rest == ts[..k] + ([TOr] + (right + rest));
    }
  }

  lemma AndCut(ts: seq<Token>, e: Expr) returns (k: nat)
    requires IsConjunction(ts, e) && !IsFactor(ts, e)
    ensures e.And? && k < |ts| && ts[k] == TAnd && IsFactor(ts[..k], e.l) && IsConjunction(ts[k + 1..], e.r)
  {
    hide IsFactor;
    k :| 0 <= k < |ts| && ts[k] == TAnd && IsFactor(ts[..k], e.l) && IsConjunction(ts[k + 1..], e.r);
  }

  lemma OrCut(ts: seq<Token>, e: Expr) returns (k: nat)
    requires IsExpression(ts, e) && !IsConjunction(ts, e)
    ensures e.Or? && k < |ts| && ts[k] == TOr && IsConjunction(ts[..k], e.l) && IsExpression(ts[k + 1..], e.r)
  {
    hide IsConjunction;
    k :| 0 <= k < |ts| && ts[k] == TOr && IsConjunction(ts[..k], e.l) && IsExpression(ts[k + 1..], e.r);
  }

  lemma NoRelation(ts: seq<Token>, rest: seq<Token>)
    requires rest != [] && !rest[0].TRel?
    ensures AfterFactor(ts, rest)
  {
  }

  lemma NotNothing(ts: seq<Token>, e: Expr)
    ensures IsConjunction(ts, e) || IsExpression(ts, e) ==> ts != []
  {
    assert !IsFactor([], e);
    assert !IsConjunction([], e);
  }

  lemma ParsedIsDerived(ts: seq<Token>, e: Expr, n: nat)
    requires n <= |ts| && Expression(ts) == Some(Parsed(e, ts[n..]))
    ensures IsExpression(ts[..n], e) && AfterExpression(ts[..n], ts[n..])
  {
    hide Expression, IsExpression, AfterExpression;
    var m := ExpressionDerives(ts);
    assert |ts[m..]| == |ts[n..]|;
  }

  lemma DerivedIsParsed(ts: seq<Token>, e: Expr, n: nat)
    requires n <= |ts| && IsExpression(ts[..n], e) && AfterExpression(ts[..n], ts[n..])
    ensures Expression(ts) == Some(Parsed(e, ts[n..]))
  {
    hide Expression, IsExpression, AfterExpression;
    ExpressionParses(ts[..n], e, ts[n..]);
    assert ts[..n] + ts[n..] == ts;
  }

  /** The parser against the grammar: it takes a prefix exactly when that is derived and what follows cannot belong
      to it, so there is at most one such prefix and tree. */
  lemma ParsesExactly(ts: seq<Token>, e: Expr, n: nat)
    requires n <= |ts|
    ensures Expression(ts) == Some(Parsed(e, ts[n..])) <==>
      IsExpression(ts[..n], e) && AfterExpression(ts[..n], ts[n..])
  {
    hide Expression, IsExpression, AfterExpression;
    if Expression(ts) == Some(Parsed(e, ts[n..])) {
      ParsedIsDerived(ts, e, n);
    }
    if IsExpression(ts[..n], e) && AfterExpression(ts[..n], ts[n..]) {
      DerivedIsParsed(ts, e, n);
    }
  }

  /** A whole line is parsed to e exactly when it is an expression for e. */
  lemma WholeParse(ts: seq<Token>, e: Expr)
    ensures IsExpression(ts, e) <==> Expression(ts) == Some(Parsed(e, []))
  {
    hide Expression, IsExpression, AfterFactor;
    ParsesExactly(ts, e, |ts|);
    assert ts[..|ts|] == ts && ts[|ts|..] == [];
    NothingAfter(ts);
  }

  lemma NothingAfter(ts: seq<Token>)
    ensures AfterFactor(ts, [])
  {
  }

  /** The parser as it runs: a token list and an index that the parsing methods advance. */
  class Parser {
    const tokens: seq<Token>
    var i: nat

    constructor (tokens: seq<Token>)
      ensures this.tokens == tokens && i == 0
    {
      this.tokens := tokens;
      i := 0;
    }

    predicate InRange()
      reads this
    {
      i <= |tokens|
    }

    /** What a method result means in terms of the parsing functions on the tokens left. */
    ghost predicate Did(spec: Option<Parsed>, r: Option<Expr>)
      reads this
    {
      (r.None? <==> spec.None?) && (r.Some? ==> InRange() && spec == Some(Parsed(r.value, tokens[i..])))
    }

    method CheckToken(t: Token) returns (b: bool)
      requires InRange()
      modifies this`i
      ensures InRange() && (b <==> old(i) < |tokens| && tokens[old(i)] == t)
      ensures i == if b then old(i) + 1 else old(i)
    {
      b := i < |tokens| && tokens[i] == t;
      if b { i := i + 1; }
    }

    /** _expect_expr_and_eol */
    method ExpectExprAndEol() returns (r: Option<Expr>)
      requires InRange()
      modifies this`i
      ensures r.Some? ==> IsExpression(tokens[old(i)..], r.value) && i == |tokens|
      ensures r.None? ==> forall e :: !IsExpression(tokens[old(i)..], e)
    {
      hide Expression, IsExpression;
      ghost var ts := tokens[i..];
      var e := ParseExpr();
      forall x ensures IsExpression(ts, x) <==> Expression(ts) == Some(Parsed(x, [])) {
        WholeParse(ts, x);
      }
      if e.Some? && i == |tokens| {
        assert tokens[i..] == [];
        return e;
      }
      return None;
    }

    method ParseExpr() returns (r: Option<Expr>)
      requires InRange()
      modifies this`i
      ensures Did(Expression(tokens[old(i)..]), r)
      decreases |tokens| - i, 2
    {
      ghost var ts := tokens[i..];
      var andExpr := ParseAndExpr();
      if andExpr.None? {
        return None;
      }
      ghost var rest := tokens[i..];
      var more := CheckToken(TOr);
      if !more {
        return andExpr;
      }
      assert tokens[i..] == rest[1..];
      var right := ParseExpr();
      return if right.None? then None else Some(Or(andExpr.value, right.value));
    }

    method ParseAndExpr() returns (r: Option<Expr>)
      requires InRange()
      modifies this`i
      ensures Did(Conjunction(tokens[old(i)..]), r)
      decreases |tokens| - i, 1
    {
      var factor := ParseFactor();
      if factor.None? {
        return None;
      }
      ghost var rest := tokens[i..];
      var more := CheckToken(TAnd);
      if !more {
        return factor;
      }
      assert tokens[i..] == rest[1..];
      var right := ParseAndExpr();
      return if right.None? then None else Some(And(factor.value, right.value));
    }

    method ParseFactor() returns (r: Option<Expr>)
      requires InRange()
      modifies this`i
      ensures Did(Factor(tokens[old(i)..]), r)
      decreases |tokens| - i, 0
    {
      ghost var ts := tokens[i..];
      if i == |tokens| {
        return None;
      }
      var token := tokens[i];
      i := i + 1;
      assert tokens[i..] == ts[1..];
      if token.TSym? {
        if i == |tokens| || !tokens[i].TRel? {
          return Some(token.e);
        }
        i := i + 1;
        if i < |tokens| && tokens[i].TSym? {
          i := i + 1;
          assert tokens[i..] == ts[3..] && tokens[i - 1] == ts[2] && tokens[i - 2] == ts[1];
          return Some(Rel(tokens[i - 2].op, token.e, tokens[i - 1].e));
        }
        return None;
      }
      if token == TNot {
        var f := ParseFactor();
        return if f.None? then None else Some(Not(f.value));
      }
      if token == TOpen {
        var inner := ParseExpr();
        if inner.None? {
          return None;
        }
        ghost var rest := tokens[i..];
        var closed := CheckToken(TClose);
        if closed {
          assert tokens[i..] == rest[1..];
          return inner;
        }
      }
      return None;
    }
  }

  // ----- right association -----

  function JoinAnd(l: Expr, r: Expr): Expr {
    match l
    case And(a, b) => And(a, JoinAnd(b, r))
    case _ => And(l, r)
  }

  function JoinOr(l: Expr, r: Expr): Expr {
    match l
    case Or(a, b) => Or(a, JoinOr(b, r))
    case _ => Or(l, r)
  }

  /** The same expression with every chain of && and of || grouped to the right. */
  function RightAssoc(e: Expr): Expr {
    match e
    case And(l, r) => JoinAnd(RightAssoc(l), RightAssoc(r))
    case Or(l, r) => JoinOr(RightAssoc(l), RightAssoc(r))
    case Not(f) => Not(RightAssoc(f))
    case _ => e
  }

  lemma {:induction false} JoinAndAssociative(a: Expr, b: Expr, c: Expr)
    ensures JoinAnd(JoinAnd(a, b), c) == JoinAnd(a, JoinAnd(b, c))
  {
    if a.And? { JoinAndAssociative(a.r, b, c); }
  }

  lemma {:induction false} JoinOrAssociative(a: Expr, b: Expr, c: Expr)
    ensures JoinOr(JoinOr(a, b), c) == JoinOr(a, JoinOr(b, c))
  {
    if a.Or? { JoinOrAssociative(a.r, b, c); }
  }

  lemma {:induction false} RightAssocKeepsTop(e: Expr)
    ensures RightAssoc(e).And? <==> e.And?
    ensures RightAssoc(e).Or? <==> e.Or?
  {
  }

  // ----- the round trip -----

  predicate NotRelation(rest: seq<Token>) {
    rest == [] || !rest[0].TRel?
  }

  predicate EndsConjunction(rest: seq<Token>) {
    NotRelation(rest) && (rest == [] || rest[0] != TAnd)
  }

  predicate EndsExpression(rest: seq<Token>) {
    EndsConjunction(rest) && (rest == [] || rest[0] != TOr)
  }

  lemma {:induction false} FactorRoundTrip(e: Expr, rest: seq<Token>)
    requires Printable(e) && !e.And? && !e.Or? && NotRelation(rest)
    ensures Factor(Print(e) + rest) == Some(Parsed(RightAssoc(e), rest))
    decreases e, 0
  {
    match e
    case Const(_) => assert (Print(e) + rest)[1..] == rest;
    case Leaf(_) => assert (Print(e) + rest)[1..] == rest;
    case Rel(op, a, b) => assert (Print(e) + rest)[3..] == rest;
    case Not(f) =>
      if Atom(f) {
        assert (Print(e) + rest)[1..] == Print(f) + rest;
        FactorRoundTrip(f, rest);
      } else {
        assert (Print(e) + rest)[1..] == Paren(Print(f)) + rest;
        ParenRoundTrip(f, rest);
      }
  }

  lemma {:induction false} ParenRoundTrip(e: Expr, rest: seq<Token>)
    requires Printable(e)
    ensures Factor(Paren(Print(e)) + rest) == Some(Parsed(RightAssoc(e), rest))
    decreases e, 3
  {
    var ts := Paren(Print(e)) + rest;
    assert ts[1..] == Print(e) + ([TClose] + rest);
    RoundTrip(e, [TClose] + rest);
    assert ([TClose] + rest)[1..] == rest;
  }

  /** One operand of a conjunction, then && and a conjunction already known to parse. */
  lemma {:induction false} AndChain(e: Expr, tail: seq<Token>, x: Expr, rest: seq<Token>)
    requires Printable(e) && Conjunction(tail) == Some(Parsed(x, rest))
    ensures Conjunction(AndOperand(e) + [TAnd] + tail) == Some(Parsed(JoinAnd(RightAssoc(e), x), rest))
    decreases e, 4
  {
    hide Expression, Factor, JoinOr;
    if e.And? {
      var right := AndOperand(e.r) + [TAnd] + tail;
      AndChain(e.r, tail, x, rest);
      AndChain(e.l, right, JoinAnd(RightAssoc(e.r), x), rest);
      assert AndOperand(e) + [TAnd] + tail == AndOperand(e.l) + [TAnd] + right;
      JoinAndAssociative(RightAssoc(e.l), RightAssoc(e.r), x);
    } else {
      var more := [TAnd] + tail;
      assert AndOperand(e) + [TAnd] + tail == AndOperand(e) + more;
      if e.Or? { ParenRoundTrip(e, more); } else { FactorRoundTrip(e, more); }
      assert more[1..] == tail;
      RightAssocKeepsTop(e);
    }
  }

  lemma {:induction false} AndRoundTrip(e: Expr, rest: seq<Token>)
    requires Printable(e) && EndsConjunction(rest)
    ensures Conjunction(AndOperand(e) + rest) == Some(Parsed(RightAssoc(e), rest))
    decreases e, 4
  {
    hide Expression, Factor, JoinOr;
    if e.And? {
      AndRoundTrip(e.r, rest);
      AndChain(e.l, AndOperand(e.r) + rest, RightAssoc(e.r), rest);
      assert AndOperand(e) + rest == AndOperand(e.l) + [TAnd] + (AndOperand(e.r) + rest);
    } else if e.Or? {
      ParenRoundTrip(e, rest);
    } else {
      FactorRoundTrip(e, rest);
    }
  }

  lemma {:induction false} OrChain(e: Expr, tail: seq<Token>, x: Expr, rest: seq<Token>)
    requires Printable(e) && Expression(tail) == Some(Parsed(x, rest))
    ensures Expression(OrOperand(e) + [TOr] + tail) == Some(Parsed(JoinOr(RightAssoc(e), x), rest))
    decreases e, 4
  {
    if e.Or? {
      var right := OrOperand(e.r) + [TOr] + tail;
      OrChain(e.r, tail, x, rest);
      OrChain(e.l, right, JoinOr(RightAssoc(e.r), x), rest);
      assert OrOperand(e) + [TOr] + tail == OrOperand(e.l) + [TOr] + right;
      JoinOrAssociative(RightAssoc(e.l), RightAssoc(e.r), x);
    } else {
      var more := [TOr] + tail;
      assert OrOperand(e) + [TOr] + tail == OrOperand(e) + more;
      if e.And? { ParenRoundTrip(e, more); } else { FactorRoundTrip(e, more); }
      assert more[1..] == tail;
      RightAssocKeepsTop(e);
    }
  }

  lemma {:induction false} OrRoundTrip(e: Expr, rest: seq<Token>)
    requires Printable(e) && EndsExpression(rest)
    ensures Expression(OrOperand(e) + rest) == Some(Parsed(RightAssoc(e), rest))
    decreases e, 4
  {
    if e.Or? {
      OrRoundTrip(e.r, rest);
      OrChain(e.l, OrOperand(e.r) + rest, RightAssoc(e.r), rest);
      assert OrOperand(e) + rest == OrOperand(e.l) + [TOr] + (OrOperand(e.r) + rest);
    } else if e.And? {
      ParenRoundTrip(e, rest);
    } else {
      FactorRoundTrip(e, rest);
    }
  }

  /** Parsing what was printed, in any context that ends an expression, consumes exactly the printed tokens and
      yields the right-associated expression. */
  lemma {:induction false} RoundTrip(e: Expr, rest: seq<Token>)
    requires Printable(e) && EndsExpression(rest)
    ensures Expression(Print(e) + rest) == Some(Parsed(RightAssoc(e), rest))
    decreases e, 2
  {
    hide Factor, JoinOr, JoinAnd;
    if e.And? {
      AndRoundTrip(e.r, rest);
      AndChain(e.l, AndOperand(e.r) + rest, RightAssoc(e.r), rest);
      assert Print(e) + rest == AndOperand(e.l) + [TAnd] + (AndOperand(e.r) + rest);
    } else if e.Or? {
      OrRoundTrip(e.r, rest);
      OrChain(e.l, OrOperand(e.r) + rest, RightAssoc(e.r), rest);
      assert Print(e) + rest == OrOperand(e.l) + [TOr] + (OrOperand(e.r) + rest);
    } else {
      FactorRoundTrip(e, rest);
    }
  }

  // ----- values -----

  /** expr_value under an assignment of n, m and y to the items. */
  function ValueUnder(e: Expr, env: Item -> nat): nat {
    match e
    case Const(v) => v
    case Leaf(i) => env(i)
    case And(l, r) => var x := ValueUnder(l, env); if x == 0 then 0 else ApplyLazy(AndOp, x, ValueUnder(r, env))
    case Or(l, r) => var x := ValueUnder(l, env); if x == 2 then 2 else ApplyLazy(OrOp, x, ValueUnder(r, env))
    case Not(f) => ApplyUnary(NegateOp, ValueUnder(f, env))
    case Rel(op, a, b) => Related(op, ValueUnder(a, env), ValueUnder(b, env))
  }

  /** && is the lesser value, || the greater, ! the complement. */
  lemma ConnectivesAreMinMax(l: Expr, r: Expr, env: Item -> nat)
    ensures var x, y := ValueUnder(l, env), ValueUnder(r, env);
      && ValueUnder(And(l, r), env) == (if x <= y then x else y)
      && (x <= 2 && y <= 2 ==> ValueUnder(Or(l, r), env) == if x >= y then x else y)
      && (x <= 2 ==> ValueUnder(Not(l), env) + x == 2)
  {
  }

  /** A relation is y when it holds of the values and n when not. */
  lemma RelationsCompare(op: Relation, a: Expr, b: Expr, env: Item -> nat)
    ensures var x, y := ValueUnder(a, env), ValueUnder(b, env);
      var holds := (op.Equal? && x == y) || (op.Unequal? && x != y) || (op.Less? && x < y) || (op.LessEqual? && x <= y)
        || (op.Greater? && x > y) || (op.GreaterEqual? && x >= y);
      ValueUnder(Rel(op, a, b), env) == if holds then 2 else 0
  {
  }

  predicate TriConstants(e: Expr) {
    match e
    case Const(v) => v <= 2
    case Leaf(_) => true
    case And(l, r) => TriConstants(l) && TriConstants(r)
    case Or(l, r) => TriConstants(l) && TriConstants(r)
    case Not(f) => TriConstants(f)
    case Rel(_, a, b) => TriConstants(a) && TriConstants(b)
  }

  lemma {:induction false} ValueIsTri(e: Expr, env: Item -> nat)
    requires TriConstants(e) && forall i :: env(i) <= 2
    ensures ValueUnder(e, env) <= 2
  {
    match e
    case And(l, r) => ValueIsTri(l, env); ValueIsTri(r, env);
    case Or(l, r) => ValueIsTri(l, env); ValueIsTri(r, env);
    case Not(f) => ValueIsTri(f, env);
    case _ =>
  }

  lemma {:induction false} JoinAndValue(l: Expr, r: Expr, env: Item -> nat)
    ensures ValueUnder(JoinAnd(l, r), env) == ValueUnder(And(l, r), env)
  {
    if l.And? { JoinAndValue(l.r, r, env); }
  }

  lemma {:induction false} JoinOrValue(l: Expr, r: Expr, env: Item -> nat)
    requires TriConstants(l) && TriConstants(r) && forall i :: env(i) <= 2
    ensures ValueUnder(JoinOr(l, r), env) == ValueUnder(Or(l, r), env) && TriConstants(JoinOr(l, r))
  {
    ValueIsTri(l, env);
    ValueIsTri(r, env);
    if l.Or? {
      ValueIsTri(l.l, env);
      ValueIsTri(l.r, env);
      JoinOrValue(l.r, r, env);
    }
  }

  lemma {:induction false} JoinAndTri(l: Expr, r: Expr)
    requires TriConstants(l) && TriConstants(r)
    ensures TriConstants(JoinAnd(l, r))
  {
    if l.And? { JoinAndTri(l.r, r); }
  }

  lemma {:induction false} RightAssocKeepsValue(e: Expr, env: Item -> nat)
    requires TriConstants(e) && forall i :: env(i) <= 2
    ensures TriConstants(RightAssoc(e)) && ValueUnder(RightAssoc(e), env) == ValueUnder(e, env)
  {
    match e
    case And(l, r) =>
      RightAssocKeepsValue(l, env); RightAssocKeepsValue(r, env);
      JoinAndValue(RightAssoc(l), RightAssoc(r), env);
      JoinAndTri(RightAssoc(l), RightAssoc(r));
    case Or(l, r) =>
      RightAssocKeepsValue(l, env); RightAssocKeepsValue(r, env);
      JoinOrValue(RightAssoc(l), RightAssoc(r), env);
    case Not(f) => RightAssocKeepsValue(f, env);
    case _ =>
  }

  /** Printing and parsing back never changes what an expression evaluates to. */
  lemma RoundTripKeepsValue(e: Expr, env: Item -> nat)
    requires Printable(e) && TriConstants(e) && forall i :: env(i) <= 2
    ensures Expression(Print(e)).Some? && Expression(Print(e)).value.rest == []
    ensures ValueUnder(Expression(Print(e)).value.e, env) == ValueUnder(e, env)
  {
    assert Print(e) + [] == Print(e);
    RoundTrip(e, []);
    RightAssocKeepsValue(e, env);
  }

  /** The regrouped expression prints as before, so a second round trip changes nothing. */
  lemma {:induction false} RegroupedPrintsTheSame(e: Expr)
    ensures Print(RightAssoc(e)) == Print(e) && AndOperand(RightAssoc(e)) == AndOperand(e)
      && OrOperand(RightAssoc(e)) == OrOperand(e)
  {
    RightAssocKeepsTop(e);
    match e
    case And(l, r) =>
      RegroupedPrintsTheSame(l); RegroupedPrintsTheSame(r);
      JoinAndPrints(RightAssoc(l), RightAssoc(r));
    case Or(l, r) =>
      RegroupedPrintsTheSame(l); RegroupedPrintsTheSame(r);
      JoinOrPrints(RightAssoc(l), RightAssoc(r));
    case Not(f) => RegroupedPrintsTheSame(f);
    case _ =>
  }

  lemma Reassociate(a: seq<Token>, x: seq<Token>, b: seq<Token>, c: seq<Token>)
    ensures a + x + (b + x + c) == a + x + b + x + c
  {
  }

  lemma {:induction false} JoinAndPrints(l: Expr, r: Expr)
    ensures Print(JoinAnd(l, r)) == AndOperand(l) + [TAnd] + AndOperand(r)
  {
    if l.And? {
      JoinAndPrints(l.r, r);
      Reassociate(AndOperand(l.l), [TAnd], AndOperand(l.r), AndOperand(r));
    }
  }

  lemma {:induction false} JoinOrPrints(l: Expr, r: Expr)
    ensures Print(JoinOr(l, r)) == OrOperand(l) + [TOr] + OrOperand(r)
  {
    if l.Or? {
      JoinOrPrints(l.r, r);
      Reassociate(OrOperand(l.l), [TOr], OrOperand(l.r), OrOperand(r));
    }
  }
}
