/**
 Comparison of formulas up to reordering, and removal of common factors: `expr_eq`,
 `expr_eliminate_eq`, `expr_extract_eq` of common/kconfig/expr.c. The three C routines run in place
 on private copies; here they return the rewritten trees.
 */
module KconfigEq {
  import opened KconfigExpr

  /**
   `__expr_eliminate_eq`: walk the operands of both `op` chains and replace each pair of equal
   operands by the neutral element of `op`.
   */
  function Cancel(op: Op, e1: Expr, e2: Expr): (r: (Expr, Expr))
    ensures Size(r.0) <= Size(e1) && Size(r.1) <= Size(e2)
    ensures Is(op, e1) ==> Is(op, r.0)
    ensures Is(op, e2) ==> Is(op, r.1)
    decreases Size(e1) + Size(e2), if Is(op, e1) || Is(op, e2) then 0 else 3
  {
    if Is(op, e1) then
      var (l, x) := Cancel(op, e1.left, e2);
      var (r, y) := Cancel(op, e1.right, x);
      (Join(op, l, r), y)
    else if Is(op, e2) then
      var (x, l) := Cancel(op, e1, e2.left);
      var (y, r) := Cancel(op, x, e2.right);
      (y, Join(op, l, r))
    else if e1.Sym? && e2.Sym? && e1.sym == e2.sym && e1.sym.HasYesOrNoFlag() then
      (e1, e2)
    else if ExprEq(e1, e2) then
      (Neutral(op), Neutral(op))
    else
      (e1, e2)
  }

  /** `expr_eliminate_eq`: cancel along e1's chain, then along e2's if that is a different connective. */
  function EliminateEq(e1: Expr, e2: Expr): (Expr, Expr)
    decreases Size(e1) + Size(e2), 1
  {
    var (a1, a2) := if IsConnective(e1) then Cancel(OpOf(e1), e1, e2) else (e1, e2);
    var (b1, b2) := if IsConnective(a2) && !Is(OpOf(a2), a1) then Cancel(OpOf(a2), a1, a2) else (a1, a2);
    (EliminateYn(b1), EliminateYn(b2))
  }

  predicate ExprEq(e1: Expr, e2: Expr)
    decreases Size(e1) + Size(e2), 2
  {
    match (e1, e2)
    case (Equal(a, b), Equal(c, d)) => a == c && b == d
    case (Unequal(a, b), Unequal(c, d)) => a == c && b == d
    case (Sym(a), Sym(b)) => a == b
    case (Not(a), Not(b)) => ExprEq(a, b)
    case (And(_, _), And(_, _)) => SameSymbol(EliminateEq(e1, e2))
    case (Or(_, _), Or(_, _)) => SameSymbol(EliminateEq(e1, e2))
    case _ => false
  }

  predicate SameSymbol(p: (Expr, Expr)) {
    p.0.Sym? && p.0 == p.1
  }

  /** `expr_extract_eq` without the list of extracted factors, which no caller looks at. */
  function Extract(op: Op, e1: Expr, e2: Expr): (r: (Expr, Expr, bool))
    ensures Size(r.0) <= Size(e1) && Size(r.1) <= Size(e2)
    decreases Size(e1) + Size(e2)
  {
    if Is(op, e1) then
      var (l, x, c) := Extract(op, e1.left, e2);
      var (r, y, d) := Extract(op, e1.right, x);
      (Join(op, l, r), y, c || d)
    else if Is(op, e2) then
      var (x, l, c) := Extract(op, e1, e2.left);
      var (y, r, d) := Extract(op, x, e2.right);
      (y, Join(op, l, r), c || d)
    else if ExprEq(e1, e2) then
      (Neutral(op), Neutral(op), true)
    else
      (e1, e2, false)
  }

  /** `expr_extract_eq_and` / `expr_extract_eq_or`: literals are folded only if something was extracted. */
  function ExtractEq(op: Op, e1: Expr, e2: Expr): (Expr, Expr) {
    var (a, b, found) := Extract(op, e1, e2);
    if found then (EliminateYn(a), EliminateYn(b)) else (a, b)
  }

  // ---- soundness: every routine removes one common factor ----

  /** x and y are what is left of e1 and e2 once the common factor k of `op` is taken out. */
  ghost predicate Factors(op: Op, k: Tristate, e1: Expr, e2: Expr, x: Expr, y: Expr, env: Env) {
    && Value(e1, env) == Combine(op, k, Value(x, env))
    && Value(e2, env) == Combine(op, k, Value(y, env))
  }

  /** Factors taken out of the two operands of a chain combine into one factor of the chain. */
  lemma FactorsOfChain(op: Op, k1: Tristate, k2: Tristate, l: Tristate, r: Tristate)
    ensures Combine(op, Combine(op, k1, l), Combine(op, k2, r)) == Combine(op, Combine(op, k1, k2), Combine(op, l, r))
    ensures Combine(op, k1, Combine(op, k2, r)) == Combine(op, Combine(op, k1, k2), r)
  {
  }

  /** Taking k1 out of e1's left operand and then k2 out of its right one. */
  lemma ChainLeft(op: Op, k1: Tristate, k2: Tristate, e1: Expr, e2: Expr,
                  l: Expr, x: Expr, r: Expr, y: Expr, env: Env)
    requires Is(op, e1)
    requires Factors(op, k1, e1.left, e2, l, x, env)
    requires Factors(op, k2, e1.right, x, r, y, env)
    ensures Factors(op, Combine(op, k1, k2), e1, e2, Join(op, l, r), y, env)
  {
    FactorsOfChain(op, k1, k2, Value(l, env), Value(r, env));
    FactorsOfChain(op, k1, k2, Value(l, env), Value(y, env));
    assert Value(e1, env) == Combine(op, Value(e1.left, env), Value(e1.right, env));
    assert Value(Join(op, l, r), env) == Combine(op, Value(l, env), Value(r, env));
  }

  lemma ChainRight(op: Op, k1: Tristate, k2: Tristate, e1: Expr, e2: Expr,
                   x: Expr, l: Expr, y: Expr, r: Expr, env: Env)
    requires Is(op, e2)
    requires Factors(op, k1, e1, e2.left, x, l, env)
    requires Factors(op, k2, x, e2.right, y, r, env)
    ensures Factors(op, Combine(op, k1, k2), e1, e2, y, Join(op, l, r), env)
  {
    assert Factors(op, k1, e2.left, e1, l, x, env);
    assert Factors(op, k2, e2.right, x, r, y, env);
    ChainLeft(op, k1, k2, e2, e1, l, x, r, y, env);
  }

  lemma {:induction false} CancelFactors(op: Op, e1: Expr, e2: Expr, env: Env) returns (k: Tristate)
    requires Fixed(env)
    ensures var r := Cancel(op, e1, e2); Factors(op, k, e1, e2, r.0, r.1, env)
    decreases Size(e1) + Size(e2), if Is(op, e1) || Is(op, e2) then 0 else 3
  {
    k := Value(Neutral(op), env);
    if Is(op, e1) {
      var (l, x) := Cancel(op, e1.left, e2);
      var k1 := CancelFactors(op, e1.left, e2, env);
      var k2 := CancelFactors(op, e1.right, x, env);
      var (r, y) := Cancel(op, e1.right, x);
      ChainLeft(op, k1, k2, e1, e2, l, x, r, y, env);
      k := Combine(op, k1, k2);
    } else if Is(op, e2) {
      var (x, l) := Cancel(op, e1, e2.left);
      var k1 := CancelFactors(op, e1, e2.left, env);
      var k2 := CancelFactors(op, x, e2.right, env);
      var (y, r) := Cancel(op, x, e2.right);
      ChainRight(op, k1, k2, e1, e2, x, l, y, r, env);
      k := Combine(op, k1, k2);
    } else if ExprEq(e1, e2) && Cancel(op, e1, e2) != (e1, e2) {
      ExprEqSound(e1, e2, env);
      k := Value(e1, env);
    }
  }

  /** Equal by `expr_eq` means equal in value, whatever the symbols are. */
  lemma {:induction false} ExprEqSound(e1: Expr, e2: Expr, env: Env)
    requires Fixed(env)
    requires ExprEq(e1, e2)
    ensures Value(e1, env) == Value(e2, env)
    decreases Size(e1) + Size(e2), 2
  {
    if e1.Not? {
      ExprEqSound(e1.arg, e2.arg, env);
    } else if IsConnective(e1) {
      var k := CancelFactors(OpOf(e1), e1, e2, env);
      var r := Cancel(OpOf(e1), e1, e2);
      EliminateYnSound(r.0, env);
      EliminateYnSound(r.1, env);
    }
  }

  lemma {:induction false} ExtractFactors(op: Op, e1: Expr, e2: Expr, env: Env) returns (k: Tristate)
    requires Fixed(env)
    ensures var r := Extract(op, e1, e2); Factors(op, k, e1, e2, r.0, r.1, env)
    decreases Size(e1) + Size(e2)
  {
    k := Value(Neutral(op), env);
    if Is(op, e1) {
      var (l, x, _) := Extract(op, e1.left, e2);
      var (r, y, _) := Extract(op, e1.right, x);
      var k1 := ExtractFactors(op, e1.left, e2, env);
      var k2 := ExtractFactors(op, e1.right, x, env);
      ChainLeft(op, k1, k2, e1, e2, l, x, r, y, env);
      k := Combine(op, k1, k2);
    } else if Is(op, e2) {
      var (x, l, _) := Extract(op, e1, e2.left);
      var (y, r, _) := Extract(op, x, e2.right);
      var k1 := ExtractFactors(op, e1, e2.left, env);
      var k2 := ExtractFactors(op, x, e2.right, env);
      ChainRight(op, k1, k2, e1, e2, x, l, y, r, env);
      k := Combine(op, k1, k2);
    } else if ExprEq(e1, e2) {
      ExprEqSound(e1, e2, env);
      k := Value(e1, env);
    }
  }

  /** If extraction leaves nothing of e1, then e1 bounds e2: from above for &&, from below for ||. */
  lemma ExtractedBounds(op: Op, e1: Expr, e2: Expr, env: Env)
    requires Fixed(env)
    requires ExtractEq(op, e1, e2).0 == Neutral(op)
    ensures Value(e2, env) == Combine(op, Value(e1, env), Value(e2, env))
  {
    var k := ExtractFactors(op, e1, e2, env);
    var (a, b, found) := Extract(op, e1, e2);
    EliminateYnSound(a, env);
  }

  /**
   `expr_eliminate_eq` takes out a factor k of e1's connective and then a factor j of e2's; what
   remains of e1 and e2 is exactly what the routine returns.
   */
  lemma EliminateEqFactors(e1: Expr, e2: Expr, env: Env)
    returns (op1: Op, k: Tristate, op2: Op, j: Tristate)
    requires Fixed(env)
    ensures var (x, y) := EliminateEq(e1, e2);
            && Value(e1, env) == Combine(op1, k, Combine(op2, j, Value(x, env)))
            && Value(e2, env) == Combine(op1, k, Combine(op2, j, Value(y, env)))
  {
    op1, k, op2, j := OpOr, NO, OpOr, NO;
    var (a1, a2) := if IsConnective(e1) then Cancel(OpOf(e1), e1, e2) else (e1, e2);
    if IsConnective(e1) {
      op1 := OpOf(e1);
      k := CancelFactors(op1, e1, e2, env);
    }
    var (b1, b2) := if IsConnective(a2) && !Is(OpOf(a2), a1) then Cancel(OpOf(a2), a1, a2) else (a1, a2);
    if IsConnective(a2) && !Is(OpOf(a2), a1) {
      op2 := OpOf(a2);
      j := CancelFactors(op2, a1, a2, env);
    }
    EliminateYnSound(b1, env);
    EliminateYnSound(b2, env);
  }

  /** The test of `menu_finalize`: if e2 is reduced to y, e1 is never more visible than e2. */
  lemma EliminateEqImplies(e1: Expr, e2: Expr, env: Env)
    requires Fixed(env)
    requires EliminateEq(e1, e2).1 == Sym(SymYes)
    ensures Value(e1, env) <= Value(e2, env)
  {
    var op1, k, op2, j := EliminateEqFactors(e1, e2, env);
  }
}
