/**
 The pairwise simplifications of two operands of one chain: `expr_join_or` and `expr_join_and` of
 common/kconfig/expr.c. Null means "no rule applies".
 */
module KconfigMerge {
  import opened KconfigExpr
  import opened KconfigEq

  /** A comparison or a plain symbol, the shapes whose `left.sym` is meaningful. */
  predicate IsAtom(e: Expr) {
    e.Equal? || e.Unequal? || e.Sym?
  }

  function AtomSymbol(e: Expr): Symbol
    requires IsAtom(e)
  {
    if e.Sym? then e.sym else e.lhs
  }

  /** The first operand may negate any atom, the second only a symbol. */
  predicate Mergeable(e1: Expr, e2: Expr) {
    && (IsAtom(e1) || (e1.Not? && IsAtom(e1.arg)))
    && (IsAtom(e2) || (e2.Not? && e2.arg.Sym?))
    && var s := SubjectOf(e1);
       s == SubjectOf(e2) && s.Logical()
  }

  function SubjectOf(e: Expr): Symbol
    requires IsAtom(e) || (e.Not? && IsAtom(e.arg))
  {
    if e.Not? then AtomSymbol(e.arg) else AtomSymbol(e)
  }

  predicate IsEqual(e: Expr, b: Symbol) {
    e.Equal? && e.rhs == b
  }

  predicate IsUnequal(e: Expr, b: Symbol) {
    e.Unequal? && e.rhs == b
  }

  predicate IsNotSym(e: Expr) {
    e.Not? && e.arg.Sym?
  }

  /** The rules of `expr_join_or` for two different operands about the same symbol. */
  function MergeOr(e1: Expr, e2: Expr): MaybeExpr {
    if !Mergeable(e1, e2) then Null
    else
      var s := SubjectOf(e1);
      if s.Type() == Tri && ((IsEqual(e1, SymYes) && IsEqual(e2, SymMod))
          || (IsEqual(e1, SymMod) && IsEqual(e2, SymYes))) then
        Tree(Unequal(s, SymNo))
      else if s.Type() == Tri
          && ((IsEqual(e1, SymYes) && IsEqual(e2, SymNo)) || (IsEqual(e1, SymNo) && IsEqual(e2, SymYes))) then
        Tree(Unequal(s, SymMod))
      else if s.Type() == Tri
          && ((IsEqual(e1, SymMod) && IsEqual(e2, SymNo)) || (IsEqual(e1, SymNo) && IsEqual(e2, SymMod))) then
        Tree(Unequal(s, SymYes))
      else if s.Type() == Boolean && ((IsNotSym(e1) && e2.Sym?) || (IsNotSym(e2) && e1.Sym?)) then
        Tree(Sym(SymYes))
      else
        Null
  }

  /** (a='b') && (a!='c') for two constants. */
  function MergeEqualUnequal(s: Symbol, b: Symbol, c: Symbol): Expr {
    if b != c then Equal(s, b) else Sym(SymNo)
  }

  function MergeAnd(e1: Expr, e2: Expr): MaybeExpr {
    if !Mergeable(e1, e2) then Null
    else
      var s := SubjectOf(e1);
      if (e1.Sym? && IsEqual(e2, SymYes)) || (e2.Sym? && IsEqual(e1, SymYes)) then
        Tree(Equal(s, SymYes))
      else if (e1.Sym? && IsUnequal(e2, SymNo)) || (e2.Sym? && IsUnequal(e1, SymNo)) then
        Tree(Sym(s))
      else if (e1.Sym? && IsUnequal(e2, SymMod)) || (e2.Sym? && IsUnequal(e1, SymMod)) then
        Tree(Equal(s, SymYes))
      else if s.Type() != Tri then
        Null
      else if e1.Equal? && e2.Unequal? && e2.rhs.IsConst() && e1.rhs.IsConst() then
        Tree(MergeEqualUnequal(s, e1.rhs, e2.rhs))
      else if e1.Unequal? && e2.Equal? && e1.rhs.IsConst() && e2.rhs.IsConst() then
        Tree(MergeEqualUnequal(s, e2.rhs, e1.rhs))
      else if (IsUnequal(e1, SymYes) && IsUnequal(e2, SymNo)) || (IsUnequal(e1, SymNo) && IsUnequal(e2, SymYes)) then
        Tree(Equal(s, SymMod))
      else if (IsUnequal(e1, SymYes) && IsUnequal(e2, SymMod)) || (IsUnequal(e1, SymMod) && IsUnequal(e2, SymYes)) then
        Tree(Equal(s, SymNo))
      else if (IsUnequal(e1, SymMod) && IsUnequal(e2, SymNo)) || (IsUnequal(e1, SymNo) && IsUnequal(e2, SymMod)) then
        Tree(Equal(s, SymYes))
      else
        Null
  }

  function Merge(op: Op, e1: Expr, e2: Expr): MaybeExpr {
    if ExprEq(e1, e2) then Tree(e1)
    else match op
      case OpOr => MergeOr(e1, e2)
      case OpAnd => MergeAnd(e1, e2)
  }

  /** Every rule keeps the value of the pair, in every well-formed environment. */
  lemma MergeSound(op: Op, e1: Expr, e2: Expr, env: Env)
    requires WellFormed(env)
    requires Merge(op, e1, e2).Tree?
    ensures Value(Merge(op, e1, e2).e, env) == Combine(op, Value(e1, env), Value(e2, env))
  {
    if ExprEq(e1, e2) {
      ExprEqSound(e1, e2, env);
    } else {
      if op == OpOr { MergeOrValue(e1, e2, env); } else { MergeAndValue(e1, e2, env); }
    }
  }

  lemma MergeOrValue(e1: Expr, e2: Expr, env: Env)
    requires WellFormed(env)
    requires MergeOr(e1, e2).Tree?
    ensures Value(MergeOr(e1, e2).e, env) == Combine(OpOr, Value(e1, env), Value(e2, env))
  {
    var s := SubjectOf(e1);
    assert env.str(s) == TriString(env.tri(s));
    if s.Type() == Boolean {
      assert IsNotSym(e1) ==> Value(e1, env) == 2 - env.tri(s);
      assert IsNotSym(e2) ==> Value(e2, env) == 2 - env.tri(s);
    }
  }

  lemma MergeAndValue(e1: Expr, e2: Expr, env: Env)
    requires WellFormed(env)
    requires MergeAnd(e1, e2).Tree?
    ensures Value(MergeAnd(e1, e2).e, env) == Combine(OpAnd, Value(e1, env), Value(e2, env))
  {
    var s := SubjectOf(e1);
    assert env.str(s) == TriString(env.tri(s));
  }

  /** The rules produce a single atom. */
  lemma RulesGiveAtoms(e1: Expr, e2: Expr)
    ensures MergeOr(e1, e2).Tree? ==> IsAtom(MergeOr(e1, e2).e)
    ensures MergeAnd(e1, e2).Tree? ==> IsAtom(MergeAnd(e1, e2).e)
  {
  }

  /** The merged operand is no larger than the first one and starts no new chain of the same kind. */
  lemma MergeSize(op: Op, e1: Expr, e2: Expr)
    requires Merge(op, e1, e2).Tree?
    requires !Is(op, e1)
    ensures !Is(op, Merge(op, e1, e2).e)
    ensures Size(Merge(op, e1, e2).e) <= Size(e1)
  {
    if !ExprEq(e1, e2) {
      RulesGiveAtoms(e1, e2);
    }
  }

  /** Two different ones of y, m and n. */
  predicate TwoOfThree(b: Symbol, c: Symbol) {
    b != c && b in {SymYes, SymMod, SymNo} && c in {SymYes, SymMod, SymNo}
  }

  /**
   The documented pairs of different operands about one symbol, in one order: a=b || a=c and a!=b && a!=c for two
   of y, m and n, a='b' && a!='c' for constants, a || !a, a && a=y, a && a!=n and a && a!=m.
   */
  predicate Redundant(op: Op, x: Expr, y: Expr) {
    match op
    case OpOr =>
      || (x.Equal? && y.Equal? && x.lhs == y.lhs && x.lhs.Type() == Tri && TwoOfThree(x.rhs, y.rhs))
      || (x.Sym? && x.sym.Type() == Boolean && y == Not(x))
    case OpAnd =>
      || (x.Unequal? && y.Unequal? && x.lhs == y.lhs && x.lhs.Type() == Tri && TwoOfThree(x.rhs, y.rhs))
      || (x.Equal? && y.Unequal? && x.lhs == y.lhs && x.lhs.Type() == Tri && x.rhs.IsConst() && y.rhs.IsConst())
      || (x.Sym? && x.sym.Logical()
          && (y == Equal(x.sym, SymYes) || y == Unequal(x.sym, SymNo) || y == Unequal(x.sym, SymMod)))
  }

  /** A pair is merged exactly when its operands are equal or it is one of the documented pairs, in either order. */
  lemma MergeExact(op: Op, x: Expr, y: Expr)
    ensures Merge(op, x, y).Tree? <==> ExprEq(x, y) || Redundant(op, x, y) || Redundant(op, y, x)
  {
    if !ExprEq(x, y) {
      if op == OpOr { MergeOrExact(x, y); } else { MergeAndExact(x, y); }
    }
  }

  lemma MergeOrExact(x: Expr, y: Expr)
    requires !ExprEq(x, y)
    ensures MergeOr(x, y).Tree? <==> Redundant(OpOr, x, y) || Redundant(OpOr, y, x)
  {
  }

  lemma MergeAndExact(x: Expr, y: Expr)
    requires !ExprEq(x, y)
    ensures MergeAnd(x, y).Tree? <==> Redundant(OpAnd, x, y) || Redundant(OpAnd, y, x)
  {
  }
}
