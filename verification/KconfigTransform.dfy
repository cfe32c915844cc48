/**
 Normalisation of formulas: `expr_transform` of common/kconfig/expr.c. Comparisons of boolean symbols
 with y, m and n become literals, and negations are pushed to the leaves; a De Morgan step transforms
 its own, larger, output again.
 */
module KconfigTransform {
  import opened KconfigExpr

  /** Shrinks at every De Morgan step although the tree grows: a negation weighs four times its operand. */
  function Weight(e: Expr): nat {
    match e
    case Sym(_) => 1
    case Not(a) => 4 * Weight(a) + 1
    case And(l, r) => Weight(l) + Weight(r) + 1
    case Or(l, r) => Weight(l) + Weight(r) + 1
    case Equal(_, _) => 5
    case Unequal(_, _) => 5
  }

  lemma DeMorganShrinks(l: Expr, r: Expr)
    ensures Weight(And(Not(l), Not(r))) < Weight(Not(Or(l, r)))
    ensures Weight(Or(Not(l), Not(r))) < Weight(Not(And(l, r)))
  {
    assert Weight(Not(l)) == 4 * Weight(l) + 1 && Weight(Not(r)) == 4 * Weight(r) + 1;
    assert Weight(Or(l, r)) == Weight(And(l, r)) == Weight(l) + Weight(r) + 1;
  }

  /** E_EQUAL: only boolean symbols on the left are looked at. */
  function TransformEqual(a: Symbol, b: Symbol): Expr {
    if a.Type() != Boolean then Equal(a, b)
    else match b
      case SymNo => Not(Sym(a))
      case SymMod => Sym(SymNo)
      case SymYes => Sym(a)
      case _ => Equal(a, b)
  }

  function TransformUnequal(a: Symbol, b: Symbol): Expr {
    if a.Type() != Boolean then Unequal(a, b)
    else match b
      case SymNo => Sym(a)
      case SymMod => Sym(SymYes)
      case SymYes => Not(Sym(a))
      case _ => Unequal(a, b)
  }

  function Transform(e: Expr): (t: Expr)
    ensures Weight(t) <= Weight(e)
    decreases Weight(e)
  {
    match e
    case Sym(_) => e
    case Equal(a, b) => TransformEqual(a, b)
    case Unequal(a, b) => TransformUnequal(a, b)
    case And(l, r) => And(Transform(l), Transform(r))
    case Or(l, r) => Or(Transform(l), Transform(r))
    case Not(a) =>
      match Transform(a)
      case Not(b) => Transform(b)
      case Equal(x, y) => Unequal(x, y)
      case Unequal(x, y) => Equal(x, y)
      case Or(l, r) => DeMorganShrinks(l, r); Transform(And(Not(l), Not(r)))
      case And(l, r) => DeMorganShrinks(l, r); Transform(Or(Not(l), Not(r)))
      case Sym(SymYes) => Sym(SymNo)
      case Sym(SymMod) => Sym(SymMod)
      case Sym(SymNo) => Sym(SymYes)
      case Sym(s) => Not(Sym(s))
  }

  predicate IsLiteral(s: Symbol) {
    s in {SymYes, SymMod, SymNo}
  }

  /** Negation only on symbols other than y/m/n; no boolean symbol compared with y/m/n. */
  predicate Normal(e: Expr) {
    match e
    case Sym(_) => true
    case Not(a) => a.Sym? && !IsLiteral(a.sym)
    case And(l, r) => Normal(l) && Normal(r)
    case Or(l, r) => Normal(l) && Normal(r)
    case Equal(a, b) => a.Type() == Boolean ==> !IsLiteral(b)
    case Unequal(a, b) => a.Type() == Boolean ==> !IsLiteral(b)
  }

  lemma {:induction false} TransformIsNormal(e: Expr)
    ensures Normal(Transform(e))
    decreases Weight(e)
  {
    match e
    case Sym(_) =>
    case Equal(_, _) =>
    case Unequal(_, _) =>
    case And(l, r) => TransformIsNormal(l); TransformIsNormal(r);
    case Or(l, r) => TransformIsNormal(l); TransformIsNormal(r);
    case Not(a) =>
      TransformIsNormal(a);
      match Transform(a)
      case Not(b) => TransformIsNormal(b);
      case Or(l, r) => DeMorganShrinks(l, r); TransformIsNormal(And(Not(l), Not(r)));
      case And(l, r) => DeMorganShrinks(l, r); TransformIsNormal(Or(Not(l), Not(r)));
      case _ =>
  }

  lemma {:induction false} NormalIsFixed(e: Expr)
    requires Normal(e)
    ensures Transform(e) == e
  {
    if IsConnective(e) {
      NormalIsFixed(e.left);
      NormalIsFixed(e.right);
    }
  }

  lemma TransformIdempotent(e: Expr)
    ensures Transform(Transform(e)) == Transform(e)
  {
    TransformIsNormal(e);
    NormalIsFixed(Transform(e));
  }

  /** Normal forms are exactly the formulas the transformation leaves alone. */
  lemma NormalIffFixed(e: Expr)
    ensures Normal(e) <==> Transform(e) == e
  {
    TransformIsNormal(e);
    if Normal(e) { NormalIsFixed(e); }
  }

  /** A boolean symbol is its own comparison with y, and is never m. */
  lemma CompareSound(a: Symbol, b: Symbol, env: Env)
    requires WellFormed(env)
    ensures Value(TransformEqual(a, b), env) == Value(Equal(a, b), env)
    ensures Value(TransformUnequal(a, b), env) == Value(Unequal(a, b), env)
  {
    if a.Type() == Boolean {
      assert a.Logical() && env.str(a) == TriString(env.tri(a));
      assert Value(Not(Sym(a)), env) == 2 - env.tri(a);
    }
  }

  lemma {:induction false} TransformSound(e: Expr, env: Env)
    requires WellFormed(env)
    ensures Value(Transform(e), env) == Value(e, env)
    decreases Weight(e)
  {
    match e
    case Sym(_) =>
    case Equal(a, b) => CompareSound(a, b, env);
    case Unequal(a, b) => CompareSound(a, b, env);
    case And(l, r) => TransformSound(l, env); TransformSound(r, env);
    case Or(l, r) => TransformSound(l, env); TransformSound(r, env);
    case Not(a) =>
      TransformSound(a, env);
      match Transform(a)
      case Not(b) => TransformSound(b, env);
      case Or(l, r) => DeMorganShrinks(l, r); TransformSound(And(Not(l), Not(r)), env);
      case And(l, r) => DeMorganShrinks(l, r); TransformSound(Or(Not(l), Not(r)), env);
      case _ =>
  }
}
