/**
 Visibility of menu entries: `expr_trans_compare`, `expr_trans_bool` and `expr_depends_symbol` of
 common/kconfig/expr.c, and the test by which `menu_finalize` (common/kconfig/menu.c) nests one entry
 below another.
 */
module KconfigMenu {
  import opened KconfigExpr
  import opened KconfigEq
  import opened KconfigKeys
  import opened KconfigTransform
  import opened KconfigDups

  /**
   The formula for "e = s" (or "e != s"), with s one of y, m, n. The chain cases build nothing for
   s = m and hand the original chain on.
   */
  function TransCompare(e: Expr, equal: bool, s: Symbol): Expr
    requires IsLiteral(s)
  {
    match e
    case And(l, r) =>
      var a, b := TransCompare(l, true, s), TransCompare(r, true, s);
      Negated(!equal, if s == SymYes then And(a, b) else if s == SymNo then Or(a, b) else e)
    case Or(l, r) =>
      var a, b := TransCompare(l, true, s), TransCompare(r, true, s);
      Negated(!equal, if s == SymYes then Or(a, b) else if s == SymNo then And(a, b) else e)
    case Not(a) => TransCompare(a, !equal, s)
    case Sym(a) => if equal then Equal(a, s) else Unequal(a, s)
    case _ =>
      if s == SymMod then Sym(if equal then SymNo else SymYes)
      else Negated(equal != (s == SymYes), e)
  }

  function Negated(negate: bool, e: Expr): Expr {
    if negate then Not(e) else e
  }

  /** A NULL formula is "always": it compares like y. */
  function TransCompareMaybe(m: MaybeExpr, equal: bool, s: Symbol): Expr
    requires IsLiteral(s)
  {
    if m.Null? then Negated(!equal, Sym(s)) else TransCompare(m.e, equal, s)
  }

  /** The text of every plain symbol follows its value, as that of boolean and tristate symbols does. */
  predicate Textual(e: Expr, env: Env) {
    match e
    case Sym(s) => env.str(s) == TriString(env.tri(s))
    case Not(a) => Textual(a, env)
    case And(l, r) => Textual(l, env) && Textual(r, env)
    case Or(l, r) => Textual(l, env) && Textual(r, env)
    case _ => true
  }

  /** The same, and no negated subterm is m. */
  predicate Comparable(e: Expr, env: Env) {
    match e
    case Sym(s) => env.str(s) == TriString(env.tri(s))
    case Not(a) => Comparable(a, env) && Value(a, env) != MOD
    case And(l, r) => Comparable(l, env) && Comparable(r, env)
    case Or(l, r) => Comparable(l, env) && Comparable(r, env)
    case _ => true
  }

  function Truth(b: bool): Tristate {
    if b then YES else NO
  }

  /** The value of e when every symbol that is m counts as `mod`, y or n. */
  function Rounded(e: Expr, mod: Tristate, env: Env): Tristate {
    match e
    case Sym(s) => if env.tri(s) == MOD then mod else env.tri(s)
    case Not(a) => 2 - Rounded(a, mod, env)
    case And(l, r) => Combine(OpAnd, Rounded(l, mod, env), Rounded(r, mod, env))
    case Or(l, r) => Combine(OpOr, Rounded(l, mod, env), Rounded(r, mod, env))
    case _ => Value(e, env)
  }

  /** Rounding never gives m, and decides only what was m. */
  lemma {:induction false} RoundedIs(e: Expr, mod: Tristate, env: Env)
    requires mod != MOD
    ensures Rounded(e, mod, env) != MOD && Sharper(Value(e, env), Rounded(e, mod, env))
  {
    match e
    case Not(a) => RoundedIs(a, mod, env);
    case And(l, r) => RoundedIs(l, mod, env); RoundedIs(r, mod, env);
    case Or(l, r) => RoundedIs(l, mod, env); RoundedIs(r, mod, env);
    case _ =>
  }

  /** Where no negated subterm is m, an m is rounded to what m counts as. */
  lemma {:induction false} RoundedComparable(e: Expr, mod: Tristate, env: Env)
    requires mod != MOD && Comparable(e, env)
    ensures Rounded(e, mod, env) == if Value(e, env) == MOD then mod else Value(e, env)
  {
    match e
    case Not(a) => RoundedComparable(a, mod, env);
    case And(l, r) => RoundedComparable(l, mod, env); RoundedComparable(r, mod, env);
    case Or(l, r) => RoundedComparable(l, mod, env); RoundedComparable(r, mod, env);
    case _ =>
  }

  /** What m counts as when a formula is compared with s: y for n, n for y. */
  function ModAgainst(s: Symbol): Tristate {
    if s == SymNo then YES else NO
  }

  /** What the lowered comparison with y or n answers, for every formula: the rounded formula is compared. */
  lemma {:induction false} TransCompareRounds(e: Expr, equal: bool, s: Symbol, env: Env)
    requires s == SymYes || s == SymNo
    requires WellFormed(env) && Textual(e, env)
    ensures Value(TransCompare(e, equal, s), env) == Truth((Rounded(e, ModAgainst(s), env) == env.tri(s)) == equal)
  {
    RoundedIs(e, ModAgainst(s), env);
    if e.Not? {
      RoundedIs(e.arg, ModAgainst(s), env);
      TransCompareRounds(e.arg, !equal, s, env);
    } else if IsConnective(e) {
      TransCompareRounds(e.left, true, s, env);
      TransCompareRounds(e.right, true, s, env);
      TransCompareChain(e, equal, s, env);
    }
  }

  lemma TransCompareChain(e: Expr, equal: bool, s: Symbol, env: Env)
    requires s == SymYes || s == SymNo
    requires WellFormed(env) && IsConnective(e)
    requires Value(TransCompare(e.left, true, s), env) == Truth(Rounded(e.left, ModAgainst(s), env) == env.tri(s))
    requires Value(TransCompare(e.right, true, s), env) == Truth(Rounded(e.right, ModAgainst(s), env) == env.tri(s))
    ensures Value(TransCompare(e, equal, s), env) == Truth((Rounded(e, ModAgainst(s), env) == env.tri(s)) == equal)
  {
    var a, b := TransCompare(e.left, true, s), TransCompare(e.right, true, s);
    var op := if e.And? == (s == SymYes) then OpAnd else OpOr;
    assert TransCompare(e, equal, s) == Negated(!equal, Join(op, a, b));
    assert Value(Join(op, a, b), env) == Truth(Rounded(e, ModAgainst(s), env) == env.tri(s));
  }

  lemma {:induction false} ComparableIsTextual(e: Expr, env: Env)
    requires Comparable(e, env)
    ensures Textual(e, env)
  {
    match e
    case Not(a) => ComparableIsTextual(a, env);
    case And(l, r) => ComparableIsTextual(l, env); ComparableIsTextual(r, env);
    case Or(l, r) => ComparableIsTextual(l, env); ComparableIsTextual(r, env);
    case _ =>
  }

  /** The comparison is right exactly when rounding does not turn the formula into s or away from it. */
  lemma TransCompareExact(e: Expr, equal: bool, s: Symbol, env: Env)
    requires s == SymYes || s == SymNo
    requires WellFormed(env) && Textual(e, env)
    ensures Value(TransCompare(e, equal, s), env) == Truth((Value(e, env) == env.tri(s)) == equal)
       <==> (Value(e, env) == MOD ==> Rounded(e, ModAgainst(s), env) != env.tri(s))
  {
    TransCompareRounds(e, equal, s, env);
    RoundedIs(e, ModAgainst(s), env);
  }

  lemma TransCompareSound(e: Expr, equal: bool, s: Symbol, env: Env)
    requires s == SymYes || s == SymNo
    requires WellFormed(env) && Comparable(e, env)
    ensures Value(TransCompare(e, equal, s), env) == Truth((Value(e, env) == env.tri(s)) == equal)
  {
    ComparableIsTextual(e, env);
    RoundedComparable(e, ModAgainst(s), env);
    TransCompareExact(e, equal, s, env);
  }

  /** The case of a negation is right exactly when the negated formula is not m. */
  lemma TransCompareNotExact(a: Expr, equal: bool, s: Symbol, env: Env)
    requires s == SymYes || s == SymNo
    requires WellFormed(env) && Comparable(a, env)
    ensures Value(TransCompare(Not(a), equal, s), env) == Truth((Value(Not(a), env) == env.tri(s)) == equal)
            <==> Value(a, env) != MOD
  {
    TransCompareSound(a, !equal, s, env);
  }

  /** It is wrong for !a with a tristate symbol a at m: !a = n is rewritten to a != n, which is y, although !a is m. */
  lemma TransCompareNotWrong(a: Symbol, env: Env)
    requires WellFormed(env) && a.Type() == Tri && env.tri(a) == MOD
    ensures TransCompare(Not(Sym(a)), true, SymNo) == Unequal(a, SymNo)
    ensures Value(Not(Sym(a)), env) == MOD && Value(Unequal(a, SymNo), env) == YES
  {
    assert a.Logical();
  }

  /** FOO!=n -> FOO for tristate symbols; negations are entered but comparisons below them are rewritten too. */
  function TransBool(e: Expr): Expr {
    match e
    case And(l, r) => And(TransBool(l), TransBool(r))
    case Or(l, r) => Or(TransBool(l), TransBool(r))
    case Not(a) => Not(TransBool(a))
    case Unequal(a, b) => if a.Type() == Tri && b == SymNo then Sym(a) else e
    case _ => e
  }

  /** On normalised formulas the rewriting keeps the answer to "is it n?". */
  lemma {:induction false} TransBoolKeepsNo(e: Expr, env: Env)
    requires WellFormed(env) && Normal(e)
    ensures Value(TransBool(e), env) == NO <==> Value(e, env) == NO
  {
    match e
    case And(l, r) => TransBoolKeepsNo(l, env); TransBoolKeepsNo(r, env);
    case Or(l, r) => TransBoolKeepsNo(l, env); TransBoolKeepsNo(r, env);
    case Unequal(a, _) => assert a.Type() == Tri ==> a.Logical();
    case _ =>
  }

  /** Without normalisation it does not: !(a!=n) becomes !a, and the two differ exactly when a is m. */
  lemma TransBoolUnderNot(a: Symbol, env: Env)
    requires WellFormed(env) && a.Type() == Tri
    ensures var e := Not(Unequal(a, SymNo));
            (Value(TransBool(e), env) == NO <==> Value(e, env) == NO) <==> env.tri(a) != MOD
  {
    assert a.Logical();
    assert TransBool(Not(Unequal(a, SymNo))) == Not(Sym(a));
    assert Value(Unequal(a, SymNo), env) == Truth(env.tri(a) != NO);
  }

  /** No comparison a != n with a tristate symbol a occurs in e, at any depth. */
  predicate NoTriUnequal(e: Expr) {
    match e
    case And(l, r) => NoTriUnequal(l) && NoTriUnequal(r)
    case Or(l, r) => NoTriUnequal(l) && NoTriUnequal(r)
    case Not(a) => NoTriUnequal(a)
    case Unequal(a, b) => !(a.Type() == Tri && b == SymNo)
    case _ => true
  }

  /** The rewriting leaves no such comparison, and a formula without one as it is. */
  lemma {:induction false} TransBoolExact(e: Expr)
    ensures NoTriUnequal(TransBool(e))
    ensures TransBool(e) == e <==> NoTriUnequal(e)
  {
    match e
    case And(l, r) => TransBoolExact(l); TransBoolExact(r);
    case Or(l, r) => TransBoolExact(l); TransBoolExact(r);
    case Not(a) => TransBoolExact(a);
    case _ =>
  }

  predicate DependsSymbol(e: Expr, s: Symbol) {
    match e
    case And(l, r) => DependsSymbol(l, s) || DependsSymbol(r, s)
    case Sym(a) => a == s
    case Equal(a, b) => a == s && (b == SymYes || b == SymMod)
    case Unequal(a, b) => a == s && b == SymNo
    case _ => false
  }

  /** The conjuncts by which a formula depends on s: s, s=y, s=m and s!=n. */
  predicate Asks(x: Expr, s: Symbol) {
    x in {Sym(s), Equal(s, SymYes), Equal(s, SymMod), Unequal(s, SymNo)}
  }

  /** A formula depends on s exactly when one of its conjuncts asks for s. */
  lemma {:induction false} DependsSymbolExact(e: Expr, s: Symbol)
    ensures DependsSymbol(e, s) <==> exists i :: 0 <= i < |Operands(OpAnd, e)| && Asks(Operands(OpAnd, e)[i], s)
  {
    if e.And? {
      var xs, ys, all := Operands(OpAnd, e.left), Operands(OpAnd, e.right), Operands(OpAnd, e);
      DependsSymbolExact(e.left, s);
      DependsSymbolExact(e.right, s);
      assert all == xs + ys;
      if i :| 0 <= i < |xs| && Asks(xs[i], s) { assert Asks(all[i], s); }
      if i :| 0 <= i < |ys| && Asks(ys[i], s) { assert Asks(all[|xs| + i], s); }
      if i :| 0 <= i < |all| && Asks(all[i], s) {
        assert if i < |xs| then Asks(xs[i], s) else Asks(ys[i - |xs|], s);
      }
    } else {
      assert Operands(OpAnd, e)[0] == e;
    }
  }

  /** The symbol is not n: by its value or, which is the same for boolean and tristate symbols, by its text. */
  predicate IsSet(s: Symbol, env: Env) {
    env.tri(s) != NO || env.str(s) != env.str(SymNo)
  }

  lemma {:induction false} DependsSymbolSound(e: Expr, s: Symbol, env: Env)
    requires WellFormed(env)
    requires DependsSymbol(e, s) && Value(e, env) != NO
    ensures IsSet(s, env) && (s.Logical() ==> env.tri(s) != NO)
  {
    if e.And? {
      if DependsSymbol(e.left, s) { DependsSymbolSound(e.left, s, env); }
      else { DependsSymbolSound(e.right, s, env); }
    }
  }

  /** "The entry is visible", normalised the way `menu_finalize` does before comparing two entries. */
  function Visible(dep: MaybeExpr): Expr {
    EliminateDups(Transform(TransCompareMaybe(dep, false, SymNo)))
  }

  predicate TextualMaybe(m: MaybeExpr, env: Env) {
    m.Tree? ==> Textual(m.e, env)
  }

  predicate ComparableMaybe(m: MaybeExpr, env: Env) {
    m.Tree? ==> Comparable(m.e, env)
  }

  /** The value of a condition with every m read as y. */
  function RoundedUp(m: MaybeExpr, env: Env): Tristate {
    if m.Null? then YES else Rounded(m.e, YES, env)
  }

  /** What the normalised condition answers, for every condition: its value with every m read as y. */
  lemma VisibleRounds(dep: MaybeExpr, env: Env)
    requires WellFormed(env) && TextualMaybe(dep, env)
    ensures Value(Visible(dep), env) == RoundedUp(dep, env) != MOD
    ensures Sharper(ValueOrYes(dep, env), RoundedUp(dep, env))
  {
    var c := TransCompareMaybe(dep, false, SymNo);
    if dep.Tree? {
      TransCompareRounds(dep.e, false, SymNo, env);
      RoundedIs(dep.e, YES, env);
    } else {
      assert c == Not(Sym(SymNo));
    }
    TransformSound(c, env);
    EliminateDupsSharper(Transform(c), env);
  }

  /** So it says whether the entry is visible exactly when it does not read an m as n, which takes a negated m. */
  lemma VisibleExact(dep: MaybeExpr, env: Env)
    requires WellFormed(env) && TextualMaybe(dep, env)
    ensures Value(Visible(dep), env) == Truth(ValueOrYes(dep, env) != NO)
       <==> !(ValueOrYes(dep, env) == MOD && RoundedUp(dep, env) == NO)
    ensures ComparableMaybe(dep, env) ==> !(ValueOrYes(dep, env) == MOD && RoundedUp(dep, env) == NO)
  {
    VisibleRounds(dep, env);
    if dep.Tree? && Comparable(dep.e, env) { RoundedComparable(dep.e, YES, env); }
  }

  predicate ContainsSymbol(e: Expr, s: Symbol) {
    match e
    case And(l, r) => ContainsSymbol(l, s) || ContainsSymbol(r, s)
    case Or(l, r) => ContainsSymbol(l, s) || ContainsSymbol(r, s)
    case Not(a) => ContainsSymbol(a, s)
    case Sym(a) => a == s
    case Equal(a, b) => a == s || b == s
    case Unequal(a, b) => a == s || b == s
  }

  function Renamed(x: Symbol, s: Symbol, t: Symbol): Symbol {
    if x == s then t else x
  }

  /** e with t in every place of s. */
  function Rename(e: Expr, s: Symbol, t: Symbol): Expr {
    match e
    case And(l, r) => And(Rename(l, s, t), Rename(r, s, t))
    case Or(l, r) => Or(Rename(l, s, t), Rename(r, s, t))
    case Not(a) => Not(Rename(a, s, t))
    case Sym(a) => Sym(Renamed(a, s, t))
    case Equal(a, b) => Equal(Renamed(a, s, t), Renamed(b, s, t))
    case Unequal(a, b) => Unequal(Renamed(a, s, t), Renamed(b, s, t))
  }

  /** A formula contains s exactly when it is another one without it. */
  lemma {:induction false} ContainsSymbolExact(e: Expr, s: Symbol, t: Symbol)
    requires t != s
    ensures ContainsSymbol(e, s) <==> Rename(e, s, t) != e
    ensures !ContainsSymbol(Rename(e, s, t), s)
  {
    match e
    case And(l, r) => ContainsSymbolExact(l, s, t); ContainsSymbolExact(r, s, t);
    case Or(l, r) => ContainsSymbolExact(l, s, t); ContainsSymbolExact(r, s, t);
    case Not(a) => ContainsSymbolExact(a, s, t);
    case _ =>
  }

  /** The tests after which an entry becomes a child of the entry of symbol s with prompt condition base. */
  predicate Nests(s: Symbol, base: MaybeExpr, dep: MaybeExpr) {
    && dep.Tree? && ContainsSymbol(dep.e, s)
    && (DependsSymbol(dep.e, s) || EliminateEq(Visible(dep), Visible(base)).1 == Sym(SymYes))
  }

  /**
   A nested entry that is visible even with every m read as y has a parent that is set or visible. That
   covers every entry that is y, and every visible one without a negated m.
   */
  lemma NestingSound(s: Symbol, base: MaybeExpr, dep: MaybeExpr, env: Env)
    requires WellFormed(env) && TextualMaybe(base, env) && TextualMaybe(dep, env)
    requires Nests(s, base, dep)
    ensures RoundedUp(dep, env) == YES && ValueOrYes(dep, env) != NO ==> IsSet(s, env) || ValueOrYes(base, env) != NO
    ensures ValueOrYes(dep, env) == YES ==> IsSet(s, env) || ValueOrYes(base, env) != NO
    ensures ValueOrYes(dep, env) != NO && ComparableMaybe(dep, env) ==> IsSet(s, env) || ValueOrYes(base, env) != NO
    ensures IsSet(s, env) && s.Logical() ==> env.tri(s) != NO
  {
    VisibleRounds(dep, env);
    VisibleRounds(base, env);
    VisibleExact(dep, env);
    if DependsSymbol(dep.e, s) {
      if Value(dep.e, env) != NO { DependsSymbolSound(dep.e, s, env); }
    } else {
      EliminateEqImplies(Visible(dep), Visible(base), env);
    }
  }

  lemma NegatedVisible(a: Symbol, s: Symbol)
    requires a.Type() == s.Type() == Tri && a != s
    ensures Visible(Tree(And(Not(Sym(a)), Equal(s, SymNo)))) == And(Equal(a, SymNo), Equal(s, SymNo))
  {
    var x, y, u, v := Equal(a, SymNo), Equal(s, SymNo), Unequal(a, SymNo), Unequal(s, SymNo);
    var e := And(x, y);
    assert TransCompare(Not(Sym(a)), true, SymNo) == u by { assert TransCompare(Sym(a), false, SymNo) == u; }
    assert TransCompare(y, true, SymNo) == Not(y);
    assert TransCompare(And(Not(Sym(a)), y), false, SymNo) == Not(Or(u, Not(y)));
    assert TransformEqual(s, SymNo) == y && TransformUnequal(a, SymNo) == u;
    assert Transform(y) == y && Transform(u) == u && Transform(v) == v;
    assert Transform(Not(y)) == v;
    assert Transform(Or(u, Not(y))) == Or(u, v);
    assert Transform(Not(u)) == x && Transform(Not(v)) == y;
    assert Transform(Not(Or(u, Not(y)))) == e;
    assert Round(e) == (e, 0) by {
      PairQuiet(OpAnd, e);
      PairQuiet2(OpAnd, e);
    }
  }

  /** An entry below s with a negated m that is visible although s is n and the prompt of s is invisible. */
  lemma NestingFails(a: Symbol, s: Symbol, env: Env)
    requires WellFormed(env) && a.Type() == s.Type() == Tri && a != s && env.tri(a) == MOD && env.tri(s) == NO
    ensures var base, dep := Tree(Equal(a, SymNo)), Tree(And(Not(Sym(a)), Equal(s, SymNo)));
            && Nests(s, base, dep) && TextualMaybe(base, env) && TextualMaybe(dep, env)
            && ValueOrYes(dep, env) == MOD && ValueOrYes(base, env) == NO && !IsSet(s, env)
  {
    assert a.Logical() && s.Logical();
    var x, y := Equal(a, SymNo), Equal(s, SymNo);
    assert Value(Not(Sym(a)), env) == MOD && Value(y, env) == YES && Value(x, env) == NO;
    assert Visible(Tree(x)) == x by { assert Round(x) == (x, 0); }
    NegatedVisible(a, s);
    assert EliminateEq(And(x, y), x).1 == Sym(SymYes) by {
      assert ExprEq(x, x) && !ExprEq(y, Sym(SymYes));
      assert Cancel(OpAnd, x, x) == (Sym(SymYes), Sym(SymYes));
      assert Cancel(OpAnd, y, Sym(SymYes)) == (y, Sym(SymYes));
    }
    assert ContainsSymbol(y, s);
  }
}
