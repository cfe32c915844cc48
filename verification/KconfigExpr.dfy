/**
 Tristate formulas of the Kconfig language and their value: the operator macros of
 common/kconfig/expr.h, `expr_calc_value` and `expr_eliminate_yn` of common/kconfig/expr.c.
 Formula trees own their nodes and are never shared, so a tree is a value.
 */
module KconfigExpr {

  /** no < mod < yes, with the numbers the C enumeration gives them. */
  type Tristate = x: int | 0 <= x <= 2

  const NO: Tristate := 0
  const MOD: Tristate := 1
  const YES: Tristate := 2

  /** The two associative connectives; the C code passes them around as an `enum expr_type`. */
  datatype Op = OpOr | OpAnd

  function Combine(op: Op, a: Tristate, b: Tristate): Tristate {
    match op
    case OpOr => if a > b then a else b
    case OpAnd => if a < b then a else b
  }

  datatype SymbolType = Unknown | Boolean | Tri | Int | Hex | Str | Other

  /**
   A symbol is an address in C. The three distinguished ones are `symbol_yes`, `symbol_mod` and
   `symbol_no`; the others are interned constants or configuration symbols.
   */
  datatype Symbol = SymYes | SymMod | SymNo | Constant(id: nat) | Config(id: nat, typ: SymbolType)
  {
    function Type(): SymbolType {
      if Config? then typ else Unknown
    }

    /** `flags & SYMBOL_CONST` */
    predicate IsConst() {
      !Config?
    }

    /** `flags & (SYMBOL_YES|SYMBOL_NO)`: interned constants carry all three bits. */
    predicate HasYesOrNoFlag() {
      SymYes? || SymNo? || Constant?
    }

    predicate Logical() {
      Type() in {Boolean, Tri}
    }
  }

  datatype Expr =
    | Sym(sym: Symbol)
    | Not(arg: Expr)
    | And(left: Expr, right: Expr)
    | Or(left: Expr, right: Expr)
    | Equal(lhs: Symbol, rhs: Symbol)
    | Unequal(lhs: Symbol, rhs: Symbol)

  predicate Is(op: Op, e: Expr) {
    match op
    case OpOr => e.Or?
    case OpAnd => e.And?
  }

  predicate IsConnective(e: Expr) {
    e.And? || e.Or?
  }

  function OpOf(e: Expr): Op
    requires IsConnective(e)
  {
    if e.Or? then OpOr else OpAnd
  }

  function Join(op: Op, l: Expr, r: Expr): Expr {
    match op
    case OpOr => Or(l, r)
    case OpAnd => And(l, r)
  }

  /** The operand that `op` ignores: n for ||, y for &&. */
  function Neutral(op: Op): Expr {
    match op
    case OpOr => Sym(SymNo)
    case OpAnd => Sym(SymYes)
  }

  function Size(e: Expr): nat {
    match e
    case Not(a) => 1 + Size(a)
    case And(l, r) => 1 + Size(l) + Size(r)
    case Or(l, r) => 1 + Size(l) + Size(r)
    case _ => 1
  }

  /** What `sym_calc_value` and `sym_get_string_value` answer for each symbol. */
  datatype Env = Env(tri: Symbol -> Tristate, str: Symbol -> string)

  function TriString(t: Tristate): string {
    if t == NO then "n" else if t == MOD then "m" else "y"
  }

  /** y, m and n have their own values. */
  ghost predicate Fixed(env: Env) {
    && env.tri(SymYes) == YES && env.tri(SymMod) == MOD && env.tri(SymNo) == NO
    && env.str(SymYes) == "y" && env.str(SymMod) == "m" && env.str(SymNo) == "n"
  }

  /**
   What the value rules of symbol.c guarantee: boolean symbols are never m, the text of a boolean or
   tristate symbol follows its value, and interning gives distinct constants distinct texts.
   */
  ghost predicate WellFormed(env: Env) {
    && Fixed(env)
    && (forall s: Symbol :: s.Type() == Boolean ==> env.tri(s) != MOD)
    && (forall s: Symbol :: s.Logical() ==> env.str(s) == TriString(env.tri(s)))
    && (forall s: Symbol, t: Symbol :: s.IsConst() && t.IsConst() && s != t ==> env.str(s) != env.str(t))
  }

  /** Such environments exist, with any tristate symbol at any value. */
  lemma WellFormedExists(a: Symbol, t: Tristate) returns (env: Env)
    requires a.Type() == Tri
    ensures WellFormed(env) && env.tri(a) == t
  {
    var tri := (s: Symbol) => if s == a then t else if s == SymYes then YES else if s == SymMod then MOD else NO;
    var str := (s: Symbol) =>
      if s.Constant? then seq(s.id + 2, (_: int) => 'c')
      else if s.SymYes? then "y" else if s.SymMod? then "m" else if s.SymNo? then "n"
      else TriString(tri(s));
    env := Env(tri, str);
    assert tri(SymYes) == YES && tri(SymMod) == MOD && tri(SymNo) == NO;
    assert str(SymYes) == "y" && str(SymMod) == "m" && str(SymNo) == "n";
    assert "y"[0] != "m"[0] && "y"[0] != "n"[0] && "m"[0] != "n"[0];
    forall s: Symbol, u: Symbol | s.IsConst() && u.IsConst() && s != u
      ensures str(s) != str(u)
    {
      assert s.Constant? ==> |str(s)| == s.id + 2;
      assert u.Constant? ==> |str(u)| == u.id + 2;
    }
  }

  function Value(e: Expr, env: Env): Tristate {
    match e
    case Sym(s) => env.tri(s)
    case Not(a) => 2 - Value(a, env)
    case And(l, r) => Combine(OpAnd, Value(l, env), Value(r, env))
    case Or(l, r) => Combine(OpOr, Value(l, env), Value(r, env))
    case Equal(a, b) => if env.str(a) == env.str(b) then YES else NO
    case Unequal(a, b) => if env.str(a) == env.str(b) then NO else YES
  }

  /** A `struct expr *` that may be NULL; NULL means "always". */
  datatype MaybeExpr = Null | Tree(e: Expr)

  function ValueOrYes(m: MaybeExpr, env: Env): Tristate {
    if m.Null? then YES else Value(m.e, env)
  }

  predicate IsYesNo(e: Expr) {
    e == Sym(SymYes) || e == Sym(SymNo)
  }

  function EliminateYn(e: Expr): Expr {
    match e
    case And(l, r) =>
      var l', r' := EliminateYn(l), EliminateYn(r);
      if l' == Sym(SymNo) then Sym(SymNo)
      else if l' == Sym(SymYes) then r'
      else if r' == Sym(SymNo) then Sym(SymNo)
      else if r' == Sym(SymYes) then l'
      else And(l', r')
    case Or(l, r) =>
      var l', r' := EliminateYn(l), EliminateYn(r);
      if l' == Sym(SymNo) then r'
      else if l' == Sym(SymYes) then Sym(SymYes)
      else if r' == Sym(SymNo) then l'
      else if r' == Sym(SymYes) then Sym(SymYes)
      else Or(l', r')
    case _ => e
  }

  /** No connective, outside a negation, still has a literal y or n below it. */
  predicate Folded(e: Expr) {
    IsConnective(e) ==> !IsYesNo(e.left) && !IsYesNo(e.right) && Folded(e.left) && Folded(e.right)
  }

  lemma {:induction false} EliminateYnSound(e: Expr, env: Env)
    requires Fixed(env)
    ensures Value(EliminateYn(e), env) == Value(e, env)
  {
    if IsConnective(e) {
      EliminateYnSound(e.left, env);
      EliminateYnSound(e.right, env);
    }
  }

  /** The pass folds every literal, never grows the tree, and shrinks it unless nothing was left to fold. */
  lemma {:induction false} EliminateYnFolds(e: Expr)
    ensures Folded(EliminateYn(e))
    ensures Size(EliminateYn(e)) <= Size(e)
    ensures Folded(e) ==> EliminateYn(e) == e
    ensures !Folded(e) ==> Size(EliminateYn(e)) < Size(e)
  {
    if IsConnective(e) {
      EliminateYnFolds(e.left);
      EliminateYnFolds(e.right);
    }
  }
}
