/**
 What `expr_eq` and `expr_eliminate_eq` of common/kconfig/expr.c decide, told without running them: formulas
 have keys in which the order and the grouping of a chain are forgotten, and two formulas are equal exactly
 when they have the same key.
 */
module KconfigKeys {
  import opened KconfigExpr
  import opened KconfigEq

  /** A formula without the order of its chains. Irregular formulas are not even equal to themselves. */
  datatype Key =
    | SymKey(s: Symbol)
    | EqualKey(a: Symbol, b: Symbol)
    | UnequalKey(a: Symbol, b: Symbol)
    | NotKey(arg: Key)
    | ChainKey(op: Op, keys: multiset<Key>)
    | Irregular

  /** y, n and the interned constants, which `expr_eliminate_eq` never cancels. */
  predicate IsFlagged(k: Key) {
    k.SymKey? && k.s.HasYesOrNoFlag()
  }

  /** What may be taken out: `expr_extract_eq` takes constants too, `expr_eliminate_eq` does not. */
  predicate Live(constants: bool, k: Key) {
    !k.Irregular? && (constants || !IsFlagged(k))
  }

  /** Every operand can be cancelled, but for one constant. */
  ghost predicate Regular(ks: multiset<Key>) {
    Irregular !in ks && OneConstant(ks)
  }

  ghost predicate OneConstant(ks: multiset<Key>) {
    forall k, j :: k in ks && j in ks && IsFlagged(k) && IsFlagged(j) ==> k == j && ks[k] == 1
  }

  ghost predicate NoConstant(ks: multiset<Key>) {
    forall k :: k in ks ==> !IsFlagged(k)
  }

  ghost function KeyOf(e: Expr): Key
    decreases Size(e), 1
  {
    match e
    case Sym(s) => SymKey(s)
    case Equal(a, b) => EqualKey(a, b)
    case Unequal(a, b) => UnequalKey(a, b)
    case Not(a) => if KeyOf(a).Irregular? then Irregular else NotKey(KeyOf(a))
    case And(l, r) =>
      var ks := Keys(OpAnd, l) + Keys(OpAnd, r);
      if Regular(ks) then ChainKey(OpAnd, ks) else Irregular
    case Or(l, r) =>
      var ks := Keys(OpOr, l) + Keys(OpOr, r);
      if Regular(ks) then ChainKey(OpOr, ks) else Irregular
  }

  /** The keys of the operands of an `op` chain, except for the places where an operand was taken out. */
  ghost function Keys(op: Op, e: Expr): multiset<Key>
    decreases Size(e), 2
  {
    if Is(op, e) then Keys(op, e.left) + Keys(op, e.right)
    else if e == Neutral(op) then multiset{}
    else multiset{KeyOf(e)}
  }

  /** No chain of e, at any depth, has the operand y or n. */
  predicate Clean(e: Expr) {
    match e
    case Not(a) => Clean(a)
    case And(l, r) => Clean(l) && Clean(r) && !IsYesNo(l) && !IsYesNo(r)
    case Or(l, r) => Clean(l) && Clean(r) && !IsYesNo(l) && !IsYesNo(r)
    case _ => true
  }

  /** The operands of an `op` chain are clean, or were taken out of it. */
  predicate CleanChain(op: Op, e: Expr) {
    if Is(op, e) then CleanChain(op, e.left) && CleanChain(op, e.right)
    else e == Neutral(op) || (Clean(e) && !IsYesNo(e))
  }

  lemma {:induction false} CleanIsChain(op: Op, e: Expr)
    requires Clean(e) && !IsYesNo(e)
    ensures CleanChain(op, e)
  {
    if Is(op, e) { CleanIsChain(op, e.left); CleanIsChain(op, e.right); }
  }

  lemma {:induction false} CleanIsFolded(e: Expr)
    requires Clean(e)
    ensures Folded(e)
  {
    if IsConnective(e) { CleanIsFolded(e.left); CleanIsFolded(e.right); }
  }

  // ---- cancelling is subtraction ----

  function Excess(a: nat, b: nat): nat {
    if a > b then a - b else 0
  }

  /** r is left of a when b is taken out as far as it can be. */
  ghost predicate Difference(constants: bool, a: multiset<Key>, b: multiset<Key>, r: multiset<Key>) {
    forall k :: r[k] == if Live(constants, k) then Excess(a[k], b[k]) else a[k]
  }

  lemma {:induction false} CancelClean(op: Op, e1: Expr, e2: Expr)
    ensures CleanChain(op, e1) ==> CleanChain(op, Cancel(op, e1, e2).0)
    ensures CleanChain(op, e2) ==> CleanChain(op, Cancel(op, e1, e2).1)
    decreases Size(e1) + Size(e2)
  {
    if Is(op, e1) {
      var x := Cancel(op, e1.left, e2).1;
      CancelClean(op, e1.left, e2);
      CancelClean(op, e1.right, x);
    } else if Is(op, e2) {
      var x := Cancel(op, e1, e2.left).0;
      CancelClean(op, e1, e2.left);
      CancelClean(op, x, e2.right);
    }
  }

  /** Taking out of e what the left half has, and then what the right half has. */
  lemma SubtractTwice(constants: bool, left: multiset<Key>, right: multiset<Key>, e: multiset<Key>,
                      l: multiset<Key>, x: multiset<Key>, r: multiset<Key>, y: multiset<Key>)
    requires Difference(constants, left, e, l) && Difference(constants, e, left, x)
    requires Difference(constants, right, x, r) && Difference(constants, x, right, y)
    ensures Difference(constants, left + right, e, l + r) && Difference(constants, e, left + right, y)
  {
  }

  /** Each of the two chains loses what the other one has. */
  lemma {:induction false} CancelKeys(op: Op, e1: Expr, e2: Expr)
    requires CleanChain(op, e1) && CleanChain(op, e2)
    ensures Difference(false, Keys(op, e1), Keys(op, e2), Keys(op, Cancel(op, e1, e2).0))
    ensures Difference(false, Keys(op, e2), Keys(op, e1), Keys(op, Cancel(op, e1, e2).1))
    decreases Size(e1) + Size(e2), if Is(op, e1) || Is(op, e2) then 0 else 3, 0
  {
    if Is(op, e1) {
      var (l, x) := Cancel(op, e1.left, e2);
      CancelClean(op, e1.left, e2);
      CancelKeys(op, e1.left, e2);
      var (r, y) := Cancel(op, e1.right, x);
      CancelKeys(op, e1.right, x);
      SubtractTwice(false, Keys(op, e1.left), Keys(op, e1.right), Keys(op, e2), Keys(op, l), Keys(op, x), Keys(op, r),
                    Keys(op, y));
    } else if Is(op, e2) {
      var (x, l) := Cancel(op, e1, e2.left);
      CancelClean(op, e1, e2.left);
      CancelKeys(op, e1, e2.left);
      var (y, r) := Cancel(op, x, e2.right);
      CancelKeys(op, x, e2.right);
      SubtractTwice(false, Keys(op, e2.left), Keys(op, e2.right), Keys(op, e1), Keys(op, l), Keys(op, x), Keys(op, r),
                    Keys(op, y));
    } else {
      if e1 != Neutral(op) && e2 != Neutral(op) { ExprEqExact(e1, e2); }
      CancelOperands(op, e1, e2);
    }
  }

  /** Two operands meet: they go if their keys are the same and can be cancelled. */
  lemma CancelOperands(op: Op, e1: Expr, e2: Expr)
    requires CleanChain(op, e1) && CleanChain(op, e2) && !Is(op, e1) && !Is(op, e2)
    requires e1 != Neutral(op) && e2 != Neutral(op) ==>
               (ExprEq(e1, e2) <==> KeyOf(e1) == KeyOf(e2) && !KeyOf(e1).Irregular?)
    ensures Difference(false, Keys(op, e1), Keys(op, e2), Keys(op, Cancel(op, e1, e2).0))
    ensures Difference(false, Keys(op, e2), Keys(op, e1), Keys(op, Cancel(op, e1, e2).1))
  {
    if e1 == Neutral(op) || e2 == Neutral(op) {
      NeutralStays(op, e1, e2);
    } else {
      ProperMeet(op, e1, e2);
      SingleDifference(false, KeyOf(e1), KeyOf(e2));
    }
  }

  lemma NeutralStays(op: Op, e1: Expr, e2: Expr)
    requires CleanChain(op, e1) && CleanChain(op, e2) && !Is(op, e1) && !Is(op, e2)
    requires e1 == Neutral(op) || e2 == Neutral(op)
    ensures Cancel(op, e1, e2) == (e1, e2)
  {
  }

  lemma ProperMeet(op: Op, e1: Expr, e2: Expr)
    requires !Is(op, e1) && !Is(op, e2) && !IsYesNo(e1) && !IsYesNo(e2)
    requires ExprEq(e1, e2) <==> KeyOf(e1) == KeyOf(e2) && !KeyOf(e1).Irregular?
    ensures Cancel(op, e1, e2)
            == if KeyOf(e1) == KeyOf(e2) && Live(false, KeyOf(e1)) then (Neutral(op), Neutral(op)) else (e1, e2)
  {
  }

  lemma SingleDifference(constants: bool, j: Key, k: Key)
    ensures j == k && Live(constants, j) ==> Difference(constants, multiset{j}, multiset{k}, multiset{})
    ensures !(j == k && Live(constants, j)) ==> Difference(constants, multiset{j}, multiset{k}, multiset{j})
    ensures !(j == k && Live(constants, j)) ==> Difference(constants, multiset{k}, multiset{j}, multiset{k})
  {
  }

  // ---- what folding makes of a chain ----

  /** f is what folding leaves of a chain whose operands have these keys. */
  ghost predicate FoldsTo(op: Op, ks: multiset<Key>, f: Expr) {
    && (ks == multiset{} <==> f == Neutral(op))
    && (f != Neutral(op) ==> !IsYesNo(f))
    && (f != Neutral(op) && !Is(op, f) ==> ks == multiset{KeyOf(f)})
    && (Is(op, f) ==> forall k :: ks != multiset{k})
  }

  lemma {:induction false} FoldChain(op: Op, e: Expr)
    requires CleanChain(op, e)
    ensures FoldsTo(op, Keys(op, e), EliminateYn(e))
  {
    if Is(op, e) {
      FoldChain(op, e.left);
      FoldChain(op, e.right);
      FoldHalves(op, e);
    } else if e != Neutral(op) {
      CleanIsFolded(e);
      EliminateYnFolds(e);
    }
  }

  lemma FoldHalves(op: Op, e: Expr)
    requires Is(op, e)
    requires FoldsTo(op, Keys(op, e.left), EliminateYn(e.left)) && FoldsTo(op, Keys(op, e.right), EliminateYn(e.right))
    ensures FoldsTo(op, Keys(op, e), EliminateYn(e))
  {
    var l, r := EliminateYn(e.left), EliminateYn(e.right);
    FoldNode(op, e);
    BothFold(op, Keys(op, e.left), Keys(op, e.right), l, r);
  }

  lemma FoldNode(op: Op, e: Expr)
    requires Is(op, e)
    requires var l, r := EliminateYn(e.left), EliminateYn(e.right);
             (l == Neutral(op) || !IsYesNo(l)) && (r == Neutral(op) || !IsYesNo(r))
    ensures var l, r := EliminateYn(e.left), EliminateYn(e.right);
            EliminateYn(e) == if l == Neutral(op) then r else if r == Neutral(op) then l else Join(op, l, r)
  {
  }

  lemma BothFold(op: Op, a: multiset<Key>, b: multiset<Key>, l: Expr, r: Expr)
    requires FoldsTo(op, a, l) && FoldsTo(op, b, r)
    ensures FoldsTo(op, a + b, if l == Neutral(op) then r else if r == Neutral(op) then l else Join(op, l, r))
  {
    if l == Neutral(op) {
      assert a + b == b;
    } else if r == Neutral(op) {
      assert a + b == a;
    } else {
      var j :| j in a;
      assert j in a + b;
      forall k ensures a + b != multiset{k} { if a + b == multiset{k} { OneOf(a, b, k); } }
    }
  }

  lemma OneOf(a: multiset<Key>, b: multiset<Key>, k: Key)
    requires a + b == multiset{k}
    ensures (a == multiset{k} && b == multiset{}) || (a == multiset{} && b == multiset{k})
  {
    assert (a + b)[k] == 1;
    forall j | j != k ensures a[j] == 0 && b[j] == 0 { assert (a + b)[j] == 0; }
  }

  // ---- equality ----

  /**
   `expr_eq` finds two formulas equal exactly when they differ only in the order and the grouping of their
   chains, and none of these chains has two constants.
   */
  lemma {:induction false} ExprEqExact(e1: Expr, e2: Expr)
    requires Clean(e1) && Clean(e2)
    ensures ExprEq(e1, e2) <==> KeyOf(e1) == KeyOf(e2) && !KeyOf(e1).Irregular?
    decreases Size(e1) + Size(e2), 1
  {
    if e1.Not? && e2.Not? {
      ExprEqExact(e1.arg, e2.arg);
    } else if IsConnective(e1) && IsConnective(e2) && OpOf(e1) == OpOf(e2) {
      ChainsEqual(OpOf(e1), e1, e2);
    }
  }

  lemma {:induction false} ChainsEqual(op: Op, e1: Expr, e2: Expr)
    requires Clean(e1) && Clean(e2) && Is(op, e1) && Is(op, e2)
    ensures ExprEq(e1, e2) <==> KeyOf(e1) == KeyOf(e2) && !KeyOf(e1).Irregular?
    decreases Size(e1) + Size(e2), 0, 1
  {
    CleanIsChain(op, e1);
    CleanIsChain(op, e2);
    CancelClean(op, e1, e2);
    CancelKeys(op, e1, e2);
    var (x, y) := Cancel(op, e1, e2);
    FoldChain(op, x);
    FoldChain(op, y);
    var f, g := EliminateYn(x), EliminateYn(y);
    assert EliminateEq(e1, e2) == (f, g);
    LeftoversEqual(op, Keys(op, e1), Keys(op, e2), Keys(op, x), Keys(op, y), f, g);
  }

  /** If the same is left of both bags, and no more than one key, the bags are the same. */
  lemma SameLeft(a: multiset<Key>, b: multiset<Key>, c: multiset<Key>, k: Key)
    requires Difference(false, a, b, c) && Difference(false, b, a, c)
    requires c == multiset{} || c == multiset{k}
    ensures a == b && (!k.Irregular? || c == multiset{} ==> Regular(a))
  {
    forall j ensures a[j] == b[j] { assert c[j] == c[j]; }
    assert a == b;
    forall j | j in a && !Live(false, j) ensures j == k && a[j] == 1 && c == multiset{k} { assert c[j] == a[j]; }
  }

  /** Of a bag nothing is left but its constant. */
  lemma ConstantLeft(a: multiset<Key>, c: multiset<Key>) returns (k: Key)
    requires Difference(false, a, a, c) && Regular(a)
    ensures c == multiset{} || (c == multiset{k} && k.SymKey?)
  {
    k := Irregular;
    if j :| j in c {
      k := j;
      assert IsFlagged(j) && j in a;
      forall i ensures c[i] == if i == k then 1 else 0 {
        if i in c { assert IsFlagged(i) && i in a; }
      }
      assert c == multiset{k};
    } else {
      assert c == multiset{};
    }
  }

  /** Nothing or the same constant is left of both bags exactly when they are the same regular bag. */
  lemma LeftoversEqual(op: Op, a: multiset<Key>, b: multiset<Key>, c: multiset<Key>, d: multiset<Key>,
                       f: Expr, g: Expr)
    requires Difference(false, a, b, c) && Difference(false, b, a, d)
    requires FoldsTo(op, c, f) && FoldsTo(op, d, g)
    ensures SameSymbol((f, g)) <==> a == b && Regular(a)
  {
    if SameSymbol((f, g)) {
      SymbolsLeft(op, c, d, f);
      SameLeft(a, b, c, KeyOf(f));
    } else if a == b && Regular(a) {
      DifferenceUnique(a, b, c, d);
      SameFolded(op, a, c, f, g);
    }
  }

  lemma SymbolsLeft(op: Op, c: multiset<Key>, d: multiset<Key>, f: Expr)
    requires FoldsTo(op, c, f) && FoldsTo(op, d, f) && f.Sym?
    ensures c == d && (c == multiset{} || c == multiset{KeyOf(f)}) && KeyOf(f).SymKey?
  {
  }

  lemma DifferenceUnique(a: multiset<Key>, b: multiset<Key>, c: multiset<Key>, d: multiset<Key>)
    requires Difference(false, a, b, c) && Difference(false, a, b, d)
    ensures c == d
  {
    forall k ensures c[k] == d[k] { }
  }

  lemma SameFolded(op: Op, a: multiset<Key>, c: multiset<Key>, f: Expr, g: Expr)
    requires Difference(false, a, a, c) && Regular(a) && FoldsTo(op, c, f) && FoldsTo(op, c, g)
    ensures SameSymbol((f, g))
  {
    var k := ConstantLeft(a, c);
    if c != multiset{} { FoldedConstant(op, c, f, k); FoldedConstant(op, c, g, k); }
  }

  lemma FoldedConstant(op: Op, c: multiset<Key>, f: Expr, k: Key)
    requires FoldsTo(op, c, f) && c == multiset{k} && k.SymKey?
    ensures f == Sym(k.s)
  {
    assert k in c;
    assert KeyOf(f) in multiset{KeyOf(f)};
  }

  /** The operands of an `op` chain from left to right. */
  function Operands(op: Op, e: Expr): (xs: seq<Expr>)
    ensures xs != []
  {
    if Is(op, e) then Operands(op, e.left) + Operands(op, e.right) else [e]
  }

  ghost function KeysOf(op: Op, xs: seq<Expr>): multiset<Key> {
    if xs == [] then multiset{} else Keys(op, xs[0]) + KeysOf(op, xs[1..])
  }

  lemma {:induction false} KeysOfConcat(op: Op, xs: seq<Expr>, ys: seq<Expr>)
    ensures KeysOf(op, xs + ys) == KeysOf(op, xs) + KeysOf(op, ys)
  {
    if xs == [] {
      assert xs + ys == ys;
    } else {
      assert (xs + ys)[1..] == xs[1..] + ys;
      KeysOfConcat(op, xs[1..], ys);
    }
  }

  lemma {:induction false} KeysOfOperands(op: Op, e: Expr)
    ensures KeysOf(op, Operands(op, e)) == Keys(op, e)
  {
    if Is(op, e) {
      KeysOfOperands(op, e.left);
      KeysOfOperands(op, e.right);
      KeysOfConcat(op, Operands(op, e.left), Operands(op, e.right));
    } else {
      assert [e][1..] == [];
    }
  }

  /** One operand, wherever it is, and the others. */
  lemma KeysOfOthers(op: Op, ys: seq<Expr>, i: nat)
    requires i < |ys|
    ensures KeysOf(op, ys) == Keys(op, ys[i]) + KeysOf(op, ys[..i] + ys[i + 1..])
  {
    var before, after := ys[..i], ys[i + 1..];
    var tail := [ys[i]] + after;
    assert ys == before + tail && tail[1..] == after;
    KeysOfConcat(op, before, after);
    KeysOfConcat(op, before, tail);
  }

  lemma {:induction false} KeysOfPermutation(op: Op, xs: seq<Expr>, ys: seq<Expr>)
    requires multiset(xs) == multiset(ys)
    ensures KeysOf(op, xs) == KeysOf(op, ys)
  {
    if xs == [] {
      assert |ys| == |multiset(ys)| == 0;
    } else {
      var i, others := TakeOut(xs, ys);
      KeysOfOthers(op, ys, i);
      KeysOfPermutation(op, xs[1..], others);
    }
  }

  lemma TakeOut(xs: seq<Expr>, ys: seq<Expr>) returns (i: nat, others: seq<Expr>)
    requires multiset(xs) == multiset(ys) && xs != []
    ensures i < |ys| && ys[i] == xs[0] && others == ys[..i] + ys[i + 1..] && multiset(xs[1..]) == multiset(others)
  {
    var x, all := xs[0], multiset(xs);
    assert x in all;
    i :| 0 <= i < |ys| && ys[i] == x;
    others := ys[..i] + ys[i + 1..];
    WithoutOne(xs, 0, xs[1..], all - multiset{x});
    WithoutOne(ys, i, others, all - multiset{x});
  }

  lemma WithoutOne(xs: seq<Expr>, i: nat, others: seq<Expr>, left: multiset<Expr>)
    requires i < |xs| && others == xs[..i] + xs[i + 1..] && left == multiset(xs) - multiset{xs[i]}
    ensures multiset(others) == left
  {
    assert xs == xs[..i] + [xs[i]] + xs[i + 1..];
  }

  /** Chains whose operands are permutations of one another are equal, unless they are irregular. */
  lemma PermutedEqual(op: Op, e1: Expr, e2: Expr)
    requires Is(op, e1) && Is(op, e2) && Clean(e1) && Clean(e2)
    requires multiset(Operands(op, e1)) == multiset(Operands(op, e2))
    ensures ExprEq(e1, e2) <==> FewConstants(e1)
  {
    KeysOfOperands(op, e1);
    KeysOfOperands(op, e2);
    KeysOfPermutation(op, Operands(op, e1), Operands(op, e2));
    ExprEqExact(e1, e2);
    FewConstantsExact(e1);
  }

  // ---- what elimination and extraction leave ----

  /** Every operand of b is an operand of a, as often, and can be taken out. */
  ghost predicate Within(constants: bool, a: multiset<Key>, b: multiset<Key>) {
    forall k :: k in b ==> Live(constants, k) && b[k] <= a[k]
  }

  lemma NothingLeft(constants: bool, a: multiset<Key>, b: multiset<Key>, r: multiset<Key>)
    requires Difference(constants, b, a, r)
    ensures r == multiset{} <==> Within(constants, a, b)
  {
    if r == multiset{} {
      forall k | k in b ensures Live(constants, k) && b[k] <= a[k] { assert r[k] == 0; }
    }
    if Within(constants, a, b) {
      forall k ensures r[k] == 0 { assert k !in b ==> b[k] == 0; }
    }
  }

  /** `expr_eliminate_eq` reduces e2 to y exactly when all the factors of e2 are factors of the conjunction e1. */
  lemma EliminateEqExact(e1: Expr, e2: Expr)
    requires e1.And? && Clean(e1) && Clean(e2) && !IsYesNo(e2)
    ensures EliminateEq(e1, e2).1 == Sym(SymYes) <==> Within(false, Keys(OpAnd, e1), Keys(OpAnd, e2))
  {
    var y := Cancel(OpAnd, e1, e2).1;
    var a, b := Keys(OpAnd, e1), Keys(OpAnd, e2);
    assert CleanChain(OpAnd, y) && (Keys(OpAnd, y) == multiset{} <==> Within(false, a, b)) by {
      CleanIsChain(OpAnd, e1);
      CleanIsChain(OpAnd, e2);
      CancelClean(OpAnd, e1, e2);
      CancelKeys(OpAnd, e1, e2);
      NothingLeft(false, a, b, Keys(OpAnd, y));
    }
    if y.Or? {
      DisjunctionLeft(e1, e2);
    } else {
      assert EliminateEq(e1, e2).1 == EliminateYn(y);
      FoldChain(OpAnd, y);
    }
  }

  /** A disjunction that is not a factor of e1 is never reduced to y. */
  lemma DisjunctionLeft(e1: Expr, e2: Expr)
    requires e1.And? && CleanChain(OpAnd, Cancel(OpAnd, e1, e2).1) && Cancel(OpAnd, e1, e2).1.Or?
    ensures EliminateEq(e1, e2).1 != Sym(SymYes) && Keys(OpAnd, Cancel(OpAnd, e1, e2).1) != multiset{}
  {
    var (x, y) := Cancel(OpAnd, e1, e2);
    CleanIsChain(OpOr, y);
    CancelClean(OpOr, x, y);
    FoldChain(OpOr, Cancel(OpOr, x, y).1);
    assert EliminateEq(e1, e2).1 == EliminateYn(Cancel(OpOr, x, y).1);
    assert KeyOf(y) in Keys(OpAnd, y);
  }

  lemma {:induction false} ExtractClean(op: Op, e1: Expr, e2: Expr)
    requires CleanChain(op, e1) && CleanChain(op, e2)
    ensures CleanChain(op, Extract(op, e1, e2).0) && CleanChain(op, Extract(op, e1, e2).1)
    decreases Size(e1) + Size(e2)
  {
    if Is(op, e1) {
      var x := Extract(op, e1.left, e2).1;
      ExtractClean(op, e1.left, e2);
      ExtractClean(op, e1.right, x);
    } else if Is(op, e2) {
      var x := Extract(op, e1, e2.left).0;
      ExtractClean(op, e1, e2.left);
      ExtractClean(op, x, e2.right);
    }
  }

  lemma {:induction false} ExtractKeys(op: Op, e1: Expr, e2: Expr)
    requires CleanChain(op, e1) && CleanChain(op, e2)
    ensures Difference(true, Keys(op, e1), Keys(op, e2), Keys(op, Extract(op, e1, e2).0))
    ensures Difference(true, Keys(op, e2), Keys(op, e1), Keys(op, Extract(op, e1, e2).1))
    decreases Size(e1) + Size(e2)
  {
    if Is(op, e1) {
      var (l, x, _) := Extract(op, e1.left, e2);
      ExtractClean(op, e1.left, e2);
      ExtractKeys(op, e1.left, e2);
      var (r, y, _) := Extract(op, e1.right, x);
      ExtractKeys(op, e1.right, x);
      SubtractTwice(true, Keys(op, e1.left), Keys(op, e1.right), Keys(op, e2), Keys(op, l), Keys(op, x), Keys(op, r),
                    Keys(op, y));
    } else if Is(op, e2) {
      var (x, l, _) := Extract(op, e1, e2.left);
      ExtractClean(op, e1, e2.left);
      ExtractKeys(op, e1, e2.left);
      var (y, r, _) := Extract(op, x, e2.right);
      ExtractKeys(op, x, e2.right);
      SubtractTwice(true, Keys(op, e2.left), Keys(op, e2.right), Keys(op, e1), Keys(op, l), Keys(op, x), Keys(op, r),
                    Keys(op, y));
    } else {
      ExtractOperands(op, e1, e2);
    }
  }

  lemma ExtractOperands(op: Op, e1: Expr, e2: Expr)
    requires CleanChain(op, e1) && CleanChain(op, e2) && !Is(op, e1) && !Is(op, e2)
    ensures Difference(true, Keys(op, e1), Keys(op, e2), Keys(op, Extract(op, e1, e2).0))
    ensures Difference(true, Keys(op, e2), Keys(op, e1), Keys(op, Extract(op, e1, e2).1))
  {
    if e1 == Neutral(op) || e2 == Neutral(op) {
      ExtractNeutral(op, e1, e2);
    } else {
      ExprEqExact(e1, e2);
      ExtractProper(op, e1, e2);
      SingleDifference(true, KeyOf(e1), KeyOf(e2));
    }
  }

  lemma ExtractNeutral(op: Op, e1: Expr, e2: Expr)
    requires CleanChain(op, e1) && CleanChain(op, e2) && !Is(op, e1) && !Is(op, e2)
    requires e1 == Neutral(op) || e2 == Neutral(op)
    ensures Extract(op, e1, e2).0 == e1 && Extract(op, e1, e2).1 == e2
  {
  }

  lemma ExtractProper(op: Op, e1: Expr, e2: Expr)
    requires !Is(op, e1) && !Is(op, e2)
    requires ExprEq(e1, e2) <==> KeyOf(e1) == KeyOf(e2) && !KeyOf(e1).Irregular?
    ensures var same := KeyOf(e1) == KeyOf(e2) && Live(true, KeyOf(e1));
            Extract(op, e1, e2) == if same then (Neutral(op), Neutral(op), true) else (e1, e2, false)
  {
  }

  /** If nothing was extracted, nothing has changed. */
  lemma {:induction false} ExtractNothing(op: Op, e1: Expr, e2: Expr)
    requires !Extract(op, e1, e2).2
    ensures Extract(op, e1, e2) == (e1, e2, false)
    decreases Size(e1) + Size(e2)
  {
    if Is(op, e1) {
      ExtractNothing(op, e1.left, e2);
      ExtractNothing(op, e1.right, e2);
    } else if Is(op, e2) {
      ExtractNothing(op, e1, e2.left);
      ExtractNothing(op, e1, e2.right);
    }
  }

  /** Extraction leaves nothing of e1 exactly when all the operands of e1 are operands of e2. */
  lemma ExtractExact(op: Op, e1: Expr, e2: Expr)
    requires Clean(e1) && Clean(e2) && !IsYesNo(e1) && !IsYesNo(e2)
    ensures ExtractEq(op, e1, e2).0 == Neutral(op) <==> Within(true, Keys(op, e2), Keys(op, e1))
  {
    var x := Extract(op, e1, e2).0;
    assert CleanChain(op, x) && (Keys(op, x) == multiset{} <==> Within(true, Keys(op, e2), Keys(op, e1))) by {
      CleanIsChain(op, e1);
      CleanIsChain(op, e2);
      ExtractClean(op, e1, e2);
      ExtractKeys(op, e1, e2);
      NothingLeft(true, Keys(op, e2), Keys(op, e1), Keys(op, x));
    }
    FoldChain(op, x);
    ExtractFolded(op, e1, e2);
  }

  /** Folding what is left of a clean formula makes no difference when nothing was extracted. */
  lemma ExtractFolded(op: Op, e1: Expr, e2: Expr)
    requires Clean(e1)
    ensures ExtractEq(op, e1, e2).0 == EliminateYn(Extract(op, e1, e2).0)
  {
    if !Extract(op, e1, e2).2 {
      ExtractNothing(op, e1, e2);
      CleanIsFolded(e1);
      EliminateYnFolds(e1);
    }
  }

  // ---- which formulas are equal to themselves ----

  /** The number of constants among the operands of an `op` chain. */
  function Constants(op: Op, e: Expr): nat {
    if Is(op, e) then Constants(op, e.left) + Constants(op, e.right)
    else if e.Sym? && e.sym.HasYesOrNoFlag() then 1
    else 0
  }

  /** No chain of e, at any depth, has two constants. */
  predicate FewConstants(e: Expr) {
    match e
    case Not(a) => FewConstants(a)
    case And(l, r) => Constants(OpAnd, e) <= 1 && FewConstants(l) && FewConstants(r)
    case Or(l, r) => Constants(OpOr, e) <= 1 && FewConstants(l) && FewConstants(r)
    case _ => true
  }

  /** `expr_eq` finds a formula equal to itself exactly when no chain of it has two constants. */
  lemma ReflexiveExact(e: Expr)
    requires Clean(e)
    ensures ExprEq(e, e) <==> FewConstants(e)
  {
    ExprEqExact(e, e);
    FewConstantsExact(e);
  }

  /** It is not reflexive: the conjunction of two interned constants is not equal to itself. */
  lemma NotReflexive(i: nat, j: nat)
    ensures var e := And(Sym(Constant(i)), Sym(Constant(j))); !ExprEq(e, e) && Folded(e)
  {
    var e := And(Sym(Constant(i)), Sym(Constant(j)));
    assert Constants(OpAnd, e.left) == 1 && Constants(OpAnd, e.right) == 1;
    ReflexiveExact(e);
  }

  lemma {:induction false} FewConstantsExact(e: Expr)
    requires Clean(e)
    ensures FewConstants(e) <==> !KeyOf(e).Irregular?
    decreases e, 1
  {
    match e
    case Not(a) => FewConstantsExact(a);
    case And(l, r) => ChainRegular(OpAnd, e);
    case Or(l, r) => ChainRegular(OpOr, e);
    case _ =>
  }

  lemma ChainRegular(op: Op, e: Expr)
    requires Clean(e) && Is(op, e)
    ensures FewConstants(e) <==> Regular(Keys(op, e))
    decreases e, 0
  {
    RegularOperands(op, e.left);
    RegularOperands(op, e.right);
    ConstantsCounted(op, e);
  }

  /** All the operands of the chain are regular, whatever constants there are among them. */
  predicate FewInside(op: Op, e: Expr) {
    if Is(op, e) then FewInside(op, e.left) && FewInside(op, e.right) else FewConstants(e)
  }

  lemma {:induction false} RegularOperands(op: Op, e: Expr)
    requires Clean(e) && !IsYesNo(e)
    ensures FewInside(op, e) <==> Irregular !in Keys(op, e)
    ensures FewConstants(e) <==> FewInside(op, e) && (Is(op, e) ==> Constants(op, e) <= 1)
    decreases e, 2
  {
    if Is(op, e) {
      RegularOperands(op, e.left);
      RegularOperands(op, e.right);
    } else {
      FewConstantsExact(e);
    }
  }

  lemma {:induction false} ConstantsCounted(op: Op, e: Expr)
    requires Clean(e) && !IsYesNo(e)
    ensures Constants(op, e) == 0 <==> NoConstant(Keys(op, e))
    ensures Constants(op, e) <= 1 <==> OneConstant(Keys(op, e))
  {
    if Is(op, e) {
      ConstantsCounted(op, e.left);
      ConstantsCounted(op, e.right);
      ConstantsOfSum(Keys(op, e.left), Keys(op, e.right));
    }
  }

  lemma ConstantsOfSum(a: multiset<Key>, b: multiset<Key>)
    ensures NoConstant(a + b) <==> NoConstant(a) && NoConstant(b)
    ensures OneConstant(a + b) <==> (OneConstant(a) && NoConstant(b)) || (NoConstant(a) && OneConstant(b))
  {
    forall k ensures k in a + b <==> k in a || k in b { }
    if OneConstant(a + b) {
      forall k, j | k in a && IsFlagged(k) && j in b ensures !IsFlagged(j) {
        assert k in a + b && j in a + b;
      }
      forall k, j | k in a && j in a && IsFlagged(k) && IsFlagged(j) ensures k == j && a[k] == 1 {
        assert k in a + b && j in a + b;
      }
      forall k, j | k in b && j in b && IsFlagged(k) && IsFlagged(j) ensures k == j && b[k] == 1 {
        assert k in a + b && j in a + b;
      }
    }
    if NoConstant(a + b) {
      forall k | k in a || k in b ensures !IsFlagged(k) { assert k in a + b; }
    }
  }
}
