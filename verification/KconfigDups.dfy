/**
 Removal of duplicate and contradictory operands: `expr_eliminate_dups1`, `expr_eliminate_dups2` and
 `expr_eliminate_dups` of common/kconfig/expr.c. Both passes are called with two pointers to the same
 chain, so each works on one tree and two locations in it. `trans_count` is returned.
 */
module KconfigDups {
  import opened KconfigExpr
  import opened KconfigEq
  import opened KconfigTransform
  import opened KconfigMerge
  import opened KconfigChain

  // ---- pass 1: merge pairs of operands ----

  /** The operands at p1 (already simplified to x) and p2 meet. */
  function MergeAt(op: Op, e: Expr, p1: Path, p2: Path, x: Expr): (r: (Expr, nat))
    requires OperandAt(op, e, p1) && OperandAt(op, e, p2) && p1 != p2
    requires !Is(op, x) && Size(x) <= Size(At(op, e, p1))
    ensures SameChain(op, e, r.0) && Size(r.0) <= Size(e)
  {
    PutAt(op, e, p1, x);
    PutElsewhere(op, e, p1, x, p2);
    var a := Put(op, e, p1, x);
    match Merge(op, x, At(op, e, p2))
    case Null => (a, 0)
    case Tree(t) =>
      MergeSize(op, x, At(op, e, p2));
      PutAt(op, a, p1, Neutral(op));
      PutElsewhere(op, a, p1, Neutral(op), p2);
      var b := Put(op, a, p1, Neutral(op));
      PutAt(op, b, p2, t);
      SameChainTrans(op, e, a, b);
      SameChainTrans(op, e, b, Put(op, b, p2, t));
      (Put(op, b, p2, t), 1)
  }

  function Dups1(op: Op, e: Expr, p1: Path, p2: Path): (r: (Expr, nat))
    requires Is(op, e) && OnChain(op, e, p1) && OnChain(op, e, p2)
    ensures SameChain(op, e, r.0) && Size(r.0) <= Size(e)
    decreases Size(e), ChainSize(op, At(op, e, p1)) + ChainSize(op, At(op, e, p2))
  {
    var e1, e2 := At(op, e, p1), At(op, e, p2);
    if Is(op, e1) then
      AtStep(op, e, p1, L);
      var (a, c) := Dups1(op, e, p1 + [L], p2);
      SameChainAt(op, e, a, p1);
      SameChainAt(op, e, a, p2);
      AtStep(op, a, p1, R);
      var (b, d) := Dups1(op, a, p1 + [R], p2);
      SameChainTrans(op, e, a, b);
      (b, c + d)
    else if Is(op, e2) then
      AtStep(op, e, p2, L);
      var (a, c) := Dups1(op, e, p1, p2 + [L]);
      SameChainAt(op, e, a, p1);
      SameChainAt(op, e, a, p2);
      AtStep(op, a, p2, R);
      var (b, d) := Dups1(op, a, p1, p2 + [R]);
      SameChainTrans(op, e, a, b);
      (b, c + d)
    else if p1 == p2 then
      SameChainRefl(op, e);
      (e, 0)
    else
      AtSmaller(op, e, p1);
      var (x, c) := if IsConnective(e1) then Dups1(OpOf(e1), e1, [], []) else (e1, 0);
      var (b, d) := MergeAt(op, e, p1, p2, x);
      (b, c + d)
  }

  lemma {:induction false} Dups1Sound(op: Op, e: Expr, p1: Path, p2: Path, env: Env)
    requires Is(op, e) && OnChain(op, e, p1) && OnChain(op, e, p2)
    requires WellFormed(env)
    ensures Value(Dups1(op, e, p1, p2).0, env) == Value(e, env)
    decreases Size(e), ChainSize(op, At(op, e, p1)) + ChainSize(op, At(op, e, p2))
  {
    var e1, e2 := At(op, e, p1), At(op, e, p2);
    if Is(op, e1) {
      AtStep(op, e, p1, L);
      var a := Dups1(op, e, p1 + [L], p2).0;
      Dups1Sound(op, e, p1 + [L], p2, env);
      SameChainAt(op, e, a, p1);
      SameChainAt(op, e, a, p2);
      AtStep(op, a, p1, R);
      Dups1Sound(op, a, p1 + [R], p2, env);
    } else if Is(op, e2) {
      AtStep(op, e, p2, L);
      var a := Dups1(op, e, p1, p2 + [L]).0;
      Dups1Sound(op, e, p1, p2 + [L], env);
      SameChainAt(op, e, a, p1);
      SameChainAt(op, e, a, p2);
      AtStep(op, a, p2, R);
      Dups1Sound(op, a, p1, p2 + [R], env);
    } else if p1 != p2 {
      AtSmaller(op, e, p1);
      if IsConnective(e1) { Dups1Sound(OpOf(e1), e1, [], [], env); }
      var x := if IsConnective(e1) then Dups1(OpOf(e1), e1, [], []).0 else e1;
      MergeAtSound(op, e, p1, p2, x, env);
    }
  }

  lemma MergeAtSound(op: Op, e: Expr, p1: Path, p2: Path, x: Expr, env: Env)
    requires OperandAt(op, e, p1) && OperandAt(op, e, p2) && p1 != p2
    requires !Is(op, x) && Size(x) <= Size(At(op, e, p1))
    requires WellFormed(env) && Value(x, env) == Value(At(op, e, p1), env)
    ensures Value(MergeAt(op, e, p1, p2, x).0, env) == Value(e, env)
  {
    var a, e2 := Put(op, e, p1, x), At(op, e, p2);
    PutAt(op, e, p1, x);
    PutElsewhere(op, e, p1, x, p2);
    PutValue(op, e, p1, x, env);
    AtValue(op, e, p1, env);
    if Merge(op, x, e2).Tree? {
      MergeSound(op, x, e2, env);
      PutAt(op, a, p1, Neutral(op));
      PutElsewhere(op, a, p1, Neutral(op), p2);
      PutPairValue(op, a, p1, Neutral(op), p2, Merge(op, x, e2).e, env);
    }
  }

  /** A counted change leaves a literal behind for `expr_eliminate_yn`; an uncounted one is none. */
  lemma {:induction false} Dups1Counts(op: Op, e: Expr, p1: Path, p2: Path)
    requires Is(op, e) && OnChain(op, e, p1) && OnChain(op, e, p2)
    ensures var (r, c) := Dups1(op, e, p1, p2);
            && (c == 0 ==> r == e)
            && (c > 0 || !Folded(e) ==> !Folded(r))
    decreases Size(e), ChainSize(op, At(op, e, p1)) + ChainSize(op, At(op, e, p2))
  {
    var e1, e2 := At(op, e, p1), At(op, e, p2);
    if Is(op, e1) {
      AtStep(op, e, p1, L);
      var a := Dups1(op, e, p1 + [L], p2).0;
      Dups1Counts(op, e, p1 + [L], p2);
      SameChainAt(op, e, a, p1);
      SameChainAt(op, e, a, p2);
      AtStep(op, a, p1, R);
      Dups1Counts(op, a, p1 + [R], p2);
    } else if Is(op, e2) {
      AtStep(op, e, p2, L);
      var a := Dups1(op, e, p1, p2 + [L]).0;
      Dups1Counts(op, e, p1, p2 + [L]);
      SameChainAt(op, e, a, p1);
      SameChainAt(op, e, a, p2);
      AtStep(op, a, p2, R);
      Dups1Counts(op, a, p1, p2 + [R]);
    } else if p1 != p2 {
      AtSmaller(op, e, p1);
      var (x, c) := if IsConnective(e1) then Dups1(OpOf(e1), e1, [], []) else (e1, 0);
      if IsConnective(e1) { Dups1Counts(OpOf(e1), e1, [], []); }
      MergeAtCounts(op, e, p1, p2, x);
    }
  }

  lemma MergeAtCounts(op: Op, e: Expr, p1: Path, p2: Path, x: Expr)
    requires OperandAt(op, e, p1) && OperandAt(op, e, p2) && p1 != p2 && Is(op, e)
    requires !Is(op, x) && Size(x) <= Size(At(op, e, p1))
    requires x == At(op, e, p1) || (IsConnective(At(op, e, p1)) && !Folded(x))
    ensures var (r, c) := MergeAt(op, e, p1, p2, x);
            && (c == 0 && x == At(op, e, p1) ==> r == e)
            && (c > 0 || !Folded(e) || !Folded(x) ==> !Folded(r))
  {
    var a, e2 := Put(op, e, p1, x), At(op, e, p2);
    PutAt(op, e, p1, x);
    PutElsewhere(op, e, p1, x, p2);
    if Merge(op, x, e2).Tree? {
      var t := Merge(op, x, e2).e;
      MergeSize(op, x, e2);
      PutAt(op, a, p1, Neutral(op));
      PutElsewhere(op, a, p1, Neutral(op), p2);
      var b := Put(op, a, p1, Neutral(op));
      PutAt(op, b, p2, t);
      PutElsewhere(op, b, p2, t, p1);
      LiteralNotFolded(op, Put(op, b, p2, t), p1);
    } else if !Folded(x) {
      PutNotFolded(op, e, p1, x);
    }
  }

  /** No two operands of any chain of e outside a negation can be merged. */
  ghost predicate Unmergeable(e: Expr)
    decreases Size(e)
  {
    IsConnective(e) ==>
      var op := OpOf(e);
      forall p: Path, q: Path :: OperandAt(op, e, p) && OperandAt(op, e, q) && p != q ==>
        && Merge(op, At(op, e, p), At(op, e, q)).Null?
        && (AtSmaller(op, e, p); Unmergeable(At(op, e, p)))
  }

  lemma {:induction false} Dups1Complete(op: Op, e: Expr, p1: Path, p2: Path, q1: Path, q2: Path)
    requires Is(op, e) && OnChain(op, e, p1) && OnChain(op, e, p2)
    requires Dups1(op, e, p1, p2).1 == 0
    requires OperandAt(op, e, q1) && OperandAt(op, e, q2) && q1 != q2 && p1 <= q1 && p2 <= q2
    ensures Merge(op, At(op, e, q1), At(op, e, q2)).Null?
    ensures IsConnective(At(op, e, q1)) ==> Dups1(OpOf(At(op, e, q1)), At(op, e, q1), [], []).1 == 0
    decreases ChainSize(op, At(op, e, p1)) + ChainSize(op, At(op, e, p2))
  {
    var e1, e2 := At(op, e, p1), At(op, e, p2);
    if Is(op, e1) {
      AtStep(op, e, p1, L);
      AtStep(op, e, p1, R);
      Dups1Counts(op, e, p1 + [L], p2);
      assert p1 != q1;
      assert q1[..|p1| + 1] == p1 + [q1[|p1|]];
      if q1[|p1|] == L { Dups1Complete(op, e, p1 + [L], p2, q1, q2); }
      else { Dups1Complete(op, e, p1 + [R], p2, q1, q2); }
    } else if Is(op, e2) {
      AtStep(op, e, p2, L);
      AtStep(op, e, p2, R);
      Dups1Counts(op, e, p1, p2 + [L]);
      assert p2 != q2;
      assert q2[..|p2| + 1] == p2 + [q2[|p2|]];
      if q2[|p2|] == L { Dups1Complete(op, e, p1, p2 + [L], q1, q2); }
      else { Dups1Complete(op, e, p1, p2 + [R], q1, q2); }
    } else {
      OperandIsEnd(op, e, p1, q1);
      OperandIsEnd(op, e, p2, q2);
      if IsConnective(e1) { AtSmaller(op, e, p1); Dups1Counts(OpOf(e1), e1, [], []); }
    }
  }

  /** No location lies below an operand. */
  lemma {:induction false} OperandIsEnd(op: Op, e: Expr, p: Path, q: Path)
    requires OperandAt(op, e, p) && OnChain(op, e, q) && p <= q
    ensures p == q
  {
    if p != [] {
      assert p[0] == q[0] && p[1..] <= q[1..];
      OperandIsEnd(op, Child(e, p[0]), p[1..], q[1..]);
    }
  }

  lemma {:induction false} QuietIsUnmergeable(e: Expr)
    requires IsConnective(e) ==> Dups1(OpOf(e), e, [], []).1 == 0
    ensures Unmergeable(e)
    decreases Size(e)
  {
    if IsConnective(e) {
      var op := OpOf(e);
      forall p: Path, q: Path | OperandAt(op, e, p) && OperandAt(op, e, q) && p != q
        ensures Merge(op, At(op, e, p), At(op, e, q)).Null?
        ensures Size(At(op, e, p)) < Size(e) && Unmergeable(At(op, e, p))
      {
        AtSmaller(op, e, p);
        Dups1Complete(op, e, [], [], p, q);
        QuietIsUnmergeable(At(op, e, p));
      }
    }
  }

  // ---- pass 2: an operand contradicted by the rest of its chain ----

  /** (A || B) && !A && !B is n; (A && B) || !A || !B is y: the operand at p1, already simplified to x. */
  function AbsorbAt(op: Op, e: Expr, p1: Path, p2: Path, x: Expr): (r: (Expr, nat))
    requires OperandAt(op, e, p1) && OnChain(op, e, p2) && !Is(op, x)
    requires Size(x) <= Size(At(op, e, p1))
    ensures SameChain(op, e, r.0) && Size(r.0) <= Size(e)
  {
    PutAt(op, e, p1, x);
    var a := Put(op, e, p1, x);
    SameChainAt(op, e, a, p2);
    if ExtractEq(op, Transform(Not(x)), At(op, a, p2)).0 == Neutral(op) then
      PutAt(op, a, p1, Absorbing(op));
      SameChainTrans(op, e, a, Put(op, a, p1, Absorbing(op)));
      (Put(op, a, p1, Absorbing(op)), 1)
    else
      (a, 0)
  }

  /** The operand that decides the value of a chain: y for ||, n for &&. */
  function Absorbing(op: Op): Expr {
    if op == OpOr then Sym(SymYes) else Sym(SymNo)
  }

  /** The second test has no `return`, so an `op` node at p2 is also compared as a whole. */
  function Dups2(op: Op, e: Expr, p1: Path, p2: Path): (r: (Expr, nat))
    requires Is(op, e) && OnChain(op, e, p1) && OnChain(op, e, p2)
    ensures SameChain(op, e, r.0) && Size(r.0) <= Size(e)
    decreases Size(e), ChainSize(op, At(op, e, p1)) + ChainSize(op, At(op, e, p2)), 1
  {
    if Is(op, At(op, e, p1)) then
      AtStep(op, e, p1, L);
      var (a, c) := Dups2(op, e, p1 + [L], p2);
      SameChainAt(op, e, a, p1);
      SameChainAt(op, e, a, p2);
      AtStep(op, a, p1, R);
      var (b, d) := Dups2(op, a, p1 + [R], p2);
      SameChainTrans(op, e, a, b);
      (b, c + d)
    else
      var (b, c) := Dups2Inside(op, e, p1, p2);
      SameChainAt(op, e, b, p1);
      SameChainAt(op, e, b, p2);
      var e1 := At(op, b, p1);
      if p1 == p2 || !IsConnective(e1) then
        (b, c)
      else
        AtSmaller(op, b, p1);
        var (x, d) := Dups2(OpOf(e1), e1, [], []);
        var (r, k) := AbsorbAt(op, b, p1, p2, x);
        SameChainTrans(op, e, b, r);
        (r, c + d + k)
  }

  /** The operand at p1 against the two halves of the node at p2, if that is an `op` node. */
  function Dups2Inside(op: Op, e: Expr, p1: Path, p2: Path): (r: (Expr, nat))
    requires Is(op, e) && OnChain(op, e, p1) && OnChain(op, e, p2) && !Is(op, At(op, e, p1))
    ensures SameChain(op, e, r.0) && Size(r.0) <= Size(e)
    decreases Size(e), ChainSize(op, At(op, e, p1)) + ChainSize(op, At(op, e, p2)), 0
  {
    if Is(op, At(op, e, p2)) then
      AtStep(op, e, p2, L);
      var (a, c) := Dups2(op, e, p1, p2 + [L]);
      SameChainAt(op, e, a, p1);
      SameChainAt(op, e, a, p2);
      AtStep(op, a, p2, R);
      var (b, d) := Dups2(op, a, p1, p2 + [R]);
      SameChainTrans(op, e, a, b);
      (b, c + d)
    else
      SameChainRefl(op, e);
      (e, 0)
  }

  /** The second value says at least as much as the first: only m may change. */
  predicate Sharper(v: Tristate, w: Tristate) {
    v == MOD || v == w
  }

  lemma PutSharper(op: Op, e: Expr, p: Path, x: Expr, env: Env)
    requires OnChain(op, e, p)
    requires Sharper(Value(At(op, e, p), env), Value(x, env))
    ensures Sharper(Value(e, env), Value(Put(op, e, p, x), env))
  {
    AtValue(op, e, p, env);
    PutValue(op, e, p, x, env);
  }

  /** An operand whose negation is a factor of another location decides the chain, unless that is m. */
  lemma ContradictedSharper(op: Op, a: Expr, p1: Path, p2: Path, env: Env)
    requires OnChain(op, a, p1) && OnChain(op, a, p2) && WellFormed(env)
    requires ExtractEq(op, Transform(Not(At(op, a, p1))), At(op, a, p2)).0 == Neutral(op)
    ensures Sharper(Value(a, env), Value(Put(op, a, p1, Absorbing(op)), env))
  {
    var x, e2 := At(op, a, p1), At(op, a, p2);
    TransformSound(Not(x), env);
    ExtractedBounds(op, Transform(Not(x)), e2, env);
    AtValue(op, a, p1, env);
    AtValue(op, a, p2, env);
    PutValue(op, a, p1, Absorbing(op), env);
  }

  lemma AbsorbAtSharper(op: Op, e: Expr, p1: Path, p2: Path, x: Expr, env: Env)
    requires OperandAt(op, e, p1) && OnChain(op, e, p2) && !Is(op, x)
    requires Size(x) <= Size(At(op, e, p1))
    requires WellFormed(env)
    requires Sharper(Value(At(op, e, p1), env), Value(x, env))
    ensures Sharper(Value(e, env), Value(AbsorbAt(op, e, p1, p2, x).0, env))
  {
    PutSharper(op, e, p1, x, env);
    PutAt(op, e, p1, x);
    var a := Put(op, e, p1, x);
    SameChainAt(op, e, a, p2);
    if ExtractEq(op, Transform(Not(x)), At(op, a, p2)).0 == Neutral(op) {
      ContradictedSharper(op, a, p1, p2, env);
    }
  }

  /** Pass 2 may only turn an m into a definite value. */
  lemma {:induction false} Dups2Sharper(op: Op, e: Expr, p1: Path, p2: Path, env: Env)
    requires Is(op, e) && OnChain(op, e, p1) && OnChain(op, e, p2)
    requires WellFormed(env)
    ensures Sharper(Value(e, env), Value(Dups2(op, e, p1, p2).0, env))
    decreases Size(e), ChainSize(op, At(op, e, p1)) + ChainSize(op, At(op, e, p2)), 1
  {
    if Is(op, At(op, e, p1)) {
      AtStep(op, e, p1, L);
      var a := Dups2(op, e, p1 + [L], p2).0;
      Dups2Sharper(op, e, p1 + [L], p2, env);
      SameChainAt(op, e, a, p1);
      SameChainAt(op, e, a, p2);
      AtStep(op, a, p1, R);
      Dups2Sharper(op, a, p1 + [R], p2, env);
    } else {
      Dups2InsideSharper(op, e, p1, p2, env);
      var b := Dups2Inside(op, e, p1, p2).0;
      SameChainAt(op, e, b, p1);
      SameChainAt(op, e, b, p2);
      var e1 := At(op, b, p1);
      if p1 != p2 && IsConnective(e1) {
        AtSmaller(op, b, p1);
        Dups2Sharper(OpOf(e1), e1, [], [], env);
        AbsorbAtSharper(op, b, p1, p2, Dups2(OpOf(e1), e1, [], []).0, env);
      }
    }
  }

  lemma {:induction false} Dups2InsideSharper(op: Op, e: Expr, p1: Path, p2: Path, env: Env)
    requires Is(op, e) && OnChain(op, e, p1) && OnChain(op, e, p2) && !Is(op, At(op, e, p1))
    requires WellFormed(env)
    ensures Sharper(Value(e, env), Value(Dups2Inside(op, e, p1, p2).0, env))
    decreases Size(e), ChainSize(op, At(op, e, p1)) + ChainSize(op, At(op, e, p2)), 0
  {
    if Is(op, At(op, e, p2)) {
      AtStep(op, e, p2, L);
      var a := Dups2(op, e, p1, p2 + [L]).0;
      Dups2Sharper(op, e, p1, p2 + [L], env);
      SameChainAt(op, e, a, p1);
      SameChainAt(op, e, a, p2);
      AtStep(op, a, p2, R);
      Dups2Sharper(op, a, p1, p2 + [R], env);
    }
  }

  lemma AbsorbAtCounts(op: Op, e: Expr, p1: Path, p2: Path, x: Expr)
    requires OperandAt(op, e, p1) && OnChain(op, e, p2) && !Is(op, x) && Is(op, e)
    requires Size(x) <= Size(At(op, e, p1)) && IsConnective(At(op, e, p1))
    requires x == At(op, e, p1) || !Folded(x)
    ensures var (r, c) := AbsorbAt(op, e, p1, p2, x);
            && (c == 0 && x == At(op, e, p1) ==> r == e)
            && (c > 0 || !Folded(e) || !Folded(x) ==> !Folded(r))
  {
    PutAt(op, e, p1, x);
    var a := Put(op, e, p1, x);
    SameChainAt(op, e, a, p2);
    PutAt(op, a, p1, Absorbing(op));
    if AbsorbAt(op, e, p1, p2, x).1 > 0 {
      LiteralNotFolded(op, Put(op, a, p1, Absorbing(op)), p1);
    } else if !Folded(x) {
      PutNotFolded(op, e, p1, x);
    }
  }

  lemma {:induction false} Dups2Counts(op: Op, e: Expr, p1: Path, p2: Path)
    requires Is(op, e) && OnChain(op, e, p1) && OnChain(op, e, p2)
    ensures var (r, c) := Dups2(op, e, p1, p2);
            && (c == 0 ==> r == e)
            && (c > 0 || !Folded(e) ==> !Folded(r))
    decreases Size(e), ChainSize(op, At(op, e, p1)) + ChainSize(op, At(op, e, p2)), 1
  {
    if Is(op, At(op, e, p1)) {
      AtStep(op, e, p1, L);
      var a := Dups2(op, e, p1 + [L], p2).0;
      Dups2Counts(op, e, p1 + [L], p2);
      SameChainAt(op, e, a, p1);
      SameChainAt(op, e, a, p2);
      AtStep(op, a, p1, R);
      Dups2Counts(op, a, p1 + [R], p2);
    } else {
      Dups2InsideCounts(op, e, p1, p2);
      var b := Dups2Inside(op, e, p1, p2).0;
      SameChainAt(op, e, b, p1);
      SameChainAt(op, e, b, p2);
      var e1 := At(op, b, p1);
      if p1 != p2 && IsConnective(e1) {
        AtSmaller(op, b, p1);
        Dups2Counts(OpOf(e1), e1, [], []);
        AbsorbAtCounts(op, b, p1, p2, Dups2(OpOf(e1), e1, [], []).0);
      }
    }
  }

  lemma {:induction false} Dups2InsideCounts(op: Op, e: Expr, p1: Path, p2: Path)
    requires Is(op, e) && OnChain(op, e, p1) && OnChain(op, e, p2) && !Is(op, At(op, e, p1))
    ensures var (r, c) := Dups2Inside(op, e, p1, p2);
            && (c == 0 ==> r == e)
            && (c > 0 || !Folded(e) ==> !Folded(r))
    decreases Size(e), ChainSize(op, At(op, e, p1)) + ChainSize(op, At(op, e, p2)), 0
  {
    if Is(op, At(op, e, p2)) {
      AtStep(op, e, p2, L);
      var a := Dups2(op, e, p1, p2 + [L]).0;
      Dups2Counts(op, e, p1, p2 + [L]);
      SameChainAt(op, e, a, p1);
      SameChainAt(op, e, a, p2);
      AtStep(op, a, p2, R);
      Dups2Counts(op, a, p1, p2 + [R]);
    }
  }

  // ---- the fixpoint loop ----

  /** One turn of the `while (1)` loop before the literals are folded. */
  function Round(e: Expr): (r: (Expr, nat))
    ensures Size(r.0) <= Size(e)
    ensures IsConnective(e) <==> IsConnective(r.0)
  {
    if IsConnective(e) then
      var (a, c) := Dups1(OpOf(e), e, [], []);
      var (b, d) := Dups2(OpOf(e), a, [], []);
      (b, c + d)
    else (e, 0)
  }

  /** A turn that changes anything leaves a smaller tree once the literals are folded. */
  lemma RoundShrinks(e: Expr)
    ensures Round(e).1 == 0 ==> Round(e).0 == e
    ensures Round(e).1 > 0 ==> Size(EliminateYn(Round(e).0)) < Size(e)
  {
    if IsConnective(e) {
      var op := OpOf(e);
      var a := Dups1(op, e, [], []).0;
      Dups1Counts(op, e, [], []);
      Dups2Counts(op, a, [], []);
      EliminateYnFolds(Round(e).0);
    }
  }

  lemma RoundSharper(e: Expr, env: Env)
    requires WellFormed(env)
    ensures Sharper(Value(e, env), Value(Round(e).0, env))
  {
    if IsConnective(e) {
      var op := OpOf(e);
      Dups1Sound(op, e, [], [], env);
      Dups2Sharper(op, Dups1(op, e, [], []).0, [], [], env);
    }
  }

  /** What the loop computes. */
  function EliminateDups(e: Expr): (r: Expr)
    decreases Size(e)
  {
    RoundShrinks(e);
    if Round(e).1 == 0 then e else EliminateDups(EliminateYn(Round(e).0))
  }

  /** `expr_eliminate_dups` as the loop it is; it terminates because every changing turn shrinks the tree. */
  method EliminateDupsLoop(start: Expr) returns (e: Expr)
    ensures e == EliminateDups(start)
    ensures Round(e) == (e, 0)
    ensures Size(e) <= Size(start)
  {
    e := start;
    while true
      invariant EliminateDups(e) == EliminateDups(start)
      invariant Size(e) <= Size(start)
      decreases Size(e)
    {
      var transCount := 0;
      if e.Or? || e.And? {
        var op := OpOf(e);
        RoundShrinks(e);
        var first := Dups1(op, e, [], []);
        var second := Dups2(op, first.0, [], []);
        e, transCount := second.0, first.1 + second.1;
      }
      if transCount == 0 {
        break;
      }
      e := EliminateYn(e);
    }
  }

  /** In every well-formed environment the result has the same value, unless that value was m. */
  lemma {:induction false} EliminateDupsSharper(e: Expr, env: Env)
    requires WellFormed(env)
    ensures Sharper(Value(e, env), Value(EliminateDups(e), env))
    decreases Size(e)
  {
    RoundShrinks(e);
    if Round(e).1 > 0 {
      RoundSharper(e, env);
      EliminateYnSound(Round(e).0, env);
      EliminateDupsSharper(EliminateYn(Round(e).0), env);
    }
  }

  /** No duplicate survives: in the result no two operands of any chain can be merged. */
  lemma {:induction false} EliminateDupsComplete(e: Expr)
    ensures Unmergeable(EliminateDups(e))
    decreases Size(e)
  {
    RoundShrinks(e);
    if Round(e).1 > 0 {
      EliminateDupsComplete(EliminateYn(Round(e).0));
    } else {
      QuietIsUnmergeable(e);
    }
  }

  /** Every plain symbol of e is definite: none is m, and m itself does not occur. */
  predicate TwoValued(e: Expr, env: Env) {
    match e
    case Sym(s) => env.tri(s) != MOD
    case Not(a) => TwoValued(a, env)
    case And(l, r) => TwoValued(l, env) && TwoValued(r, env)
    case Or(l, r) => TwoValued(l, env) && TwoValued(r, env)
    case _ => true
  }

  lemma {:induction false} TwoValuedIsDefinite(e: Expr, env: Env)
    requires TwoValued(e, env)
    ensures Value(e, env) != MOD
  {
    match e
    case Not(a) => TwoValuedIsDefinite(a, env);
    case And(l, r) => TwoValuedIsDefinite(l, env); TwoValuedIsDefinite(r, env);
    case Or(l, r) => TwoValuedIsDefinite(l, env); TwoValuedIsDefinite(r, env);
    case _ =>
  }

  lemma EliminateDupsTwoValued(e: Expr, env: Env)
    requires WellFormed(env) && TwoValued(e, env)
    ensures Value(EliminateDups(e), env) == Value(e, env)
  {
    TwoValuedIsDefinite(e, env);
    EliminateDupsSharper(e, env);
  }

  /**
   When pass 2 absorbs an operand, the value of the chain survives if and only if it was not m. The
   operand may have been rewritten to x by the nested pass.
   */
  lemma AbsorbExact(op: Op, e: Expr, p1: Path, p2: Path, x: Expr, env: Env)
    requires OperandAt(op, e, p1) && OnChain(op, e, p2) && p1 != []
    requires !Is(op, x) && Size(x) <= Size(At(op, e, p1))
    requires WellFormed(env) && Sharper(Value(At(op, e, p1), env), Value(x, env))
    requires AbsorbAt(op, e, p1, p2, x).1 > 0
    ensures Value(AbsorbAt(op, e, p1, p2, x).0, env) == Value(e, env) <==> Value(e, env) != MOD
  {
    AbsorbAtSharper(op, e, p1, p2, x, env);
    PutAt(op, e, p1, x);
    PutValue(op, Put(op, e, p1, x), p1, Absorbing(op), env);
  }

  /** Pass 2 absorbs an operand of this very chain, not only operands of chains inside it. */
  predicate Absorbs(op: Op, e: Expr, p1: Path, p2: Path)
    requires Is(op, e) && OnChain(op, e, p1) && OnChain(op, e, p2)
    decreases Size(e), ChainSize(op, At(op, e, p1)) + ChainSize(op, At(op, e, p2)), 1
  {
    if Is(op, At(op, e, p1)) then
      AtStep(op, e, p1, L);
      var a := Dups2(op, e, p1 + [L], p2).0;
      SameChainAt(op, e, a, p1);
      SameChainAt(op, e, a, p2);
      AtStep(op, a, p1, R);
      Absorbs(op, e, p1 + [L], p2) || Absorbs(op, a, p1 + [R], p2)
    else
      var b := Dups2Inside(op, e, p1, p2).0;
      SameChainAt(op, e, b, p1);
      SameChainAt(op, e, b, p2);
      var e1 := At(op, b, p1);
      || AbsorbsInside(op, e, p1, p2)
      || (p1 != p2 && IsConnective(e1) && AbsorbAt(op, b, p1, p2, Dups2(OpOf(e1), e1, [], []).0).1 > 0)
  }

  predicate AbsorbsInside(op: Op, e: Expr, p1: Path, p2: Path)
    requires Is(op, e) && OnChain(op, e, p1) && OnChain(op, e, p2) && !Is(op, At(op, e, p1))
    decreases Size(e), ChainSize(op, At(op, e, p1)) + ChainSize(op, At(op, e, p2)), 0
  {
    && Is(op, At(op, e, p2))
    && (AtStep(op, e, p2, L);
        var a := Dups2(op, e, p1, p2 + [L]).0;
        SameChainAt(op, e, a, p1);
        SameChainAt(op, e, a, p2);
        AtStep(op, a, p2, R);
        Absorbs(op, e, p1, p2 + [L]) || Absorbs(op, a, p1, p2 + [R]))
  }

  /** Once it has absorbed an operand, the chain has the absorbing value everywhere. */
  lemma {:induction false} AbsorbsDecides(op: Op, e: Expr, p1: Path, p2: Path, env: Env)
    requires Is(op, e) && OnChain(op, e, p1) && OnChain(op, e, p2)
    requires WellFormed(env) && Absorbs(op, e, p1, p2)
    ensures Dups2(op, e, p1, p2).1 > 0 && Value(Dups2(op, e, p1, p2).0, env) == Value(Absorbing(op), env)
    decreases Size(e), ChainSize(op, At(op, e, p1)) + ChainSize(op, At(op, e, p2)), 1
  {
    if Is(op, At(op, e, p1)) {
      AtStep(op, e, p1, L);
      var a := Dups2(op, e, p1 + [L], p2).0;
      SameChainAt(op, e, a, p1);
      SameChainAt(op, e, a, p2);
      AtStep(op, a, p1, R);
      if Absorbs(op, a, p1 + [R], p2) {
        AbsorbsDecides(op, a, p1 + [R], p2, env);
      } else {
        AbsorbsDecides(op, e, p1 + [L], p2, env);
        Dups2Sharper(op, a, p1 + [R], p2, env);
      }
    } else {
      if AbsorbsInside(op, e, p1, p2) { AbsorbsInsideDecides(op, e, p1, p2, env); }
      AbsorbsHere(op, e, p1, p2, env);
    }
  }

  /** The end of pass 2 at one pair of locations keeps an absorbing value, or brings it about. */
  lemma AbsorbsHere(op: Op, e: Expr, p1: Path, p2: Path, env: Env)
    requires Is(op, e) && OnChain(op, e, p1) && OnChain(op, e, p2) && !Is(op, At(op, e, p1))
    requires WellFormed(env) && Absorbs(op, e, p1, p2)
    requires AbsorbsInside(op, e, p1, p2) ==>
               Dups2Inside(op, e, p1, p2).1 > 0 && Value(Dups2Inside(op, e, p1, p2).0, env) == Value(Absorbing(op), env)
    ensures Dups2(op, e, p1, p2).1 > 0 && Value(Dups2(op, e, p1, p2).0, env) == Value(Absorbing(op), env)
  {
    var b := Dups2Inside(op, e, p1, p2).0;
    SameChainAt(op, e, b, p1);
    SameChainAt(op, e, b, p2);
    var e1 := At(op, b, p1);
    if p1 != p2 && IsConnective(e1) {
      AtSmaller(op, b, p1);
      Dups2Sharper(OpOf(e1), e1, [], [], env);
      AbsorbAtDecides(op, b, p1, p2, Dups2(OpOf(e1), e1, [], []).0, env);
    }
  }

  lemma {:induction false} AbsorbsInsideDecides(op: Op, e: Expr, p1: Path, p2: Path, env: Env)
    requires Is(op, e) && OnChain(op, e, p1) && OnChain(op, e, p2) && !Is(op, At(op, e, p1))
    requires WellFormed(env) && AbsorbsInside(op, e, p1, p2)
    ensures Dups2Inside(op, e, p1, p2).1 > 0 && Value(Dups2Inside(op, e, p1, p2).0, env) == Value(Absorbing(op), env)
    decreases Size(e), ChainSize(op, At(op, e, p1)) + ChainSize(op, At(op, e, p2)), 0
  {
    AtStep(op, e, p2, L);
    var a := Dups2(op, e, p1, p2 + [L]).0;
    SameChainAt(op, e, a, p1);
    SameChainAt(op, e, a, p2);
    AtStep(op, a, p2, R);
    if Absorbs(op, a, p1, p2 + [R]) {
      AbsorbsDecides(op, a, p1, p2 + [R], env);
    } else {
      AbsorbsDecides(op, e, p1, p2 + [L], env);
      Dups2Sharper(op, a, p1, p2 + [R], env);
    }
  }

  lemma AbsorbAtDecides(op: Op, e: Expr, p1: Path, p2: Path, x: Expr, env: Env)
    requires OperandAt(op, e, p1) && OnChain(op, e, p2) && !Is(op, x)
    requires Size(x) <= Size(At(op, e, p1)) && WellFormed(env)
    requires Sharper(Value(At(op, e, p1), env), Value(x, env))
    ensures var (r, c) := AbsorbAt(op, e, p1, p2, x);
            || (c > 0 && Value(r, env) == Value(Absorbing(op), env))
            || (c == 0 && Sharper(Value(e, env), Value(r, env)))
  {
    AbsorbAtSharper(op, e, p1, p2, x, env);
    PutAt(op, e, p1, x);
    PutValue(op, Put(op, e, p1, x), p1, Absorbing(op), env);
  }

  /** Some round of the elimination absorbs an operand of the outermost chain. */
  predicate EliminationAbsorbs(e: Expr)
    decreases Size(e)
  {
    RoundShrinks(e);
    || (IsConnective(e) && Absorbs(OpOf(e), Dups1(OpOf(e), e, [], []).0, [], []))
    || (Round(e).1 > 0 && EliminationAbsorbs(EliminateYn(Round(e).0)))
  }

  /** No round of the elimination counts anything in pass 2. */
  predicate EliminationKeeps(e: Expr)
    decreases Size(e)
  {
    RoundShrinks(e);
    && (IsConnective(e) ==> Dups2(OpOf(e), Dups1(OpOf(e), e, [], []).0, [], []).1 == 0)
    && (Round(e).1 > 0 ==> EliminationKeeps(EliminateYn(Round(e).0)))
  }

  /**
   After an absorption in the outermost chain the result is y or n, so the value survives if and only if it
   was not m.
   */
  lemma {:induction false} EliminateDupsExact(e: Expr, env: Env)
    requires WellFormed(env) && EliminationAbsorbs(e)
    ensures Value(EliminateDups(e), env) != MOD
    ensures Value(EliminateDups(e), env) == Value(e, env) <==> Value(e, env) != MOD
    decreases Size(e)
  {
    RoundShrinks(e);
    EliminateDupsSharper(e, env);
    var next := EliminateYn(Round(e).0);
    EliminateYnSound(Round(e).0, env);
    if IsConnective(e) && Absorbs(OpOf(e), Dups1(OpOf(e), e, [], []).0, [], []) {
      AbsorbsDecides(OpOf(e), Dups1(OpOf(e), e, [], []).0, [], [], env);
      EliminateDupsSharper(next, env);
    } else {
      EliminateDupsExact(next, env);
    }
  }

  /** Without any absorption the value survives everywhere. */
  lemma {:induction false} EliminateDupsKeeps(e: Expr, env: Env)
    requires WellFormed(env) && EliminationKeeps(e)
    ensures Value(EliminateDups(e), env) == Value(e, env)
    decreases Size(e)
  {
    RoundShrinks(e);
    if Round(e).1 > 0 {
      var op := OpOf(e);
      Dups1Sound(op, e, [], [], env);
      Dups2Counts(op, Dups1(op, e, [], []).0, [], []);
      EliminateYnSound(Round(e).0, env);
      EliminateDupsKeeps(EliminateYn(Round(e).0), env);
    }
  }

  /** (n || a) && !a is rewritten to n, although it is m when a is m. */
  lemma EliminateDupsLosesMod(a: Symbol, env: Env)
    requires a.Type() == Tri && WellFormed(env) && env.tri(a) == MOD
    ensures var e := And(Or(Sym(SymNo), Sym(a)), Not(Sym(a)));
            Value(e, env) == MOD && EliminateDups(e) == Sym(SymNo)
  {
    var n, y, s := Sym(SymNo), Sym(SymYes), Sym(a);
    var o := Or(n, s);
    var e := And(o, Not(s));
    assert Value(o, env) == MOD && Value(Not(s), env) == MOD;
    assert Dups1(OpOr, o, [], []) == (o, 0) by { PairQuiet(OpOr, o); }
    assert Dups1(OpAnd, e, [], []) == (e, 0) by { PairQuiet(OpAnd, e); }
    assert Dups2(OpOr, o, [], []) == (o, 0) by { PairQuiet2(OpOr, o); }
    assert Transform(Not(o)) == And(y, Not(s)) by {
      assert Transform(Not(n)) == y && Transform(Not(s)) == Not(s);
      assert Transform(o) == o;
    }
    assert ExtractEq(OpAnd, And(y, Not(s)), Not(s)) == (y, y) by {
      assert !ExprEq(y, Not(s)) && ExprEq(Not(s), Not(s));
      assert Extract(OpAnd, y, Not(s)) == (y, Not(s), false);
      assert Extract(OpAnd, Not(s), Not(s)) == (y, y, true);
    }
    assert Dups2(OpAnd, e, [], []).0 == And(n, Not(s)) && Dups2(OpAnd, e, [], []).1 > 0 by {
      ContradictedPair(e, o, Not(s));
    }
    assert EliminateYn(And(n, Not(s))) == n;
    assert Round(n) == (n, 0);
  }

  /** Two operands without a merge rule between them are left alone by pass 1. */
  lemma PairQuiet(op: Op, e: Expr)
    requires Is(op, e) && !Is(op, e.left) && !Is(op, e.right)
    requires IsConnective(e.left) ==> Dups1(OpOf(e.left), e.left, [], []) == (e.left, 0)
    requires IsConnective(e.right) ==> Dups1(OpOf(e.right), e.right, [], []) == (e.right, 0)
    requires Merge(op, e.left, e.right).Null? && Merge(op, e.right, e.left).Null?
    ensures Dups1(op, e, [], []) == (e, 0)
  {
    PathsOfPair(op, e);
    PutAt(op, e, [L], e.left); PutAt(op, e, [R], e.right);
    assert Dups1(op, e, [L], [L]) == (e, 0) && Dups1(op, e, [L], [R]) == (e, 0);
    assert Dups1(op, e, [R], [L]) == (e, 0) && Dups1(op, e, [R], [R]) == (e, 0);
    assert Dups1(op, e, [L], []) == (e, 0) && Dups1(op, e, [R], []) == (e, 0);
  }

  /** Pass 2 only looks at operands that are themselves chains. */
  lemma {:induction false} PlainOperandIgnored(op: Op, e: Expr, p1: Path, p2: Path)
    requires Is(op, e) && OperandAt(op, e, p1) && !IsConnective(At(op, e, p1)) && OnChain(op, e, p2)
    ensures Dups2Inside(op, e, p1, p2) == (e, 0) && Dups2(op, e, p1, p2) == (e, 0)
    decreases ChainSize(op, At(op, e, p2))
  {
    if Is(op, At(op, e, p2)) {
      AtStep(op, e, p2, L);
      AtStep(op, e, p2, R);
      PlainOperandIgnored(op, e, p1, p2 + [L]);
      PlainOperandIgnored(op, e, p1, p2 + [R]);
    }
  }

  lemma PairQuiet2(op: Op, e: Expr)
    requires Is(op, e) && !IsConnective(e.left) && !IsConnective(e.right)
    ensures Dups2(op, e, [], []) == (e, 0)
  {
    PathsOfPair(op, e);
    PlainOperandIgnored(op, e, [L], []);
    PlainOperandIgnored(op, e, [R], []);
  }

  lemma PathsOfPair(op: Op, e: Expr)
    requires Is(op, e)
    ensures OnChain(op, e, [L]) && At(op, e, [L]) == e.left
    ensures OnChain(op, e, [R]) && At(op, e, [R]) == e.right
    ensures [] + [L] == [L] && [] + [R] == [R]
  {
    AtStep(op, e, [], L);
    AtStep(op, e, [], R);
    assert [] + [L] == [L] && [] + [R] == [R];
  }

  lemma ContradictedPair(e: Expr, o: Expr, s: Expr)
    requires e == And(o, s) && o.Or? && !IsConnective(s)
    requires Dups2(OpOr, o, [], []) == (o, 0)
    requires ExtractEq(OpAnd, Transform(Not(o)), s).0 == Sym(SymYes)
    ensures Dups2(OpAnd, e, [], []).0 == And(Sym(SymNo), s) && Dups2(OpAnd, e, [], []).1 > 0
  {
    var r := And(Sym(SymNo), s);
    PathsOfPair(OpAnd, e);
    PathsOfPair(OpAnd, r);
    assert Dups2(OpAnd, e, [L], [L]) == (e, 0);
    assert Dups2(OpAnd, e, [L], [R]) == (r, 1) by {
      PutAt(OpAnd, e, [L], o);
      assert [L][1..] == [];
      assert Put(OpAnd, e, [L], Sym(SymNo)) == r;
      assert AbsorbAt(OpAnd, e, [L], [R], o) == (r, 1);
    }
    PlainOperandIgnored(OpAnd, r, [L], []);
    PlainOperandIgnored(OpAnd, r, [R], []);
    assert Dups2Inside(OpAnd, e, [L], []) == (r, 1);
    assert Dups2(OpAnd, e, [L], []) == (r, 1);
  }
}
