/**
 What `expr_eliminate_dups` of common/kconfig/expr.c leaves, told on the formula it returns: no chain of it has two
 equal operands, two operands that a documented rule would join, or an operand that its other operands contradict.
 */
module KconfigIrredundant {
  import opened KconfigExpr
  import opened KconfigEq
  import opened KconfigKeys
  import opened KconfigTransform
  import opened KconfigMerge
  import opened KconfigChain
  import opened KconfigDups

  /** The negation of the operand x, brought to the inside, is made of operands of the chain e. */
  ghost predicate Contradicted(op: Op, x: Expr, e: Expr) {
    var no := Transform(Not(x));
    Clean(no) && Clean(e) && !IsYesNo(no) && !IsYesNo(e) && Within(true, Keys(op, e), Keys(op, no))
  }

  /** The operands x and y at two places of a chain belong together. */
  predicate Joinable(op: Op, x: Expr, y: Expr) {
    ExprEq(x, y) || Redundant(op, x, y)
  }

  /** Neither e nor, outside a negation, a chain below it could be made shorter. */
  ghost predicate Irredundant(e: Expr)
    decreases Size(e)
  {
    IsConnective(e) ==>
      var op := OpOf(e);
      && (forall p: Path, q: Path :: OperandAt(op, e, p) && OperandAt(op, e, q) && p != q ==>
            !Joinable(op, At(op, e, p), At(op, e, q)))
      && (forall p: Path :: OperandAt(op, e, p) ==>
            && (IsConnective(At(op, e, p)) ==> !Contradicted(op, At(op, e, p), e))
            && (OperandSmaller(op, e, p); Irredundant(At(op, e, p))))
  }

  lemma OperandSmaller(op: Op, e: Expr, p: Path)
    requires OperandAt(op, e, p) && Is(op, e)
    ensures Size(At(op, e, p)) < Size(e)
  {
    AtSmaller(op, e, p);
  }

  /** A quiet pass 2 found nothing to absorb at any pair of locations. */
  lemma {:induction false} Dups2Complete(op: Op, e: Expr, p1: Path, p2: Path, q1: Path)
    requires Is(op, e) && OnChain(op, e, p1) && OnChain(op, e, p2)
    requires Dups2(op, e, p1, p2).1 == 0
    requires OperandAt(op, e, q1) && p1 <= q1 && q1 != p2 && IsConnective(At(op, e, q1))
    ensures ExtractEq(op, Transform(Not(At(op, e, q1))), At(op, e, p2)).0 != Neutral(op)
    ensures Dups2(OpOf(At(op, e, q1)), At(op, e, q1), [], []).1 == 0
    decreases ChainSize(op, At(op, e, p1))
  {
    var e1 := At(op, e, p1);
    if Is(op, e1) {
      AtStep(op, e, p1, L);
      AtStep(op, e, p1, R);
      Dups2Counts(op, e, p1 + [L], p2);
      assert p1 != q1;
      assert q1[..|p1| + 1] == p1 + [q1[|p1|]];
      if q1[|p1|] == L { Dups2Complete(op, e, p1 + [L], p2, q1); }
      else { Dups2Complete(op, e, p1 + [R], p2, q1); }
    } else {
      OperandIsEnd(op, e, p1, q1);
      Dups2InsideCounts(op, e, p1, p2);
      AtSmaller(op, e, p1);
      Dups2Counts(OpOf(e1), e1, [], []);
      PutAt(op, e, p1, e1);
    }
  }

  lemma {:induction false} QuietIsIrredundant(e: Expr)
    requires Unmergeable(e)
    requires IsConnective(e) ==> Dups2(OpOf(e), e, [], []).1 == 0
    ensures Irredundant(e)
    decreases Size(e)
  {
    if IsConnective(e) {
      var op := OpOf(e);
      forall p: Path, q: Path | OperandAt(op, e, p) && OperandAt(op, e, q) && p != q
        ensures !Joinable(op, At(op, e, p), At(op, e, q))
      {
        MergeExact(op, At(op, e, p), At(op, e, q));
      }
      forall p: Path | OperandAt(op, e, p)
        ensures Size(At(op, e, p)) < Size(e) && Irredundant(At(op, e, p))
        ensures IsConnective(At(op, e, p)) ==> !Contradicted(op, At(op, e, p), e)
      {
        var x := At(op, e, p);
        OperandSmaller(op, e, p);
        var q := OtherOperand(op, e, p);
        assert Unmergeable(x);
        if IsConnective(x) {
          Dups2Complete(op, e, [], [], p);
          if Contradicted(op, x, e) { ExtractExact(op, Transform(Not(x)), e); }
        }
        QuietIsIrredundant(x);
      }
    }
  }

  /** A chain has at least two operands. */
  lemma OtherOperand(op: Op, e: Expr, p: Path) returns (q: Path)
    requires Is(op, e) && OperandAt(op, e, p)
    ensures OperandAt(op, e, q) && q != p
  {
    var d := if p[0] == L then R else L;
    var r := FirstOperand(op, Child(e, d));
    q := [d] + r;
    assert q[1..] == r;
  }

  lemma {:induction false} FirstOperand(op: Op, e: Expr) returns (q: Path)
    ensures OperandAt(op, e, q)
  {
    q := [];
    if Is(op, e) {
      var r := FirstOperand(op, e.left);
      q := [L] + r;
      assert q[1..] == r;
    }
  }

  /** The result of `expr_eliminate_dups` is irredundant, whatever formula it is given. */
  lemma {:induction false} EliminateDupsIrredundant(e: Expr)
    ensures Irredundant(EliminateDups(e))
    decreases Size(e)
  {
    RoundShrinks(e);
    if Round(e).1 > 0 {
      EliminateDupsIrredundant(EliminateYn(Round(e).0));
    } else {
      QuietIsUnmergeable(e);
      if IsConnective(e) { Dups1Counts(OpOf(e), e, [], []); }
      QuietIsIrredundant(e);
    }
  }

  /** Of two operands with the same key one is gone, unless the key is irregular. */
  lemma NoKeyTwice(e: Expr, op: Op, p: Path, q: Path)
    requires var r := EliminateDups(e);
             Is(op, r) && OperandAt(op, r, p) && OperandAt(op, r, q) && p != q
             && Clean(At(op, r, p)) && Clean(At(op, r, q))
    ensures var r := EliminateDups(e);
            KeyOf(At(op, r, p)) == KeyOf(At(op, r, q)) ==> KeyOf(At(op, r, p)).Irregular?
  {
    EliminateDupsIrredundant(e);
    KeysDiffer(EliminateDups(e), op, p, q);
  }

  lemma KeysDiffer(r: Expr, op: Op, p: Path, q: Path)
    requires Irredundant(r) && Is(op, r) && OperandAt(op, r, p) && OperandAt(op, r, q) && p != q
    requires Clean(At(op, r, p)) && Clean(At(op, r, q))
    ensures KeyOf(At(op, r, p)) == KeyOf(At(op, r, q)) ==> KeyOf(At(op, r, p)).Irregular?
  {
    assert OpOf(r) == op;
    assert !Joinable(op, At(op, r, p), At(op, r, q));
    ExprEqExact(At(op, r, p), At(op, r, q));
  }
}
