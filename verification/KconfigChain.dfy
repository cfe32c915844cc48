/**
 Locations inside a chain of one connective. The C code rewrites operands through `struct expr **`
 pointers, often two pointers into the same tree; a pointer into an owned tree is the path that
 leads to it from the root of the chain.
 */
module KconfigChain {
  import opened KconfigExpr

  datatype Dir = L | R
  type Path = seq<Dir>

  function Child(e: Expr, d: Dir): Expr
    requires IsConnective(e)
  {
    if d == L then e.left else e.right
  }

  /** Every node above the end of p is an `op` node. */
  predicate OnChain(op: Op, e: Expr, p: Path) {
    p == [] || (Is(op, e) && OnChain(op, Child(e, p[0]), p[1..]))
  }

  function At(op: Op, e: Expr, p: Path): Expr
    requires OnChain(op, e, p)
  {
    if p == [] then e else At(op, Child(e, p[0]), p[1..])
  }

  function Put(op: Op, e: Expr, p: Path, x: Expr): Expr
    requires OnChain(op, e, p)
  {
    if p == [] then x
    else if p[0] == L then Join(op, Put(op, e.left, p[1..], x), e.right)
    else Join(op, e.left, Put(op, e.right, p[1..], x))
  }

  /** The location holds an operand of the chain, not an inner `op` node. */
  predicate OperandAt(op: Op, e: Expr, p: Path) {
    OnChain(op, e, p) && !Is(op, At(op, e, p))
  }

  /** Number of `op` nodes of the chain. */
  function ChainSize(op: Op, e: Expr): nat {
    if Is(op, e) then 1 + ChainSize(op, e.left) + ChainSize(op, e.right) else 0
  }

  /** Same chain of `op` nodes, possibly other operands. */
  predicate SameChain(op: Op, e: Expr, f: Expr) {
    if Is(op, e) then Is(op, f) && SameChain(op, e.left, f.left) && SameChain(op, e.right, f.right)
    else !Is(op, f)
  }

  lemma {:induction false} SameChainRefl(op: Op, e: Expr)
    ensures SameChain(op, e, e)
  {
    if Is(op, e) { SameChainRefl(op, e.left); SameChainRefl(op, e.right); }
  }

  lemma {:induction false} SameChainTrans(op: Op, e: Expr, f: Expr, g: Expr)
    requires SameChain(op, e, f) && SameChain(op, f, g)
    ensures SameChain(op, e, g)
  {
    if Is(op, e) { SameChainTrans(op, e.left, f.left, g.left); SameChainTrans(op, e.right, f.right, g.right); }
  }

  /** A location of e is a location of every tree with the same chain. */
  lemma {:induction false} SameChainAt(op: Op, e: Expr, f: Expr, p: Path)
    requires SameChain(op, e, f) && OnChain(op, e, p)
    ensures OnChain(op, f, p) && SameChain(op, At(op, e, p), At(op, f, p))
    ensures Is(op, At(op, e, p)) <==> Is(op, At(op, f, p))
    ensures ChainSize(op, At(op, e, p)) == ChainSize(op, At(op, f, p))
  {
    if p != [] { SameChainAt(op, Child(e, p[0]), Child(f, p[0]), p[1..]); }
    else { SameChainSize(op, e, f); }
  }

  lemma {:induction false} SameChainSize(op: Op, e: Expr, f: Expr)
    requires SameChain(op, e, f)
    ensures ChainSize(op, e) == ChainSize(op, f)
  {
    if Is(op, e) { SameChainSize(op, e.left, f.left); SameChainSize(op, e.right, f.right); }
  }

  lemma {:induction false} AtStep(op: Op, e: Expr, p: Path, d: Dir)
    requires OnChain(op, e, p) && Is(op, At(op, e, p))
    ensures OnChain(op, e, p + [d])
    ensures At(op, e, p + [d]) == Child(At(op, e, p), d)
  {
    if p != [] {
      AtStep(op, Child(e, p[0]), p[1..], d);
      assert (p + [d])[1..] == p[1..] + [d];
    }
  }

  lemma {:induction false} AtSmaller(op: Op, e: Expr, p: Path)
    requires OnChain(op, e, p)
    ensures Size(At(op, e, p)) <= Size(e)
    ensures p != [] ==> Size(At(op, e, p)) < Size(e)
  {
    if p != [] { AtSmaller(op, Child(e, p[0]), p[1..]); }
  }

  lemma {:induction false} PutAt(op: Op, e: Expr, p: Path, x: Expr)
    requires OnChain(op, e, p)
    ensures OnChain(op, Put(op, e, p, x), p) && At(op, Put(op, e, p, x), p) == x
    ensures Size(Put(op, e, p, x)) == Size(e) - Size(At(op, e, p)) + Size(x)
    ensures x == At(op, e, p) ==> Put(op, e, p, x) == e
    ensures OperandAt(op, e, p) && !Is(op, x) ==> SameChain(op, e, Put(op, e, p, x))
  {
    if p != [] {
      PutAt(op, Child(e, p[0]), p[1..], x);
      SameChainRefl(op, e.left);
      SameChainRefl(op, e.right);
    }
  }

  lemma {:induction false} PutElsewhere(op: Op, e: Expr, p: Path, x: Expr, q: Path)
    requires OperandAt(op, e, p) && OperandAt(op, e, q) && p != q
    ensures OnChain(op, Put(op, e, p, x), q) && At(op, Put(op, e, p, x), q) == At(op, e, q)
  {
    if p != [] && q != [] && p[0] == q[0] {
      assert p[1..] != q[1..] by { assert p == [p[0]] + p[1..] && q == [q[0]] + q[1..]; }
      PutElsewhere(op, Child(e, p[0]), p[1..], x, q[1..]);
    }
  }

  // ---- values ----

  /** What the other operands of the chain contribute. */
  function Rest(op: Op, e: Expr, p: Path, env: Env): Tristate
    requires OnChain(op, e, p)
  {
    if p == [] then (if op == OpOr then NO else YES)
    else Combine(op, Rest(op, Child(e, p[0]), p[1..], env), Value(Child(e, if p[0] == L then R else L), env))
  }

  lemma {:induction false} PutValue(op: Op, e: Expr, p: Path, x: Expr, env: Env)
    requires OnChain(op, e, p)
    ensures Value(Put(op, e, p, x), env) == Combine(op, Value(x, env), Rest(op, e, p, env))
  {
    if p != [] { PutValue(op, Child(e, p[0]), p[1..], x, env); }
  }

  lemma AtValue(op: Op, e: Expr, p: Path, env: Env)
    requires OnChain(op, e, p)
    ensures Value(e, env) == Combine(op, Value(At(op, e, p), env), Rest(op, e, p, env))
  {
    PutValue(op, e, p, At(op, e, p), env);
    PutAt(op, e, p, At(op, e, p));
  }

  lemma CombineSwap(op: Op, a: Tristate, b: Tristate, c: Tristate, d: Tristate)
    ensures Combine(op, Combine(op, a, b), Combine(op, c, d)) == Combine(op, Combine(op, a, c), Combine(op, b, d))
  {
  }

  /** Two operands may be replaced by any two with the same combined value. */
  lemma {:induction false} PutPairValue(op: Op, e: Expr, p: Path, x: Expr, q: Path, y: Expr, env: Env)
    requires OperandAt(op, e, p) && OperandAt(op, e, q) && p != q
    requires OnChain(op, Put(op, e, p, x), q)
    requires Combine(op, Value(x, env), Value(y, env))
             == Combine(op, Value(At(op, e, p), env), Value(At(op, e, q), env))
    ensures Value(Put(op, Put(op, e, p, x), q, y), env) == Value(e, env)
  {
    var c, d := Child(e, p[0]), Child(e, q[0]);
    if p[0] == q[0] {
      assert p[1..] != q[1..] by { assert p == [p[0]] + p[1..] && q == [q[0]] + q[1..]; }
      PutPairValue(op, c, p[1..], x, q[1..], y, env);
    } else {
      PutPairSplit(op, e, p, x, q, y, env);
    }
  }

  lemma PutPairSplit(op: Op, e: Expr, p: Path, x: Expr, q: Path, y: Expr, env: Env)
    requires p != [] && q != [] && p[0] != q[0]
    requires OnChain(op, e, p) && OnChain(op, e, q)
    requires OnChain(op, Put(op, e, p, x), q)
    requires Combine(op, Value(x, env), Value(y, env))
             == Combine(op, Value(At(op, e, p), env), Value(At(op, e, q), env))
    ensures Value(Put(op, Put(op, e, p, x), q, y), env) == Value(e, env)
  {
    var c, d := Child(e, p[0]), Child(e, q[0]);
    var c', d' := Put(op, c, p[1..], x), Put(op, d, q[1..], y);
    var r, t := Rest(op, c, p[1..], env), Rest(op, d, q[1..], env);
    calc {
      Value(Put(op, Put(op, e, p, x), q, y), env);
      { assert Put(op, Put(op, e, p, x), q, y) == if p[0] == L then Join(op, c', d') else Join(op, d', c'); }
      Combine(op, Value(c', env), Value(d', env));
      { PutValue(op, c, p[1..], x, env); PutValue(op, d, q[1..], y, env); }
      Combine(op, Combine(op, Value(x, env), r), Combine(op, Value(y, env), t));
      { CombineSwap(op, Value(x, env), r, Value(y, env), t); }
      Combine(op, Combine(op, Value(x, env), Value(y, env)), Combine(op, r, t));
      Combine(op, Combine(op, Value(At(op, e, p), env), Value(At(op, e, q), env)), Combine(op, r, t));
      { CombineSwap(op, Value(At(op, c, p[1..]), env), r, Value(At(op, d, q[1..]), env), t); }
      Combine(op, Combine(op, Value(At(op, c, p[1..]), env), r), Combine(op, Value(At(op, d, q[1..]), env), t));
      { AtValue(op, c, p[1..], env); AtValue(op, d, q[1..], env); }
      Combine(op, Value(c, env), Value(d, env));
      Value(e, env);
    }
  }

  // ---- literals still to be folded ----

  lemma {:induction false} LiteralNotFolded(op: Op, e: Expr, p: Path)
    requires OnChain(op, e, p) && p != []
    requires IsYesNo(At(op, e, p))
    ensures !Folded(e)
  {
    if |p| > 1 { LiteralNotFolded(op, Child(e, p[0]), p[1..]); }
    else { assert At(op, e, p) == Child(e, p[0]); }
  }

  lemma {:induction false} PutNotFolded(op: Op, e: Expr, p: Path, x: Expr)
    requires OnChain(op, e, p)
    requires !Folded(x) || (!Folded(e) && IsConnective(At(op, e, p)) && Folded(At(op, e, p)))
    ensures !Folded(Put(op, e, p, x))
  {
    if p != [] && (!Folded(x) || !Folded(Child(e, p[0]))) { PutNotFolded(op, Child(e, p[0]), p[1..], x); }
    else if p != [] {
      var c := Child(e, p[0]);
      assert !IsYesNo(c) by { if |p| > 1 { assert Is(op, c); } }
    }
  }
}
