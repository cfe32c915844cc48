/** Transition systems and their runs: every protocol of this project is a `System`. */
module Runs {

  datatype System<!S, !A> = System(enabled: (S, A) -> bool, step: (S, A) -> S)

  /** Every action of acts is enabled when its turn comes. */
  ghost predicate IsRun<S, A>(sys: System<S, A>, s: S, acts: seq<A>)
    decreases acts
  {
    acts == [] || (sys.enabled(s, acts[0]) && IsRun(sys, sys.step(s, acts[0]), acts[1..]))
  }

  ghost function After<S, A>(sys: System<S, A>, s: S, acts: seq<A>): S
    decreases acts
  {
    if acts == [] then s else After(sys, sys.step(s, acts[0]), acts[1..])
  }

  /** What every step keeps holds after every run. */
  lemma {:induction false} Invariant<S(!new), A(!new)>(sys: System<S, A>, inv: S -> bool, s: S, acts: seq<A>)
    requires forall s, a :: inv(s) && sys.enabled(s, a) ==> inv(sys.step(s, a))
    requires inv(s) && IsRun(sys, s, acts)
    ensures inv(After(sys, s, acts))
    decreases acts
  {
    if acts != [] { Invariant(sys, inv, sys.step(s, acts[0]), acts[1..]); }
  }

  lemma {:induction false} Append<S, A>(sys: System<S, A>, s: S, acts: seq<A>, more: seq<A>)
    requires IsRun(sys, s, acts) && IsRun(sys, After(sys, s, acts), more)
    ensures IsRun(sys, s, acts + more) && After(sys, s, acts + more) == After(sys, After(sys, s, acts), more)
    decreases acts
  {
    if acts == [] {
      assert acts + more == more;
    } else {
      Append(sys, sys.step(s, acts[0]), acts[1..], more);
      assert (acts + more)[1..] == acts[1..] + more;
    }
  }

  lemma One<S, A>(sys: System<S, A>, s: S, a: A)
    requires sys.enabled(s, a)
    ensures IsRun(sys, s, [a]) && After(sys, s, [a]) == sys.step(s, a)
  {
    assert [a][1..] == [];
  }
}
