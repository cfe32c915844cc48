/**
 The cooperative scheduler of messaging/threading.cpp on values. Threads and contexts come from two
 pools of the same size; a thread owns at most one context; one thread is current. A context is only
 a token: what is on its stack is not modelled.
 */
module Threads {
  import opened Options
  import opened Runs

  const POOL_SIZE: nat := 128

  /** A slot of the thread pool: free, or a thread with its context, if it has one. */
  datatype Slot = Dead | Alive(context: Option<nat>)

  /** `conds` are the waiting lists of the condition variables. */
  datatype Sched = Sched(threadFree: seq<nat>, contextFree: seq<nat>, slots: seq<Slot>,
                         current: Option<nat>, ready: seq<nat>, conds: seq<seq<nat>>)

  /** `error` ends the process; an assertion may fail. */
  datatype Outcome = Ok(s: Sched) | Error | AssertFails

  // ---- the operations ----

  predicate HasContext(s: Sched, t: nat) {
    t < |s.slots| && s.slots[t].Alive? && s.slots[t].context.Some?
  }

  function SetContext(s: Sched, t: nat, c: Option<nat>): Sched
    requires t < |s.slots|
  {
    s.(slots := s.slots[t := Alive(c)])
  }

  /** `threadCreate`: the thread on top of the free list, without a context. */
  function Create(s: Sched): (Outcome, nat) {
    if s.threadFree == [] then (Error, 0)
    else
      var n := |s.threadFree| - 1;
      var t := s.threadFree[n];
      if t < |s.slots| then (Ok(SetContext(s.(threadFree := s.threadFree[..n]), t, None)), t) else (AssertFails, 0)
  }

  /** `_threadDestroy` */
  function Destroy(s: Sched, t: nat): Sched
    requires t < |s.slots|
  {
    s.(slots := s.slots[t := Dead], threadFree := s.threadFree + [t],
       contextFree := if HasContext(s, t) then s.contextFree + [s.slots[t].context.value] else s.contextFree)
  }

  /** `_threadMakeContext`, with its two assertions. */
  function MakeContext(s: Sched, t: nat): Outcome
    requires t < |s.slots|
  {
    if HasContext(s, t) then (if |s.contextFree| >= |s.threadFree| then Ok(s) else AssertFails)
    else if s.contextFree == [] then AssertFails
    else
      var n := |s.contextFree| - 1;
      if n < |s.threadFree| then AssertFails
      else Ok(SetContext(s.(contextFree := s.contextFree[..n]), t, Some(s.contextFree[n])))
  }

  function EnsureContext(s: Sched, t: nat): Outcome
    requires t < |s.slots|
  {
    if HasContext(s, t) then Ok(s) else MakeContext(s, t)
  }

  /** `threadSwap` */
  function Swap(s: Sched, t: nat): Outcome {
    if s.current.None? || !HasContext(s, s.current.value) || t >= |s.slots| then AssertFails
    else
      match EnsureContext(s, t)
      case Ok(s1) => Ok(s1.(current := Some(t)))
      case e => e
  }

  /** `threadSwitch`: the current thread ends. */
  function Switch(s: Sched, t: nat): Outcome {
    if t >= |s.slots| || (s.current.Some? && s.current.value >= |s.slots|) then AssertFails
    else if s.current == Some(t) then Ok(s)
    else
      var s0 := if s.current.Some? then Destroy(s, s.current.value) else s;
      match EnsureContext(s0, t)
      case Ok(s1) => Ok(s1.(current := Some(t)))
      case e => e
  }

  /** `threadSchedule` */
  function Schedule(s: Sched, t: nat): Outcome {
    if |s.ready| == POOL_SIZE then Error else Ok(s.(ready := s.ready + [t]))
  }

  /** `_threadGetRunnable` */
  function GetRunnable(s: Sched): (Outcome, nat) {
    if s.ready != [] then (Ok(s.(ready := s.ready[1..])), s.ready[0]) else Create(s)
  }

  /** The current thread hands its context to `next`, which has none, and ends. */
  function HandOver(s: Sched, next: nat): Outcome {
    if s.current.None? || !HasContext(s, s.current.value) || next >= |s.slots| || s.current == Some(next)
        then AssertFails
    else
      var c := s.slots[s.current.value].context;
      var s1 := SetContext(SetContext(s, next, c), s.current.value, None);
      Ok(Destroy(s1, s.current.value).(current := Some(next)))
  }

  /** The loop of `_threadMain` up to where it leaves for another thread. */
  function MainLoop(s: Sched, next: Option<nat>): Outcome {
    if s.current.None? || !HasContext(s, s.current.value) then AssertFails
    else
      var (r, n) := if next.Some? then (Ok(s), next.value) else GetRunnable(s);
      match r
      case Ok(s1) => if HasContext(s1, n) then Switch(s1, n) else HandOver(s1, n)
      case e => e
  }

  /** A new thread runs `_threadMain` with `next` as its argument. */
  function EnterMain(s: Sched, next: Option<nat>): Outcome {
    var (r, m) := Create(s);
    match r
    case Ok(s1) =>
      (match Swap(s1, m)
       case Ok(s2) => MainLoop(s2, next)
       case e => e)
    case e => e
  }

  /** The first ready thread runs, through `_threadMain` if it has no context yet. */
  function SwapToReady(s: Sched): Outcome
    requires s.ready != []
  {
    var n, s1 := s.ready[0], s.(ready := s.ready[1..]);
    if HasContext(s1, n) then Swap(s1, n) else EnterMain(s1, Some(n))
  }

  /** `threadYield` */
  function Yield(s: Sched, runnable: bool): Outcome {
    if s.current.None? then AssertFails
    else if runnable && s.ready == [] then Ok(s)
    else
      match (if runnable then Schedule(s, s.current.value) else Ok(s))
      case Ok(s1) =>
        if s1.ready == [] then EnterMain(s1, None) else SwapToReady(s1)
      case e => e
  }

  /** `condWait`: a list that is full drops the thread silently. */
  function CondWait(s: Sched, cv: nat): Outcome {
    if s.current.None? || cv >= |s.conds| then AssertFails
    else
      var list := s.conds[cv];
      Yield(s.(conds := s.conds[cv := if |list| == POOL_SIZE then list else list + [s.current.value]]), false)
  }

  /** `condNotify` */
  function CondNotify(s: Sched, cv: nat): Outcome {
    if cv >= |s.conds| then AssertFails
    else if s.conds[cv] == [] then Ok(s)
    else
      match Schedule(s, s.conds[cv][0])
      case Ok(s1) => Ok(s1.(conds := s1.conds[cv := s1.conds[cv][1..]]))
      case e => e
  }

  /** `threadingStart` */
  function Start(s: Sched): Outcome {
    var (r, m) := Create(s);
    match r
    case Ok(s1) =>
      (match Switch(s1.(current := None), m)
       case Ok(s2) => MainLoop(s2, None)
       case e => e)
    case e => e
  }

  /** `threadingStop` */
  function Stop(s: Sched): Outcome {
    if s.current.None? || s.current.value >= |s.slots| then AssertFails
    else if |s.ready| + 1 > 1 then Error
    else Ok(Destroy(s, s.current.value).(current := None))
  }

  // ---- runs ----

  datatype Action =
    | DoCreate
    | DoSchedule(t: nat)
    | DoYield(runnable: bool)
    | DoSwap(t: nat)
    | DoSwitch(t: nat)
    | DoReturn
    | DoWait(cv: nat)
    | DoNotify(cv: nat)
    | DoStart
    | DoStop

  /** What the running thread does next. `DoReturn`: its target returns to the loop of `_threadMain`. */
  function Do(s: Sched, a: Action): Outcome {
    match a
    case DoCreate => Create(s).0
    case DoSchedule(t) => Schedule(s, t)
    case DoYield(runnable) => Yield(s, runnable)
    case DoSwap(t) => Swap(s, t)
    case DoSwitch(t) => Switch(s, t)
    case DoReturn => MainLoop(s, None)
    case DoWait(cv) => CondWait(s, cv)
    case DoNotify(cv) => CondNotify(s, cv)
    case DoStart => Start(s)
    case DoStop => Stop(s)
  }

  /** Alive, but neither running nor in any list. */
  predicate Idle(s: Sched, t: nat) {
    && t < |s.slots| && s.slots[t].Alive? && s.current != Some(t) && t !in s.ready
    && forall cv :: 0 <= cv < |s.conds| ==> t !in s.conds[cv]
  }

  /**
   Only idle threads are scheduled or switched to. Creating, scheduling, notifying and switching are
   open to everyone, also before threading has started; yielding, swapping, waiting, returning and
   stopping are what a running thread does.
   */
  predicate Disciplined(s: Sched, a: Action) {
    match a
    case DoCreate => true
    case DoSchedule(t) => Idle(s, t)
    case DoNotify(cv) => cv < |s.conds|
    case DoSwitch(t) => s.current == Some(t) || Idle(s, t)
    case DoStart => true
    case DoSwap(t) => s.current.Some? && Idle(s, t)
    case DoWait(cv) => s.current.Some? && cv < |s.conds|
    case DoYield(_) => s.current.Some?
    case DoReturn => s.current.Some?
    case DoStop => s.current.Some?
  }

  predicate Enabled(s: Sched, a: Action) {
    Disciplined(s, a) && Do(s, a) != Error
  }

  function Step(s: Sched, a: Action): Sched {
    match Do(s, a)
    case Ok(t) => t
    case _ => s
  }

  function Scheduler(): System<Sched, Action> {
    System((s, a) => Enabled(s, a), (s, a) => Step(s, a))
  }

  function Init(conds: nat): Sched {
    Sched(seq(POOL_SIZE, i requires 0 <= i < POOL_SIZE => i), seq(POOL_SIZE, i requires 0 <= i < POOL_SIZE => i),
          seq(POOL_SIZE, i => Dead), None, [], seq(conds, i => []))
  }
}
