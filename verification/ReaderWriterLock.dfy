/**
 The reader-writer lock of libs/utilities/lock.c, for any number of threads and any interleaving of
 their single steps. Loads and stores of the reader count are separate steps.
 */
module ReaderWriterLock {
  import opened Runs

  /** Where a thread is. A number is the reader count it has just loaded. */
  datatype Pc =
    | Outside
    | ReadSpin | ReadLoad | ReadStore(v: int) | ReadUnlock | Reading       // AcquireRead, TryRead
    | LeaveSpin | LeaveLoad | LeaveStore(v: int) | LeaveUnlock             // ReleaseRead
    | WriteSpin | WriteTest | WriteBackOff                                 // AcquireWrite
    | TryTest | TryBackOff                                                 // TryWrite
    | Writing

  datatype State = State(lock: bool, readers: int, pcs: seq<Pc>)

  /**
   What a thread outside starts, or what one that holds the lock does with it; otherwise the next step of
   its call.
   */
  datatype Action =
    | StartRead(i: nat) | StartTryRead(i: nat) | StartWrite(i: nat) | StartTryWrite(i: nat)
    | StartLeave(i: nat)
    | Go(i: nat)

  predicate At(s: State, i: nat, pc: Pc) {
    i < |s.pcs| && s.pcs[i] == pc
  }

  function Move(s: State, i: nat, pc: Pc): State
    requires i < |s.pcs|
  {
    s.(pcs := s.pcs[i := pc])
  }

  predicate Enabled(s: State, a: Action) {
    match a
    case StartRead(i) => At(s, i, Outside)
    case StartTryRead(i) => At(s, i, Outside)
    case StartWrite(i) => At(s, i, Outside)
    case StartTryWrite(i) => At(s, i, Outside)
    case StartLeave(i) => At(s, i, Reading)
    case Go(i) =>
      && i < |s.pcs| && s.pcs[i] !in {Outside, Reading}
      && (s.pcs[i] in {ReadSpin, LeaveSpin, WriteSpin} ==> !s.lock)
  }

  function Step(s: State, a: Action): State {
    if a.i >= |s.pcs| then s
    else
      match a
      case StartRead(i) => Move(s, i, ReadSpin)
      case StartTryRead(i) => if s.lock then s else Move(s.(lock := true), i, ReadLoad)
      case StartWrite(i) => Move(s, i, WriteSpin)
      case StartTryWrite(i) => if s.lock then s else Move(s.(lock := true), i, TryTest)
      case StartLeave(i) => Move(s, i, LeaveSpin)
      case Go(i) => Advance(s, i)
  }

  /** The next step of the call thread i is in. */
  function Advance(s: State, i: nat): State
    requires i < |s.pcs|
  {
    match s.pcs[i]
    case Outside => s
    case Reading => s
    case ReadSpin => if s.lock then s else Move(s.(lock := true), i, ReadLoad)
    case ReadLoad => Move(s, i, ReadStore(s.readers))
    case ReadStore(v) => Move(s.(readers := v + 1), i, ReadUnlock)
    case ReadUnlock => Move(s.(lock := false), i, Reading)
    case LeaveSpin => if s.lock then s else Move(s.(lock := true), i, LeaveLoad)
    case LeaveLoad => Move(s, i, LeaveStore(s.readers))
    case LeaveStore(v) => Move(s.(readers := v - 1), i, LeaveUnlock)
    case LeaveUnlock => Move(s.(lock := false), i, Outside)
    case WriteSpin => if s.lock then s else Move(s.(lock := true), i, WriteTest)
    case WriteTest => Move(s, i, if s.readers == 0 then Writing else WriteBackOff)
    case WriteBackOff => Move(s.(lock := false), i, WriteSpin)
    case TryTest => Move(s, i, if s.readers == 0 then Writing else TryBackOff)
    case TryBackOff => Move(s.(lock := false), i, Outside)
    case Writing => Move(s.(lock := false), i, Outside)
  }

  function Threads(): System<State, Action> {
    System((s, a) => Enabled(s, a), (s, a) => Step(s, a))
  }

  function Init(n: nat): State {
    State(false, 0, seq(n, i => Outside))
  }

  // ---- counting threads ----

  /** The thread holds the spin lock. */
  function Holds(pc: Pc): nat {
    match pc
    case Outside => 0
    case ReadSpin => 0
    case Reading => 0
    case LeaveSpin => 0
    case WriteSpin => 0
    case _ => 1
  }

  /** The thread is between its increment and its decrement of the reader count. */
  function Inside(pc: Pc): nat {
    match pc
    case ReadUnlock => 1
    case Reading => 1
    case LeaveSpin => 1
    case LeaveLoad => 1
    case LeaveStore(_) => 1
    case _ => 0
  }

  function Total(f: Pc -> nat, pcs: seq<Pc>): nat {
    if pcs == [] then 0 else Total(f, pcs[..|pcs| - 1]) + f(pcs[|pcs| - 1])
  }

  lemma {:induction false} TotalUpdate(f: Pc -> nat, pcs: seq<Pc>, i: nat, pc: Pc)
    requires i < |pcs|
    ensures Total(f, pcs[i := pc]) + f(pcs[i]) == Total(f, pcs) + f(pc)
  {
    var n := |pcs| - 1;
    if i == n {
      assert pcs[i := pc][..n] == pcs[..n];
    } else {
      TotalUpdate(f, pcs[..n], i, pc);
      assert pcs[i := pc][..n] == pcs[..n][i := pc];
    }
  }

  lemma {:induction false} TotalPart(f: Pc -> nat, pcs: seq<Pc>, i: nat)
    requires i < |pcs|
    ensures f(pcs[i]) <= Total(f, pcs)
  {
    if i < |pcs| - 1 {
      TotalPart(f, pcs[..|pcs| - 1], i);
    }
  }

  lemma TotalPair(f: Pc -> nat, pcs: seq<Pc>, i: nat, j: nat)
    requires i < |pcs| && j < |pcs| && i != j && f(Outside) == 0
    ensures f(pcs[i]) + f(pcs[j]) <= Total(f, pcs)
  {
    TotalUpdate(f, pcs, i, Outside);
    TotalPart(f, pcs[i := Outside], j);
  }

  // ---- the invariant ----

  /** What a thread has loaded is still the reader count, and a writer has seen none. */
  predicate KnowsAt(readers: int, pcs: seq<Pc>, i: nat) {
    i < |pcs| ==>
      && (pcs[i].ReadStore? || pcs[i].LeaveStore? ==> pcs[i].v == readers)
      && (pcs[i].Writing? ==> readers == 0)
  }

  /** One thread holds the spin lock if it is taken, and the count is the number of threads inside. */
  ghost predicate Inv(s: State) {
    && Total(Holds, s.pcs) == (if s.lock then 1 else 0)
    && s.readers == Total(Inside, s.pcs)
    && forall i: nat :: KnowsAt(s.readers, s.pcs, i)
  }

  lemma InitInv(n: nat)
    ensures Inv(Init(n))
  {
    NobodyCounts(Holds, Init(n).pcs);
    NobodyCounts(Inside, Init(n).pcs);
  }

  lemma {:induction false} NobodyCounts(f: Pc -> nat, pcs: seq<Pc>)
    requires f(Outside) == 0 && forall i :: 0 <= i < |pcs| ==> pcs[i] == Outside
    ensures Total(f, pcs) == 0
  {
    if pcs != [] {
      NobodyCounts(f, pcs[..|pcs| - 1]);
    }
  }

  lemma MoveInv(s: State, i: nat, lock: bool, readers: int, pc: Pc)
    requires Inv(s) && i < |s.pcs|
    requires (if lock then 1 else 0) - (if s.lock then 1 else 0) == Holds(pc) - Holds(s.pcs[i])
    requires readers - s.readers == Inside(pc) - Inside(s.pcs[i])
    requires (pc.ReadStore? || pc.LeaveStore? ==> pc.v == readers) && (pc.Writing? ==> readers == 0)
    requires readers != s.readers ==> Holds(s.pcs[i]) == 1
    ensures Inv(State(lock, readers, s.pcs[i := pc]))
  {
    TotalUpdate(Holds, s.pcs, i, pc);
    TotalUpdate(Inside, s.pcs, i, pc);
    var pcs := s.pcs[i := pc];
    forall j: nat ensures KnowsAt(readers, pcs, j) {
      assert KnowsAt(s.readers, s.pcs, j);
      if j < |s.pcs| && j != i && readers != s.readers { TotalPair(Holds, s.pcs, i, j); }
    }
  }

  lemma StepInv(s: State, a: Action)
    requires Inv(s) && Enabled(s, a)
    ensures Inv(Step(s, a))
  {
    var t, i := Step(s, a), a.i;
    assert KnowsAt(s.readers, s.pcs, i);
    if t != s {
      TotalPart(Holds, s.pcs, i);
      MoveInv(s, i, t.lock, t.readers, t.pcs[i]);
      assert t == State(t.lock, t.readers, s.pcs[i := t.pcs[i]]);
    }
  }

  /**
   After any run of any number of threads: who writes is alone, neither with another writer nor with
   a reader, and the reader count is the number of threads between increment and decrement.
   */
  lemma Exclusion(n: nat, acts: seq<Action>, i: nat, j: nat)
    requires IsRun(Threads(), Init(n), acts)
    ensures var s := After(Threads(), Init(n), acts);
            && s.readers == Total(Inside, s.pcs)
            && (At(s, i, Writing) && j < |s.pcs| && i != j
                ==> s.pcs[j] != Writing && s.pcs[j] != Reading && Inside(s.pcs[j]) == 0)
  {
    InitInv(n);
    forall s, a | Inv(s) && Enabled(s, a) ensures Inv(Step(s, a)) { StepInv(s, a); }
    Invariant(Threads(), s => Inv(s), Init(n), acts);
    var s := After(Threads(), Init(n), acts);
    if i != j && At(s, i, Writing) && j < |s.pcs| {
      TotalPair(Holds, s.pcs, i, j);
      assert KnowsAt(s.readers, s.pcs, i);
      TotalPart(Inside, s.pcs, j);
    }
  }

  /** Nobody waits for a lock that is free: a thread that spins can go on as soon as the holder has let go. */
  lemma SomebodyCanGo(s: State, i: nat) returns (j: nat)
    requires Inv(s) && i < |s.pcs| && s.pcs[i] !in {Outside, Reading}
    ensures Enabled(s, Go(j))
  {
    j := i;
    if s.lock {
      j := HolderOf(s.pcs);
    }
  }

  lemma {:induction false} HolderOf(pcs: seq<Pc>) returns (j: nat)
    requires Total(Holds, pcs) > 0
    ensures j < |pcs| && Holds(pcs[j]) == 1
  {
    var n := |pcs| - 1;
    if Holds(pcs[n]) == 1 {
      j := n;
    } else {
      j := HolderOf(pcs[..n]);
    }
  }

  // ---- what the calls achieve ----

  /** No thread is between its increment and its decrement of the reader count. */
  ghost predicate NobodyInside(s: State) {
    forall i :: 0 <= i < |s.pcs| ==> Inside(s.pcs[i]) == 0
  }

  lemma CountIsZero(s: State)
    requires Inv(s)
    ensures s.readers == 0 <==> NobodyInside(s)
  {
    if NobodyInside(s) {
      NobodyInTotal(Inside, s.pcs);
    } else {
      var i :| 0 <= i < |s.pcs| && Inside(s.pcs[i]) != 0;
      TotalPart(Inside, s.pcs, i);
    }
  }

  lemma {:induction false} NobodyInTotal(f: Pc -> nat, pcs: seq<Pc>)
    requires forall i :: 0 <= i < |pcs| ==> f(pcs[i]) == 0
    ensures Total(f, pcs) == 0
  {
    if pcs != [] { NobodyInTotal(f, pcs[..|pcs| - 1]); }
  }

  /** The steps lead from s to t. */
  ghost predicate Leads(s: State, acts: seq<Action>, t: State) {
    IsRun(Threads(), s, acts) && After(Threads(), s, acts) == t
  }

  /** n steps of thread i while the others stand still. */
  function Alone(i: nat, n: nat): (acts: seq<Action>)
    ensures |acts| == n
  {
    if n == 0 then [] else [Go(i)] + Alone(i, n - 1)
  }

  lemma First(s: State, a: Action, acts: seq<Action>, t: State)
    requires Enabled(s, a) && Leads(Step(s, a), acts, t)
    ensures Leads(s, [a] + acts, t)
  {
    assert ([a] + acts)[1..] == acts;
  }

  lemma {:induction false} Goes(s: State, i: nat, n: nat, t: State)
    requires if n == 0 then s == t else Enabled(s, Go(i)) && Leads(Advance(s, i), Alone(i, n - 1), t)
    ensures Leads(s, Alone(i, n), t)
  {
    if n > 0 { First(s, Go(i), Alone(i, n - 1), t); }
  }

  /** The last three steps of taking a read lock. */
  lemma EntersAlone(s: State, i: nat)
    requires s.lock && At(s, i, ReadLoad)
    ensures Leads(s, Alone(i, 3), State(false, s.readers + 1, s.pcs[i := Reading]))
  {
    var s1 := Advance(s, i);
    var s2 := Advance(s1, i);
    var s3 := Advance(s2, i);
    assert s3.pcs == s.pcs[i := Reading];
    Goes(s3, i, 0, s3);
    Goes(s2, i, 1, s3);
    Goes(s1, i, 2, s3);
    Goes(s, i, 3, s3);
  }

  /** A read lock is granted whenever the spin lock is free; TryRead fails, changing nothing, only if it is taken. */
  lemma ReadGranted(s: State, i: nat)
    requires At(s, i, Outside)
    ensures var t := State(false, s.readers + 1, s.pcs[i := Reading]);
            && (s.lock ==> Leads(s, [StartTryRead(i)], s))
            && (!s.lock ==> Leads(s, [StartTryRead(i)] + Alone(i, 3), t))
            && (!s.lock ==> Leads(s, [StartRead(i)] + Alone(i, 4), t))
  {
    var t := State(false, s.readers + 1, s.pcs[i := Reading]);
    if s.lock {
      One(Threads(), s, StartTryRead(i));
    } else {
      var s1, s2 := Step(s, StartRead(i)), Step(s, StartTryRead(i));
      EntersAlone(s2, i);
      assert s2.pcs[i := Reading] == s.pcs[i := Reading];
      First(s, StartTryRead(i), Alone(i, 3), t);
      assert Advance(s1, i) == s2;
      Goes(s1, i, 4, t);
      First(s, StartRead(i), Alone(i, 4), t);
    }
  }

  /** A reader leaves. */
  lemma ReadReleased(s: State, i: nat)
    requires At(s, i, Reading) && !s.lock
    ensures Leads(s, [StartLeave(i)] + Alone(i, 4), State(false, s.readers - 1, s.pcs[i := Outside]))
  {
    var s0 := Step(s, StartLeave(i));
    var s1 := Advance(s0, i);
    var s2 := Advance(s1, i);
    var s3 := Advance(s2, i);
    var s4 := Advance(s3, i);
    assert s4.pcs == s.pcs[i := Outside];
    Goes(s4, i, 0, s4);
    Goes(s3, i, 1, s4);
    Goes(s2, i, 2, s4);
    Goes(s1, i, 3, s4);
    Goes(s0, i, 4, s4);
    First(s, StartLeave(i), Alone(i, 4), s4);
  }

  /**
   AcquireWrite with the spin lock free: with nobody inside the thread writes after two steps, and otherwise
   it spins again after three.
   */
  lemma WriteGranted(s: State, i: nat)
    requires Inv(s) && At(s, i, Outside) && !s.lock
    ensures NobodyInside(s) ==> Leads(s, [StartWrite(i)] + Alone(i, 2), State(true, 0, s.pcs[i := Writing]))
    ensures !NobodyInside(s) ==> Leads(s, [StartWrite(i)] + Alone(i, 3), s.(pcs := s.pcs[i := WriteSpin]))
  {
    CountIsZero(s);
    var s0 := Step(s, StartWrite(i));
    var s1 := Advance(s0, i);
    var s2 := Advance(s1, i);
    Goes(s2, i, 0, s2);
    if NobodyInside(s) {
      assert s2.pcs == s.pcs[i := Writing];
      Goes(s1, i, 1, s2);
      Goes(s0, i, 2, s2);
      First(s, StartWrite(i), Alone(i, 2), s2);
    } else {
      var s3 := Advance(s2, i);
      assert s3.pcs == s.pcs[i := WriteSpin];
      Goes(s3, i, 0, s3);
      Goes(s2, i, 1, s3);
      Goes(s1, i, 2, s3);
      Goes(s0, i, 3, s3);
      First(s, StartWrite(i), Alone(i, 3), s3);
    }
  }

  /** TryWrite succeeds exactly with the spin lock free and nobody inside; otherwise it changes nothing. */
  lemma TryWriteGranted(s: State, i: nat)
    requires Inv(s) && At(s, i, Outside)
    ensures s.lock ==> Leads(s, [StartTryWrite(i)], s)
    ensures !s.lock && NobodyInside(s) ==>
              Leads(s, [StartTryWrite(i)] + Alone(i, 1), State(true, 0, s.pcs[i := Writing]))
    ensures !s.lock && !NobodyInside(s) ==> Leads(s, [StartTryWrite(i)] + Alone(i, 2), s)
  {
    CountIsZero(s);
    if s.lock {
      One(Threads(), s, StartTryWrite(i));
    } else {
      var s0 := Step(s, StartTryWrite(i));
      var s1 := Advance(s0, i);
      Goes(s1, i, 0, s1);
      if NobodyInside(s) {
        assert s1.pcs == s.pcs[i := Writing];
        Goes(s0, i, 1, s1);
        First(s, StartTryWrite(i), Alone(i, 1), s1);
      } else {
        assert Advance(s1, i).pcs == s.pcs;
        Goes(s, i, 0, s);
        Goes(s1, i, 1, s);
        Goes(s0, i, 2, s);
        First(s, StartTryWrite(i), Alone(i, 2), s);
      }
    }
  }

  /** The writer leaves in one step. */
  lemma WriteReleased(s: State, i: nat)
    requires At(s, i, Writing)
    ensures Leads(s, Alone(i, 1), State(false, s.readers, s.pcs[i := Outside]))
  {
    var t := Advance(s, i);
    Goes(t, i, 0, t);
    Goes(s, i, 1, t);
  }

  /**
   Whatever the others do, a thread that holds the spin lock keeps it and the reader count stays, so what a
   call decides is decided by the count it found.
   */
  lemma HolderUndisturbed(s: State, i: nat, a: Action)
    requires Inv(s) && i < |s.pcs| && Holds(s.pcs[i]) == 1 && Enabled(s, a) && a.i != i
    ensures var t := Step(s, a); t.lock && t.readers == s.readers && |t.pcs| == |s.pcs| && t.pcs[i] == s.pcs[i]
  {
    TotalPart(Holds, s.pcs, i);
    TotalPair(Holds, s.pcs, i, a.i);
  }
}
