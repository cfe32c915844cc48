/**
 The classes behind the scheduler with their arrays and fields: `Pool` of common/include/pool.hpp, the
 circular `ThreadList` of messaging/include/threading.h and the state of messaging/threading.cpp.
 */
module ThreadCode {
  import opened Options
  import opened Threads
  import opened ThreadOwnership

  /** Elements are numbered; the free list is a stack of numbers. */
  class Pool {
    const freeList: array<nat>
    var nfree: nat

    ghost predicate Valid()
      reads this
    {
      nfree <= freeList.Length
    }

    ghost function View(): seq<nat>
      requires Valid()
      reads this, freeList
    {
      freeList[..nfree]
    }

    constructor (n: nat)
      ensures Valid() && fresh(freeList) && freeList.Length == n
      ensures View() == seq(n, i requires 0 <= i < n => i)
    {
      freeList := new nat[n];
      nfree := n;
      new;
      var i := 0;
      while i < n
        invariant 0 <= i <= n && nfree == n == freeList.Length && fresh(freeList)
        invariant forall k :: 0 <= k < i ==> freeList[k] == k
      {
        freeList[i] := i;
        i := i + 1;
      }
    }

    method Allocate() returns (r: Option<nat>)
      requires Valid()
      modifies this
      ensures Valid() && (r.None? <==> old(View()) == [])
      ensures r.None? ==> View() == old(View())
      ensures r.Some? ==> old(View()) == View() + [r.value]
    {
      if nfree == 0 {
        return None;
      }
      nfree := nfree - 1;
      r := Some(freeList[nfree]);
    }

    method Free(x: nat)
      requires Valid() && nfree < freeList.Length
      modifies this, freeList
      ensures Valid() && View() == old(View()) + [x]
    {
      freeList[nfree] := x;
      nfree := nfree + 1;
    }

    method Available() returns (n: nat)
      requires Valid()
      ensures n == |View()|
    {
      n := nfree;
    }
  }

  lemma RingShift(at: nat, k: nat)
    ensures ((at + 1) % POOL_SIZE + k) % POOL_SIZE == (at + (k + 1)) % POOL_SIZE
  {
  }

  /** A queue in a ring of POOL_SIZE slots. */
  class ThreadList {
    const threads: array<nat>
    var at: nat
    var size: nat

    ghost predicate Valid()
      reads this
    {
      threads.Length == POOL_SIZE && at < POOL_SIZE && size <= POOL_SIZE
    }

    ghost function View(): (s: seq<nat>)
      requires Valid()
      reads this, threads
      ensures |s| == size
    {
      seq(size, k requires 0 <= k < size reads this, threads requires Valid() => threads[(at + k) % POOL_SIZE])
    }

    constructor ()
      ensures Valid() && View() == [] && fresh(threads)
    {
      threads := new nat[POOL_SIZE];
      at, size := 0, 0;
    }

    method Push(t: nat) returns (ok: bool)
      requires Valid()
      modifies this, threads
      ensures Valid() && (ok <==> |old(View())| < POOL_SIZE)
      ensures View() == if ok then old(View()) + [t] else old(View())
    {
      if size == POOL_SIZE {
        return false;
      }
      var tail := (at + size) % POOL_SIZE;
      threads[tail] := t;
      size := size + 1;
      ok := true;
    }

    method Pop()
      requires Valid() && View() != []
      modifies this
      ensures Valid() && View() == old(View())[1..]
    {
      ghost var at0, view := at, View();
      at := at + 1;
      at := at % POOL_SIZE;
      size := size - 1;
      forall k | 0 <= k < size ensures View()[k] == view[k + 1] { RingShift(at0, k); }
    }

    method Front() returns (t: nat)
      requires Valid() && View() != []
      ensures t == View()[0]
    {
      t := threads[at];
    }
  }

  ghost function SlotsOf(alive: seq<bool>, contexts: seq<Option<nat>>): seq<Slot>
    requires |alive| == |contexts|
  {
    seq(|alive|, i requires 0 <= i < |alive| => if alive[i] then Alive(contexts[i]) else Dead)
  }

  lemma SlotsUpdate(alive: seq<bool>, contexts: seq<Option<nat>>, t: nat, a: bool, c: Option<nat>)
    requires |alive| == |contexts| && t < |alive|
    ensures SlotsOf(alive[t := a], contexts[t := c]) == SlotsOf(alive, contexts)[t := if a then Alive(c) else Dead]
  {
  }

  /** There is room in the free lists for what a live thread holds. */
  lemma RoomToFree(s: Sched, t: nat)
    requires PoolsOk(s.threadFree, s.contextFree, s.slots) && IsAlive(s.slots, t)
    ensures |s.threadFree| < POOL_SIZE && (HasContext(s, t) ==> |s.contextFree| < POOL_SIZE)
  {
    CountsUpdate(s.slots, t, Dead);
  }

  /** The call returned with the state `now`, or it ended in `error`, as `outcome` says. */
  predicate Reported(ok: bool, now: Sched, outcome: Outcome) {
    outcome == if ok then Ok(now) else Error
  }

  /** The static variables of threading.cpp; `contexts` are the context fields of the threads. */
  class Threading {
    const threadPool: Pool
    const contextPool: Pool
    const ready: ThreadList
    const contexts: array<Option<nat>>
    var current: Option<nat>
    ghost var alive: seq<bool>

    constructor ()
      ensures Valid() && View() == Init(0)
    {
      threadPool := new Pool(POOL_SIZE);
      contextPool := new Pool(POOL_SIZE);
      ready := new ThreadList();
      contexts := new Option<nat>[POOL_SIZE](i => None);
      current, alive := None, seq(POOL_SIZE, i => false);
    }

    ghost predicate Valid()
      reads this, threadPool, contextPool, ready
    {
      && threadPool.Valid() && contextPool.Valid() && ready.Valid() && threadPool != contextPool
      && threadPool.freeList != contextPool.freeList && threadPool.freeList != ready.threads
          && contextPool.freeList != ready.threads
      && |alive| == contexts.Length == threadPool.freeList.Length == contextPool.freeList.Length == POOL_SIZE
    }

    ghost function View(): Sched
      requires Valid()
      reads this, threadPool, threadPool.freeList, contextPool, contextPool.freeList, ready, ready.threads, contexts
    {
      Sched(threadPool.View(), contextPool.View(), SlotsOf(alive, contexts[..]), current, ready.View(), [])
    }

    /** `threadCreate`; without a free thread it ends in `error`, which is reported as `None`. */
    method Create() returns (r: Option<nat>)
      requires Valid() && Threads.Create(View()).0 != AssertFails
      modifies this, threadPool, contexts
      ensures Valid() && current == old(current)
      ensures r.Some? ==> Threads.Create(old(View())) == (Ok(View()), r.value)
      ensures r.None? ==> Threads.Create(old(View())).0 == Error
    {
      r := threadPool.Allocate();
      if r == None {
        return;
      }
      var t := r.value;
      SlotsUpdate(alive, contexts[..], t, true, None);
      contexts[t] := None;
      alive := alive[t := true];
      assert contexts[..] == old(contexts[..])[t := None];
      assert old(View()).threadFree[..|threadPool.View()|] == threadPool.View();
    }

    /** `_threadDestroy` */
    method Destroy(t: nat)
      requires Valid() && PoolsOk(View().threadFree, View().contextFree, View().slots) && t < POOL_SIZE && alive[t]
      modifies this, threadPool, threadPool.freeList, contextPool, contextPool.freeList
      ensures Valid() && View() == Threads.Destroy(old(View()), t)
    {
      RoomToFree(View(), t);
      SlotsUpdate(alive, contexts[..], t, false, contexts[t]);
      if contexts[t].Some? {
        contextPool.Free(contexts[t].value);
      }
      threadPool.Free(t);
      alive := alive[t := false];
      assert contexts[..][t := contexts[t]] == contexts[..];
    }

    /** `_threadMakeContext` */
    method MakeContext(t: nat)
      requires Valid() && t < POOL_SIZE && alive[t] && Threads.MakeContext(View(), t).Ok?
      modifies contextPool, contexts
      ensures Valid() && Ok(View()) == Threads.MakeContext(old(View()), t)
    {
      ghost var before := View();
      var context := contexts[t];
      if contexts[t] == None {
        context := contextPool.Allocate();
        assert before.contextFree[..|contextPool.View()|] == contextPool.View();
      }
      var free := contextPool.Available();
      var freeThreads := threadPool.Available();
      assert free >= freeThreads;
      SlotsUpdate(alive, contexts[..], t, true, context);
      contexts[t] := context;
      assert contexts[..] == old(contexts[..])[t := context];
      assert alive[t := true] == alive;
      assert before.slots[t := before.slots[t]] == before.slots;
    }

    method EnsureContext(t: nat)
      requires Valid() && t < POOL_SIZE && alive[t] && Threads.EnsureContext(View(), t).Ok?
      modifies contextPool, contexts
      ensures Valid() && Ok(View()) == Threads.EnsureContext(old(View()), t)
    {
      if contexts[t] == None {
        MakeContext(t);
      }
    }

    /** `threadSwap` */
    method Swap(t: nat)
      requires Valid() && t < POOL_SIZE && alive[t] && Threads.Swap(View(), t).Ok?
      modifies this, contextPool, contexts
      ensures Valid() && Ok(View()) == Threads.Swap(old(View()), t) && alive == old(alive)
    {
      EnsureContext(t);
      current := Some(t);
    }

    /** `threadSwitch` */
    method Switch(t: nat)
      requires Valid() && Inv(View()) && (current == Some(t) || Spare(View(), t))
      modifies this, threadPool, threadPool.freeList, contextPool, contextPool.freeList, contexts
      ensures Valid() && Ok(View()) == Threads.Switch(old(View()), t)
    {
      SwitchOk(View(), t);
      if current == Some(t) {
        return;
      }
      ghost var s := View();
      EndCurrent(t);
      ghost var mid := View();
      assert Threads.EnsureContext(mid, t).Ok? && Threads.Switch(s, t).Ok?;
      EnsureContext(t);
      assert Ok(View()) == Threads.EnsureContext(mid, t);
      current := Some(t);
    }

    /** The current thread, if there is one, ends; thread t does not. */
    method EndCurrent(t: nat)
      requires Valid() && Inv(View()) && Spare(View(), t)
      modifies this, threadPool, threadPool.freeList, contextPool, contextPool.freeList
      ensures Valid() && t < POOL_SIZE && alive[t] && current == old(current)
      ensures View() == (var s := old(View()); if s.current.Some? then Threads.Destroy(s, s.current.value) else s)
    {
      if current != None {
        Destroy(current.value);
      }
      assert View().slots[t] == old(View()).slots[t];
    }

    /** `threadSchedule`; a full list ends in `error`, which is reported as `false`. */
    method Schedule(t: nat) returns (ok: bool)
      requires Valid()
      modifies ready, ready.threads
      ensures Valid() && Reported(ok, View(), Threads.Schedule(old(View()), t))
    {
      ok := ready.Push(t);
    }

    /** `_threadGetRunnable` */
    method GetRunnable() returns (r: Option<nat>)
      requires Valid() && Threads.GetRunnable(View()).0 != AssertFails
      modifies this, threadPool, contexts, ready
      ensures Valid()
      ensures r.Some? ==> Threads.GetRunnable(old(View())) == (Ok(View()), r.value)
      ensures r.None? ==> Threads.GetRunnable(old(View())).0 == Error
    {
      if ready.size > 0 {
        var t := ready.Front();
        ready.Pop();
        r := Some(t);
      } else {
        r := Create();
      }
    }

    /** The part of `_threadMain` that gives the context of the current thread to `next`. */
    method HandOver(next: nat)
      requires Valid() && Inv(View()) && current.Some? && Spare(View(), next) && contexts[next].None?
      modifies this, threadPool, threadPool.freeList, contextPool, contextPool.freeList, contexts
      ensures Valid() && Ok(View()) == Threads.HandOver(old(View()), next)
    {
      HandOverOk(View(), next);
      HandedPools(View(), next);
      var u := current.value;
      SlotsUpdate(alive, contexts[..], next, true, contexts[u]);
      contexts[next] := contexts[u];
      assert contexts[..] == old(contexts[..])[next := contexts[u]] && alive[next := true] == alive;
      SlotsUpdate(alive, contexts[..], u, true, None);
      ghost var mid := contexts[..];
      contexts[u] := None;
      assert contexts[..] == mid[u := None] && alive[u := true] == alive;
      Destroy(u);
      current := Some(next);
    }

    /** One turn of the loop of `_threadMain`. */
    method MainLoop(next: Option<nat>) returns (ok: bool)
      requires Valid() && Inv(View()) && current.Some? && (next.Some? ==> Spare(View(), next.value))
      modifies this, threadPool, threadPool.freeList, contextPool, contextPool.freeList, contexts, ready
      ensures Valid() && Reported(ok, View(), Threads.MainLoop(old(View()), next))
    {
      LoopTarget(View(), next);
      var r := next;
      if next == None {
        r := GetRunnable();
        if r == None {
          return false;
        }
      }
      ok := true;
      var t := r.value;
      if contexts[t] != None {
        Switch(t);
      } else {
        HandOver(t);
      }
    }

    /** Run `_threadMain` in a new thread. */
    method EnterMain(next: Option<nat>) returns (ok: bool)
      requires Valid() && Parked(View()) && current.Some? && HasContext(View(), current.value)
      requires next.Some? ==> Unlisted(View(), next.value)
      modifies this, threadPool, threadPool.freeList, contextPool, contextPool.freeList, contexts, ready
      ensures Valid() && Reported(ok, View(), Threads.EnterMain(old(View()), next))
    {
      CreateOk(View());
      var m := Create();
      if m == None {
        return false;
      }
      SwapOk(View(), m.value);
      Swap(m.value);
      ok := MainLoop(next);
    }

    /** `threadYield` */
    method Yield(runnable: bool) returns (ok: bool)
      requires Valid() && Inv(View()) && current.Some?
      modifies this, threadPool, threadPool.freeList, contextPool, contextPool.freeList, contexts, ready, ready.threads
      ensures Valid() && Reported(ok, View(), Threads.Yield(old(View()), runnable))
    {
      ok := true;
      if runnable {
        if ready.size > 0 {
          ScheduleOk(View(), current.value);
          ok := Schedule(current.value);
        } else {
          return;
        }
      }
      if ready.size > 0 {
        ok := SwapToReady();
      } else {
        ok := EnterMain(None);
      }
    }

    /** The end of `threadYield` when a thread is ready. */
    method SwapToReady() returns (ok: bool)
      requires Valid() && Parked(View()) && current.Some? && HasContext(View(), current.value) && View().ready != []
      modifies this, threadPool, threadPool.freeList, contextPool, contextPool.freeList, contexts, ready
      ensures Valid() && Reported(ok, View(), Threads.SwapToReady(old(View())))
    {
      ok := true;
      PopReady(View());
      var next := ready.Front();
      ready.Pop();
      if contexts[next] == None {
        ok := EnterMain(Some(next));
      } else {
        SwapOk(View(), next);
        Swap(next);
      }
    }

    /** `condWait`: the current thread goes to the end of the list of `cv`, unless that is full. */
    method CondWait(cv: ThreadList) returns (ok: bool)
      requires Valid() && cv.Valid() && cv != ready && cv.threads != ready.threads
      requires cv.threads != threadPool.freeList && cv.threads != contextPool.freeList
      requires Inv(View()) && current.Some?
      modifies this, threadPool, threadPool.freeList, contextPool, contextPool.freeList, contexts, ready, ready.threads,
               cv, cv.threads
      ensures Valid() && cv.Valid()
      ensures cv.View() == if |old(cv.View())| < POOL_SIZE
              then old(cv.View()) + [old(current).value] else old(cv.View())
      ensures Reported(ok, View(), Threads.Yield(old(View()), false))
    {
      var pushed := cv.Push(current.value);
      ok := Yield(false);
    }

    /** `condNotify`: the first thread of the list becomes ready. */
    method CondNotify(cv: ThreadList) returns (ok: bool)
      requires Valid() && cv.Valid() && cv != ready && cv.threads != ready.threads
      requires cv.threads != threadPool.freeList && cv.threads != contextPool.freeList
      modifies ready, ready.threads, cv
      ensures Valid() && cv.Valid()
      ensures old(cv.View()) == [] ==> ok && View() == old(View()) && cv.View() == []
      ensures old(cv.View()) != [] ==>
                && Reported(ok, View(), Threads.Schedule(old(View()), old(cv.View())[0]))
                && (ok ==> cv.View() == old(cv.View())[1..])
    {
      if cv.size == 0 {
        return true;
      }
      var t := cv.Front();
      ok := Schedule(t);
      if ok {
        cv.Pop();
      }
    }
  }

  /** The thread the loop goes to: it is alive and in no list. */
  lemma LoopTarget(s: Sched, next: Option<nat>)
    requires Inv(s) && s.current.Some? && (next.Some? ==> Spare(s, next.value))
    ensures MainLoop(s, next) != AssertFails
    ensures next.None? ==>
              var (r, t) := GetRunnable(s);
              r == Error || (r.Ok? && Inv(r.s) && r.s.current == s.current && Spare(r.s, t))
  {
    MainLoopOk(s, next);
    if next.None? {
      if s.ready != [] { PopReady(s); } else { CreateOk(s); }
    }
  }

  /** Between handing over a context and ending, the pools are in order. */
  lemma HandedPools(s: Sched, next: nat)
    requires Inv(s) && s.current.Some? && Spare(s, next) && s.slots[next].context.None?
    ensures var u := s.current.value;
            var mid := SetContext(SetContext(s, next, s.slots[u].context), u, None);
            PoolsOk(mid.threadFree, mid.contextFree, mid.slots)
  {
    var u := s.current.value;
    var c := s.slots[u].context.value;
    var one := s.slots[next := Alive(Some(c))];
    var two := one[u := Alive(None)];
    CountsUpdate(s.slots, next, Alive(Some(c)));
    CountsUpdate(one, u, Alive(None));
    forall v: nat ensures FreeAt(two, s.threadFree, v) { assert FreeAt(s.slots, s.threadFree, v); }
    forall v: nat, d: nat ensures OwnedAt(two, s.contextFree, v, d) {
      assert OwnedAt(s.slots, s.contextFree, v, d) && OwnedAt(s.slots, s.contextFree, u, d);
    }
    forall v: nat, w: nat, d: nat ensures SingleAt(two, v, w, d) {
      assert SingleAt(s.slots, v, w, d) && SingleAt(s.slots, v, u, d) && SingleAt(s.slots, u, w, d);
    }
  }
}
