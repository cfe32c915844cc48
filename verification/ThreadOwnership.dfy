/** Who owns what in the scheduler: in every disciplined run no context has two owners and no assertion fails. */
module ThreadOwnership {
  import opened Options
  import opened Threads
  import opened Runs

  // ---- the pools ----

  ghost predicate NoDuplicates(s: seq<nat>) {
    forall i, j :: 0 <= i < j < |s| ==> s[i] != s[j]
  }

  predicate IsAlive(slots: seq<Slot>, t: nat) {
    t < |slots| && slots[t].Alive?
  }

  predicate Owner(slots: seq<Slot>, t: nat, c: nat) {
    t < |slots| && slots[t] == Alive(Some(c))
  }

  function AliveCount(slots: seq<Slot>): nat {
    if slots == [] then 0 else AliveCount(slots[..|slots| - 1]) + if slots[|slots| - 1].Alive? then 1 else 0
  }

  function OwnerCount(slots: seq<Slot>): nat {
    if slots == [] then 0
    else
      OwnerCount(slots[..|slots| - 1])
      + if slots[|slots| - 1].Alive? && slots[|slots| - 1].context.Some? then 1 else 0
  }

  /** A context that is owned is not free. */
  predicate OwnedAt(slots: seq<Slot>, free: seq<nat>, t: nat, c: nat) {
    Owner(slots, t, c) ==> c < POOL_SIZE && c !in free
  }

  /** No context is owned by two threads. */
  predicate SingleAt(slots: seq<Slot>, t: nat, u: nat, c: nat) {
    Owner(slots, t, c) && Owner(slots, u, c) ==> t == u
  }

  ghost predicate FreeAt(slots: seq<Slot>, free: seq<nat>, t: nat) {
    t in free <==> t < |slots| && slots[t].Dead?
  }

  /** The free lists hold no duplicates and exactly what is not in use. */
  ghost predicate PoolsOk(threadFree: seq<nat>, contextFree: seq<nat>, slots: seq<Slot>) {
    && |slots| == POOL_SIZE && NoDuplicates(threadFree) && NoDuplicates(contextFree)
    && (forall t: nat :: FreeAt(slots, threadFree, t))
    && (forall t: nat, c: nat :: OwnedAt(slots, contextFree, t, c))
    && (forall t: nat, u: nat, c: nat :: SingleAt(slots, t, u, c))
    && |threadFree| + AliveCount(slots) == POOL_SIZE
    && |contextFree| + OwnerCount(slots) == POOL_SIZE
    && (forall k :: 0 <= k < |contextFree| ==> contextFree[k] < POOL_SIZE)
  }

  lemma {:induction false} CountsUpdate(slots: seq<Slot>, t: nat, x: Slot)
    requires t < |slots|
    ensures AliveCount(slots[t := x]) + (if slots[t].Alive? then 1 else 0) == AliveCount(slots) + if x.Alive?
            then 1 else 0
    ensures OwnerCount(slots[t := x]) + (if slots[t].Alive? && slots[t].context.Some? then 1 else 0)
         == OwnerCount(slots) + if x.Alive? && x.context.Some? then 1 else 0
  {
    var n := |slots| - 1;
    if t == n {
      assert slots[t := x][..n] == slots[..n];
    } else {
      CountsUpdate(slots[..n], t, x);
      assert slots[t := x][..n] == slots[..n][t := x];
    }
  }

  lemma {:induction false} OwnersAreAlive(slots: seq<Slot>)
    ensures OwnerCount(slots) <= AliveCount(slots)
  {
    if slots != [] {
      OwnersAreAlive(slots[..|slots| - 1]);
    }
  }

  /** There are at least as many free contexts as free threads, and more if some thread has none. */
  lemma EnoughContexts(tf: seq<nat>, cf: seq<nat>, slots: seq<Slot>, t: nat)
    requires PoolsOk(tf, cf, slots)
    ensures |cf| >= |tf|
    ensures IsAlive(slots, t) && slots[t].context.None? ==> |cf| > |tf|
  {
    OwnersAreAlive(slots);
    if IsAlive(slots, t) && slots[t].context.None? {
      CountsUpdate(slots, t, Dead);
      OwnersAreAlive(slots[t := Dead]);
    }
  }

  lemma CreatePools(tf: seq<nat>, cf: seq<nat>, slots: seq<Slot>)
    requires PoolsOk(tf, cf, slots) && tf != []
    ensures var n := |tf| - 1;
            tf[n] < |slots| && slots[tf[n]].Dead? && PoolsOk(tf[..n], cf, slots[tf[n] := Alive(None)])
  {
    var n := |tf| - 1;
    var t := tf[n];
    assert t in tf && FreeAt(slots, tf, t);
    var slots' := slots[t := Alive(None)];
    CountsUpdate(slots, t, Alive(None));
    forall u: nat ensures FreeAt(slots', tf[..n], u) {
      assert FreeAt(slots, tf, u);
      if u in tf[..n] { assert u in tf; }
      if u in tf && u != t { var k :| 0 <= k < |tf| && tf[k] == u; assert tf[..n][k] == u; }
    }
    forall u: nat, c: nat ensures OwnedAt(slots', cf, u, c) { assert OwnedAt(slots, cf, u, c); }
    forall u: nat, v: nat, c: nat ensures SingleAt(slots', u, v, c) { assert SingleAt(slots, u, v, c); }
  }

  lemma DestroyPools(tf: seq<nat>, cf: seq<nat>, slots: seq<Slot>, t: nat)
    requires PoolsOk(tf, cf, slots) && IsAlive(slots, t)
    ensures var cf' := if slots[t].context.Some? then cf + [slots[t].context.value] else cf;
            PoolsOk(tf + [t], cf', slots[t := Dead])
  {
    var slots', c' := slots[t := Dead], slots[t].context;
    var cf' := if c'.Some? then cf + [c'.value] else cf;
    CountsUpdate(slots, t, Dead);
    assert FreeAt(slots, tf, t);
    forall u: nat ensures FreeAt(slots', tf + [t], u) { assert FreeAt(slots, tf, u); }
    if c'.Some? { assert Owner(slots, t, c'.value) && OwnedAt(slots, cf, t, c'.value); }
    forall u: nat, c: nat ensures OwnedAt(slots', cf', u, c) {
      assert OwnedAt(slots, cf, u, c) && SingleAt(slots, t, u, c);
    }
    forall u: nat, v: nat, c: nat ensures SingleAt(slots', u, v, c) { assert SingleAt(slots, u, v, c); }
  }

  /** `_threadMakeContext` on a thread without a context never fails an assertion. */
  lemma MakeContextPools(s: Sched, t: nat)
    requires PoolsOk(s.threadFree, s.contextFree, s.slots) && IsAlive(s.slots, t)
    ensures var r := EnsureContext(s, t);
            && r.Ok? && PoolsOk(r.s.threadFree, r.s.contextFree, r.s.slots) && HasContext(r.s, t)
            && r.s == s.(contextFree := r.s.contextFree, slots := s.slots[t := r.s.slots[t]])
  {
    EnoughContexts(s.threadFree, s.contextFree, s.slots, t);
    if HasContext(s, t) {
      assert s.slots[t := s.slots[t]] == s.slots;
    } else {
      var cf, slots, n := s.contextFree, s.slots, |s.contextFree| - 1;
      var c := cf[n];
      var slots' := slots[t := Alive(Some(c))];
      CountsUpdate(slots, t, Alive(Some(c)));
      forall u: nat ensures FreeAt(slots', s.threadFree, u) { assert FreeAt(slots, s.threadFree, u); }
      assert c in cf;
      forall u: nat, d: nat ensures OwnedAt(slots', cf[..n], u, d) { assert OwnedAt(slots, cf, u, d); }
      forall u: nat, v: nat, d: nat ensures SingleAt(slots', u, v, d) {
        assert SingleAt(slots, u, v, d) && OwnedAt(slots, cf, u, d) && OwnedAt(slots, cf, v, d);
      }
    }
  }

  /** Handing a context over and ending: its new owner is alone with it. */
  lemma HandOverPools(tf: seq<nat>, cf: seq<nat>, slots: seq<Slot>, t: nat, u: nat, c: nat)
    requires PoolsOk(tf, cf, slots) && Owner(slots, t, c) && IsAlive(slots, u) && slots[u].context.None? && t != u
    ensures PoolsOk(tf + [t], cf, slots[u := Alive(Some(c))][t := Dead])
  {
    var mid := slots[u := Alive(Some(c))];
    var slots' := mid[t := Dead];
    CountsUpdate(slots, u, Alive(Some(c)));
    CountsUpdate(mid, t, Dead);
    assert FreeAt(slots, tf, t);
    forall v: nat ensures FreeAt(slots', tf + [t], v) { assert FreeAt(slots, tf, v); }
    forall v: nat, d: nat ensures OwnedAt(slots', cf, v, d) {
      assert OwnedAt(slots, cf, v, d) && OwnedAt(slots, cf, t, d);
    }
    forall v: nat, w: nat, d: nat ensures SingleAt(slots', v, w, d) {
      assert SingleAt(slots, v, w, d) && SingleAt(slots, v, t, d) && SingleAt(slots, t, w, d);
    }
  }

  // ---- the lists ----

  function Count(s: seq<nat>, t: nat): nat {
    multiset(s)[t]
  }

  function Waiting(conds: seq<seq<nat>>, t: nat): nat {
    if conds == [] then 0 else Waiting(conds[..|conds| - 1], t) + Count(conds[|conds| - 1], t)
  }

  /** In how many lists a thread is. */
  function Places(ready: seq<nat>, conds: seq<seq<nat>>, t: nat): nat {
    Count(ready, t) + Waiting(conds, t)
  }

  predicate ListedAt(slots: seq<Slot>, ready: seq<nat>, conds: seq<seq<nat>>, t: nat) {
    Places(ready, conds, t) <= 1 && (Places(ready, conds, t) == 1 ==> IsAlive(slots, t))
  }

  /** Every thread is ready or waiting at most once, and only if it is alive. */
  ghost predicate ListsOk(slots: seq<Slot>, ready: seq<nat>, conds: seq<seq<nat>>) {
    forall t: nat :: ListedAt(slots, ready, conds, t)
  }

  lemma {:induction false} WaitingUpdate(conds: seq<seq<nat>>, cv: nat, list: seq<nat>, t: nat)
    requires cv < |conds|
    ensures Waiting(conds[cv := list], t) + Count(conds[cv], t) == Waiting(conds, t) + Count(list, t)
  {
    var n := |conds| - 1;
    if cv == n {
      assert conds[cv := list][..n] == conds[..n];
    } else {
      WaitingUpdate(conds[..n], cv, list, t);
      assert conds[cv := list][..n] == conds[..n][cv := list];
    }
  }

  lemma {:induction false} WaitingSomewhere(conds: seq<seq<nat>>, t: nat)
    ensures Waiting(conds, t) > 0 <==> exists cv :: 0 <= cv < |conds| && t in conds[cv]
  {
    if conds != [] {
      var n := |conds| - 1;
      WaitingSomewhere(conds[..n], t);
      if cv :| 0 <= cv < |conds| && t in conds[cv] {
        assert cv < n ==> conds[..n][cv] == conds[cv];
        assert t in multiset(conds[cv]);
      }
      if Waiting(conds[..n], t) > 0 {
        var cv :| 0 <= cv < n && t in conds[..n][cv];
        assert t in conds[cv];
      }
    }
  }

  lemma IdleIsNowhere(s: Sched, t: nat)
    ensures Idle(s, t) <==> Spare(s, t)
  {
    WaitingSomewhere(s.conds, t);
    assert t in s.ready <==> t in multiset(s.ready);
  }

  lemma {:induction false} Pigeonhole(s: seq<nat>, n: nat)
    requires NoDuplicates(s) && forall i :: 0 <= i < |s| ==> s[i] < n
    ensures |s| <= n
  {
    if s != [] {
      assert s[0] < n;
      if k :| 0 <= k < |s| && s[k] == n - 1 {
        var rest := s[..k] + s[k + 1..];
        forall i, j | 0 <= i < j < |rest| ensures rest[i] != rest[j] {
          var i', j' := if i < k then i else i + 1, if j < k then j else j + 1;
          assert s[i'] != s[j'];
        }
        forall i | 0 <= i < |rest| ensures rest[i] < n - 1 {
          var i' := if i < k then i else i + 1;
          assert s[i'] != s[k];
        }
        Pigeonhole(rest, n - 1);
      } else {
        Pigeonhole(s, n - 1);
      }
    }
  }

  /** A list of threads that each occur once has room for another one. */
  lemma RoomFor(slots: seq<Slot>, list: seq<nat>, t: nat)
    requires |slots| == POOL_SIZE && IsAlive(slots, t)
    requires forall u: nat :: Count(list + [t], u) <= 1 && (Count(list, u) == 1 ==> IsAlive(slots, u))
    ensures |list| < POOL_SIZE
  {
    var all := list + [t];
    forall i, j | 0 <= i < j < |all| ensures all[i] != all[j] {
      if all[i] == all[j] {
        TwiceCounted(all, i, j);
        assert false;
      }
    }
    forall i | 0 <= i < |all| ensures all[i] < POOL_SIZE {
      if i < |list| {
        assert list[i] in multiset(list) && Count(list, list[i]) >= 1;
        assert Count(list + [t], list[i]) <= 1;
      }
    }
    Pigeonhole(all, POOL_SIZE);
  }

  lemma TwiceCounted(s: seq<nat>, i: nat, j: nat)
    requires i < j < |s| && s[i] == s[j]
    ensures Count(s, s[i]) >= 2
  {
    assert s == s[..j] + s[j..];
    assert s[..j][i] in multiset(s[..j]) && s[j..][0] in multiset(s[j..]);
  }

  // ---- the invariant ----

  /** Pools and lists are in order, whatever is current. */
  ghost predicate Parked(s: Sched) {
    PoolsOk(s.threadFree, s.contextFree, s.slots) && ListsOk(s.slots, s.ready, s.conds)
  }

  /** Alive and in no list. */
  predicate Unlisted(s: Sched, t: nat) {
    IsAlive(s.slots, t) && Places(s.ready, s.conds, t) == 0
  }

  predicate Spare(s: Sched, t: nat) {
    Unlisted(s, t) && s.current != Some(t)
  }

  /** The running thread has a context and is in no list. */
  ghost predicate Inv(s: Sched) {
    Parked(s) && (s.current.Some? ==> HasContext(s, s.current.value) && Unlisted(s, s.current.value))
  }

  lemma StillListed(s: Sched, slots: seq<Slot>)
    requires ListsOk(s.slots, s.ready, s.conds)
    requires forall t: nat :: IsAlive(s.slots, t) && Places(s.ready, s.conds, t) == 1 ==> IsAlive(slots, t)
    ensures ListsOk(slots, s.ready, s.conds)
  {
    forall t: nat ensures ListedAt(slots, s.ready, s.conds, t) { assert ListedAt(s.slots, s.ready, s.conds, t); }
  }

  lemma CreateOk(s: Sched)
    requires Parked(s)
    ensures s.threadFree == [] <==> Create(s).0 == Error
    ensures s.threadFree != [] ==>
              var (r, t) := Create(s);
              && r.Ok? && Parked(r.s) && Unlisted(r.s, t) && r.s.slots[t].context.None?
              && r.s == s.(threadFree := s.threadFree[..|s.threadFree| - 1], slots := s.slots[t := Alive(None)])
                  && s.slots[t].Dead?
  {
    if s.threadFree != [] {
      CreatePools(s.threadFree, s.contextFree, s.slots);
      var (r, t) := Create(s);
      StillListed(s, r.s.slots);
      assert ListedAt(s.slots, s.ready, s.conds, t);
    }
  }

  lemma SwapOk(s: Sched, t: nat)
    requires Parked(s) && s.current.Some? && HasContext(s, s.current.value) && Unlisted(s, t)
    ensures var r := Swap(s, t);
            && r.Ok? && Inv(r.s)
            && r.s == s.(contextFree := r.s.contextFree, slots := s.slots[t := r.s.slots[t]], current := Some(t))
  {
    MakeContextPools(s, t);
    StillListed(s, EnsureContext(s, t).s.slots);
  }

  /**
   From s, with the slots in between, thread n has come to run in r with its own context: of the lists
   only `ready` is another one, and of the slots only that of n.
   */
  predicate RunsNext(s: Sched, slots: seq<Slot>, r: Sched, n: nat, ready: seq<nat>) {
    && n < |slots| == |r.slots| && r.slots == slots[n := r.slots[n]]
    && r.current == Some(n) && HasContext(r, n) && (HasContext(s, n) ==> r.slots[n] == s.slots[n])
    && r.ready == ready && r.conds == s.conds
  }

  /** The slots once the current thread has ended. */
  function Ended(s: Sched): seq<Slot> {
    if s.current.Some? && s.current.value < |s.slots| then s.slots[s.current.value := Dead] else s.slots
  }

  lemma SwitchOk(s: Sched, t: nat)
    requires Inv(s) && (s.current == Some(t) || Spare(s, t))
    ensures var r := Switch(s, t);
            && r.Ok? && Inv(r.s)
            && (s.current == Some(t) ==> r.s == s)
            && (s.current != Some(t) ==> RunsNext(s, Ended(s), r.s, t, s.ready))
  {
    if s.current != Some(t) {
      var s0 := s;
      if s.current.Some? {
        DestroyPools(s.threadFree, s.contextFree, s.slots, s.current.value);
        s0 := Destroy(s, s.current.value);
        StillListed(s, s0.slots);
      }
      MakeContextPools(s0, t);
      StillListed(s0, EnsureContext(s0, t).s.slots);
    }
  }

  lemma HandOverOk(s: Sched, t: nat)
    requires Inv(s) && s.current.Some? && Spare(s, t) && s.slots[t].context.None?
    ensures var r := HandOver(s, t);
            && r.Ok? && Inv(r.s) && RunsNext(s, Ended(s), r.s, t, s.ready)
            && r.s.slots[t] == s.slots[s.current.value]
  {
    var u := s.current.value;
    var c := s.slots[u].context.value;
    HandOverPools(s.threadFree, s.contextFree, s.slots, u, t, c);
    var r := HandOver(s, t).s;
    assert r.slots == s.slots[t := Alive(Some(c))][u := Dead];
    StillListed(s, r.slots);
  }

  /** The first ready thread is taken off the list. */
  lemma PopReady(s: Sched)
    requires Parked(s) && s.ready != []
    ensures var r := s.(ready := s.ready[1..]); Parked(r) && Unlisted(r, s.ready[0])
    ensures forall t: nat :: Unlisted(s, t) ==> Unlisted(s.(ready := s.ready[1..]), t) && t != s.ready[0]
  {
    var n, rest := s.ready[0], s.ready[1..];
    assert s.ready == [n] + rest;
    forall t: nat ensures ListedAt(s.slots, rest, s.conds, t) && Count(s.ready, t) == Count(rest, t) + if t == n
        then 1 else 0 {
      assert ListedAt(s.slots, s.ready, s.conds, t);
    }
    assert ListedAt(s.slots, s.ready, s.conds, n);
  }

  /** Another thread is needed and the pool is empty: the only reason for `error` in the loop. */
  predicate LoopStarves(s: Sched, next: Option<nat>) {
    next.None? && s.ready == [] && s.threadFree == []
  }

  /** The k-th thread from the top of the free list. */
  function FreeThread(s: Sched, k: nat): nat {
    if 1 <= k <= |s.threadFree| then s.threadFree[|s.threadFree| - k] else 0
  }

  /** Who runs after the loop: the thread asked for, the first ready one, or the k-th free one. */
  function Chosen(s: Sched, next: Option<nat>, k: nat): nat {
    if next.Some? then next.value else if s.ready != [] then s.ready[0] else FreeThread(s, k)
  }

  function LeftReady(s: Sched, next: Option<nat>): seq<nat> {
    if next.None? && s.ready != [] then s.ready[1..] else s.ready
  }

  /** The thread of the loop ends, and the chosen thread runs. */
  lemma MainLoopOk(s: Sched, next: Option<nat>)
    requires Inv(s) && s.current.Some? && (next.Some? ==> Spare(s, next.value))
    ensures MainLoop(s, next) == Error <==> LoopStarves(s, next)
    ensures var r := MainLoop(s, next);
            || r == Error
            || (r.Ok? && Inv(r.s) && RunsNext(s, Ended(s), r.s, Chosen(s, next, 1), LeftReady(s, next)))
  {
    if !LoopStarves(s, next) {
      var s1, n := s, 0;
      if next.Some? {
        n := next.value;
      } else if s.ready != [] {
        PopReady(s);
        s1, n := s.(ready := s.ready[1..]), s.ready[0];
      } else {
        CreateOk(s);
        s1, n := Create(s).0.s, Create(s).1;
      }
      if HasContext(s1, n) { SwitchOk(s1, n); } else { HandOverOk(s1, n); }
    } else {
      CreateOk(s);
    }
  }

  lemma EnterMainOk(s: Sched, next: Option<nat>)
    requires Parked(s) && s.current.Some? && HasContext(s, s.current.value) && (next.Some? ==> Unlisted(s, next.value))
    ensures EnterMain(s, next) == Error <==> |s.threadFree| < if next.None? && s.ready == [] then 2 else 1
    ensures var r := EnterMain(s, next);
            || r == Error
            || (r.Ok? && Inv(r.s) && RunsNext(s, s.slots, r.s, Chosen(s, next, 2), LeftReady(s, next)))
  {
    CreateOk(s);
    if s.threadFree != [] {
      var (r, m) := Create(s);
      SwapOk(r.s, m);
      var s2 := Swap(r.s, m).s;
      MainLoopOk(s2, next);
      ComesAndGoes(s, s2, m, next);
    }
  }

  /** The thread m that was created for the loop is gone afterwards. */
  lemma ComesAndGoes(s: Sched, s2: Sched, m: nat, next: Option<nat>)
    requires m < |s.slots| && s.slots[m].Dead? && s2.current == Some(m) && |s2.slots| == |s.slots|
    requires s2.slots == s.slots[m := s2.slots[m]] && s2.ready == s.ready && s2.conds == s.conds
    requires s.threadFree != [] && s2.threadFree == s.threadFree[..|s.threadFree| - 1]
    requires next != Some(m)
    ensures forall r: Sched, n: nat, ready: seq<nat> :: n != m && RunsNext(s2, Ended(s2), r, n, ready) ==>
              RunsNext(s, s.slots, r, n, ready)
    ensures Chosen(s2, next, 1) == Chosen(s, next, 2) && LeftReady(s2, next) == LeftReady(s, next)
  {
    assert Ended(s2) == s.slots;
  }

  /** `threadSchedule` always finds room in the list. */
  lemma ScheduleOk(s: Sched, t: nat)
    requires Parked(s) && Unlisted(s, t)
    ensures Schedule(s, t) == Ok(s.(ready := s.ready + [t])) && Parked(s.(ready := s.ready + [t]))
  {
    forall u: nat ensures Count(s.ready + [t], u) <= 1 && (Count(s.ready, u) == 1 ==> IsAlive(s.slots, u))
        && ListedAt(s.slots, s.ready + [t], s.conds, u) {
      assert ListedAt(s.slots, s.ready, s.conds, u);
      assert Count(s.ready + [t], u) == Count(s.ready, u) + if u == t then 1 else 0;
    }
    RoomFor(s.slots, s.ready, t);
  }

  /** How many threads a yield has to create. */
  function YieldNeeds(s: Sched, runnable: bool): nat {
    if runnable && s.ready == [] then 0
    else if s.ready == [] then 2
    else if HasContext(s, s.ready[0]) then 0
    else 1
  }

  /**
   The first ready thread runs and the caller, if it is runnable, becomes the last ready one. With nobody
   ready a runnable caller goes on, and for another one a thread runs that was free.
   */
  predicate Yielded(s: Sched, runnable: bool, r: Sched)
    requires s.current.Some?
  {
    if s.ready != [] then
      RunsNext(s, s.slots, r, s.ready[0], s.ready[1..] + if runnable then [s.current.value] else [])
    else if runnable then r == s
    else RunsNext(s, s.slots, r, FreeThread(s, 2), [])
  }

  lemma YieldOk(s: Sched, runnable: bool)
    requires Parked(s) && s.current.Some? && HasContext(s, s.current.value)
    requires runnable ==> Unlisted(s, s.current.value)
    requires runnable && s.ready == [] ==> Inv(s)
    ensures Yield(s, runnable) == Error <==> |s.threadFree| < YieldNeeds(s, runnable)
    ensures var r := Yield(s, runnable); r == Error || (r.Ok? && Inv(r.s) && Yielded(s, runnable, r.s))
  {
    if !(runnable && s.ready == []) {
      var s1 := s;
      if runnable {
        ScheduleOk(s, s.current.value);
        s1 := s.(ready := s.ready + [s.current.value]);
      }
      if s1.ready == [] {
        EnterMainOk(s1, None);
      } else {
        PopReady(s1);
        var n, s2 := s1.ready[0], s1.(ready := s1.ready[1..]);
        if HasContext(s2, n) { SwapOk(s2, n); } else { EnterMainOk(s2, Some(n)); }
      }
    }
  }

  /** `condWait` never drops a thread: the list has room, and the caller is its last element when others run. */
  lemma WaitOk(s: Sched, cv: nat)
    requires Inv(s) && s.current.Some? && cv < |s.conds|
    ensures |s.conds[cv]| < POOL_SIZE
    ensures CondWait(s, cv) == Error <==> |s.threadFree| < YieldNeeds(s, false)
    ensures var waiting := s.conds[cv := s.conds[cv] + [s.current.value]];
            var r := CondWait(s, cv);
            r == Error || (r.Ok? && Inv(r.s) && Yielded(s.(conds := waiting), false, r.s))
  {
    var t, list := s.current.value, s.conds[cv];
    var conds := s.conds[cv := list + [t]];
    forall u: nat
      ensures ListedAt(s.slots, s.ready, conds, u) && Count(list + [t], u) <= 1
      ensures (Count(list, u) == 1 ==> IsAlive(s.slots, u))
    {
      assert ListedAt(s.slots, s.ready, s.conds, u);
      WaitingUpdate(s.conds, cv, list + [t], u);
      WaitingUpdate(s.conds, cv, [], u);
      assert Count(list + [t], u) == Count(list, u) + if u == t then 1 else 0;
    }
    RoomFor(s.slots, list, t);
    YieldOk(s.(conds := conds), false);
  }

  /** The first waiting thread becomes ready, and nothing else changes. */
  lemma NotifyOk(s: Sched, cv: nat)
    requires Inv(s) && cv < |s.conds|
    ensures var r, list := CondNotify(s, cv), s.conds[cv];
            && r.Ok? && Inv(r.s)
            && r.s == if list == [] then s else s.(ready := s.ready + [list[0]], conds := s.conds[cv := list[1..]])
  {
    var list := s.conds[cv];
    if list != [] {
      var t, rest := list[0], list[1..];
      assert list == [t] + rest;
      var s0 := s.(conds := s.conds[cv := rest]);
      forall u: nat
        ensures ListedAt(s0.slots, s0.ready, s0.conds, u) && (Unlisted(s, u) ==> Unlisted(s0, u) && u != t)
        ensures (u == t ==> Unlisted(s0, t))
      {
        assert ListedAt(s.slots, s.ready, s.conds, u);
        WaitingUpdate(s.conds, cv, rest, u);
        assert Count(list, u) == Count(rest, u) + if u == t then 1 else 0;
      }
      ScheduleOk(s0, t);
      if s.current.Some? { assert Unlisted(s0, s.current.value) && s.current.value != t; }
    }
  }

  /** Starting forgets the thread that was current, if there was one, and runs the first ready thread. */
  lemma StartOk(s: Sched)
    requires Inv(s)
    ensures Start(s) == Error <==> |s.threadFree| < if s.ready == [] then 2 else 1
    ensures var r := Start(s);
            || r == Error
            || (r.Ok? && Inv(r.s) && RunsNext(s, s.slots, r.s, Chosen(s, None, 2), LeftReady(s, None)))
  {
    CreateOk(s);
    if s.threadFree != [] {
      var (r, m) := Create(s);
      var s1 := r.s.(current := None);
      SwitchOk(s1, m);
      var s2 := Switch(s1, m).s;
      MainLoopOk(s2, None);
      ComesAndGoes(s, s2, m, None);
    }
  }

  /** Stopping ends in error exactly while threads are ready; otherwise the last thread ends. */
  lemma StopOk(s: Sched)
    requires Inv(s) && s.current.Some?
    ensures Stop(s) == Error <==> s.ready != []
    ensures s.ready == [] ==>
              var r := Stop(s);
              r.Ok? && Inv(r.s) && r.s.current.None? && r.s.slots == s.slots[s.current.value := Dead]
  {
    DestroyPools(s.threadFree, s.contextFree, s.slots, s.current.value);
    StillListed(s, Destroy(s, s.current.value).slots);
  }

  // ---- every run ----

  /** No step of a disciplined run fails an assertion, and every step keeps the invariant. */
  lemma StepOk(s: Sched, a: Action)
    requires Inv(s) && Disciplined(s, a)
    ensures Do(s, a) != AssertFails && Inv(Step(s, a))
  {
    match a
    case DoCreate => CreateOk(s);
    case DoSchedule(t) => IdleIsNowhere(s, t); ScheduleOk(s, t);
    case DoYield(runnable) => YieldOk(s, runnable);
    case DoSwap(t) => IdleIsNowhere(s, t); SwapOk(s, t);
    case DoSwitch(t) =>
      if s.current != Some(t) { IdleIsNowhere(s, t); }
      SwitchOk(s, t);
    case DoReturn => MainLoopOk(s, None);
    case DoWait(cv) => WaitOk(s, cv);
    case DoNotify(cv) => NotifyOk(s, cv);
    case DoStart => StartOk(s);
    case DoStop => StopOk(s);
  }

  lemma {:induction false} NobodyAlive(slots: seq<Slot>)
    requires forall i :: 0 <= i < |slots| ==> slots[i].Dead?
    ensures AliveCount(slots) == 0 && OwnerCount(slots) == 0
  {
    if slots != [] {
      NobodyAlive(slots[..|slots| - 1]);
    }
  }

  lemma {:induction false} NobodyWaits(conds: seq<seq<nat>>, t: nat)
    requires forall i :: 0 <= i < |conds| ==> conds[i] == []
    ensures Waiting(conds, t) == 0
  {
    if conds != [] {
      NobodyWaits(conds[..|conds| - 1], t);
    }
  }

  lemma InitOk(conds: nat)
    ensures Inv(Init(conds))
  {
    var s := Init(conds);
    NobodyAlive(s.slots);
    forall t: nat ensures FreeAt(s.slots, s.threadFree, t) { if t < POOL_SIZE { assert s.threadFree[t] == t; } }
    forall t: nat ensures ListedAt(s.slots, s.ready, s.conds, t) { NobodyWaits(s.conds, t); }
  }

  /**
   The state after any disciplined run: ownership is exclusive, free lists hold no duplicates, and no next
   step fails an assertion.
   */
  lemma RunSafe(conds: nat, acts: seq<Action>)
    requires IsRun(Scheduler(), Init(conds), acts)
    ensures var s := After(Scheduler(), Init(conds), acts);
            && (forall t: nat, u: nat, c: nat :: Owner(s.slots, t, c) && Owner(s.slots, u, c) ==> t == u)
            && (s.current.Some? ==> HasContext(s, s.current.value))
            && NoDuplicates(s.threadFree) && NoDuplicates(s.contextFree)
            && (forall a :: Disciplined(s, a) ==> Do(s, a) != AssertFails)
  {
    InitOk(conds);
    forall s, a | Inv(s) && Enabled(s, a) ensures Inv(Step(s, a)) { StepOk(s, a); }
    Invariant(Scheduler(), s => Inv(s), Init(conds), acts);
    var s := After(Scheduler(), Init(conds), acts);
    forall t: nat, u: nat, c: nat | Owner(s.slots, t, c) && Owner(s.slots, u, c) ensures t == u {
      assert SingleAt(s.slots, t, u, c);
    }
    forall a | Disciplined(s, a) ensures Do(s, a) != AssertFails { StepOk(s, a); }
  }

  // ---- switching to a thread that is not idle ----

  /** `Switch` from a running thread to another live one, whatever lists that one is in. */
  lemma SwitchLive(s: Sched, a: nat, b: nat) returns (s1: Sched)
    requires PoolsOk(s.threadFree, s.contextFree, s.slots)
    requires s.current == Some(a) && a != b && IsAlive(s.slots, a) && IsAlive(s.slots, b)
    ensures Do(s, DoSwitch(b)) == Ok(s1) && PoolsOk(s1.threadFree, s1.contextFree, s1.slots)
    ensures s1.threadFree == s.threadFree + [a] && s1.current == Some(b) && s1.ready == s.ready && s1.conds == s.conds
    ensures |s1.slots| == |s.slots| && s1.slots[a].Dead? && IsAlive(s1.slots, b)
  {
    DestroyPools(s.threadFree, s.contextFree, s.slots, a);
    MakeContextPools(Destroy(s, a), b);
    s1 := Switch(s, b).s;
  }

  lemma CreateAndSchedule(s: Sched)
    requires Inv(s) && s.current.Some? && s.ready == [] && s.threadFree != []
    ensures var (r, b) := Create(s);
            && r.Ok? && b != s.current.value && b < |s.slots|
            && r.s == s.(threadFree := s.threadFree[..|s.threadFree| - 1], slots := s.slots[b := Alive(None)])
            && Schedule(r.s, b) == Ok(r.s.(ready := [b])) && Idle(r.s, b) && Inv(r.s.(ready := [b]))
  {
    CreateOk(s);
    var (r, b) := Create(s);
    ScheduleOk(r.s, b);
    assert r.s.ready + [b] == [b];
    assert Count([b], s.current.value) == 0;
    IdleIsNowhere(r.s, b);
  }

  /** A running thread that is also ready creates another and switches to it. */
  lemma EndsWhileReady(s: Sched, a: nat, b: nat) returns (s1: Sched, s2: Sched)
    requires PoolsOk(s.threadFree, s.contextFree, s.slots) && s.current == Some(b) && IsAlive(s.slots, b)
    requires s.ready == [b] && a != b && Waiting(s.conds, a) == 0
    requires s.threadFree != [] && s.threadFree[|s.threadFree| - 1] == a
    ensures Create(s) == (Ok(s1), a) && Idle(s1, a) && Do(s1, DoSwitch(a)) == Ok(s2)
    ensures b < |s2.slots| && s2.slots[b].Dead? && !Inv(s2)
    ensures GetRunnable(s2).1 == b && Create(s2).1 == b
  {
    CreatePools(s.threadFree, s.contextFree, s.slots);
    s1 := Create(s).0.s;
    assert Count([b], a) == 0;
    IdleIsNowhere(s1, a);
    s2 := SwitchLive(s1, b, a);
    assert Count([b], b) == 1;
    assert !ListedAt(s2.slots, s2.ready, s2.conds, b);
  }

  /** Right after starting, the premises of `SwitchToReady`, `SwapToListed` and `WaitsForOther` hold. */
  lemma JustStarted(conds: nat)
    ensures var r := Start(Init(conds));
            r.Ok? && Inv(r.s) && r.s.current.Some? && r.s.ready == [] && |r.s.threadFree| > 1
  {
    InitOk(conds);
    StartOk(Init(conds));
  }

  /**
   Why only idle threads may be switched to: a thread that is switched to while it is still ready can
   end, and is then both the next to run and the next to be created. Only the third step breaks the rule.
   */
  lemma SwitchToReady(s: Sched) returns (s1: Sched, s2: Sched, s3: Sched, s4: Sched, s5: Sched, a: nat, b: nat)
    requires Inv(s) && s.current.Some? && s.ready == [] && s.threadFree != []
    ensures Disciplined(s, DoCreate) && Do(s, DoCreate) == Ok(s1)
    ensures Disciplined(s1, DoSchedule(b)) && Do(s1, DoSchedule(b)) == Ok(s2)
    ensures Inv(s2) && s2.ready == [b] && !Disciplined(s2, DoSwitch(b)) && Do(s2, DoSwitch(b)) == Ok(s3)
    ensures Disciplined(s3, DoCreate) && Do(s3, DoCreate) == Ok(s4)
    ensures Disciplined(s4, DoSwitch(a)) && Do(s4, DoSwitch(a)) == Ok(s5)
    ensures b < |s5.slots| && s5.slots[b].Dead? && !Inv(s5)
    ensures GetRunnable(s5).1 == b && Create(s5).1 == b
  {
    a := s.current.value;
    CreateAndSchedule(s);
    s1, b := Create(s).0.s, Create(s).1;
    s2 := s1.(ready := [b]);
    s3 := SwitchLive(s2, a, b);
    assert b in s2.ready;
    s4, s5 := EndsWhileReady(s3, a, b);
  }

  /** The same for swapping: only the third step breaks the rule. */
  lemma SwapToListed(s: Sched) returns (s1: Sched, s2: Sched, s3: Sched, s4: Sched, s5: Sched, b: nat, c: nat)
    requires Inv(s) && s.current.Some? && s.ready == [] && |s.threadFree| > 1
    ensures Disciplined(s, DoCreate) && Do(s, DoCreate) == Ok(s1)
    ensures Disciplined(s1, DoSchedule(b)) && Do(s1, DoSchedule(b)) == Ok(s2)
    ensures Inv(s2) && s2.ready == [b] && !Disciplined(s2, DoSwap(b)) && Do(s2, DoSwap(b)) == Ok(s3)
    ensures Disciplined(s3, DoCreate) && Do(s3, DoCreate) == Ok(s4)
    ensures Disciplined(s4, DoSwitch(c)) && Do(s4, DoSwitch(c)) == Ok(s5)
    ensures b < |s5.slots| && s5.slots[b].Dead? && !Inv(s5)
    ensures GetRunnable(s5).1 == b && Create(s5).1 == b
  {
    s1, s2, s3, b := SwapsToReady(s);
    c := s3.threadFree[|s3.threadFree| - 1];
    FreeIsNowhere(s2, c);
    s4, s5 := EndsWhileReady(s3, c, b);
  }

  lemma SwapsToReady(s: Sched) returns (s1: Sched, s2: Sched, s3: Sched, b: nat)
    requires Inv(s) && s.current.Some? && s.ready == [] && |s.threadFree| > 1
    ensures Do(s, DoCreate) == Ok(s1)
    ensures Disciplined(s1, DoSchedule(b)) && Do(s1, DoSchedule(b)) == Ok(s2)
    ensures Inv(s2) && s2.ready == [b] && !Disciplined(s2, DoSwap(b)) && Do(s2, DoSwap(b)) == Ok(s3)
    ensures IsAlive(s2.slots, b) && PoolsOk(s3.threadFree, s3.contextFree, s3.slots) && IsAlive(s3.slots, b)
    ensures s3.threadFree == s2.threadFree != [] && s3.current == Some(b) && s3.ready == [b] && s3.conds == s2.conds
  {
    CreateAndSchedule(s);
    s1, b := Create(s).0.s, Create(s).1;
    s2 := s1.(ready := [b]);
    assert b in s2.ready;
    s3 := SwapLive(s2, b);
  }

  /** A free thread is dead and in no list. */
  lemma FreeIsNowhere(s: Sched, c: nat)
    requires Parked(s) && c in s.threadFree
    ensures !IsAlive(s.slots, c) && Waiting(s.conds, c) == 0
  {
    assert FreeAt(s.slots, s.threadFree, c) && ListedAt(s.slots, s.ready, s.conds, c);
  }

  lemma SwapLive(s: Sched, b: nat) returns (s1: Sched)
    requires Inv(s) && s.current.Some? && IsAlive(s.slots, b)
    ensures Do(s, DoSwap(b)) == Ok(s1) && PoolsOk(s1.threadFree, s1.contextFree, s1.slots) && IsAlive(s1.slots, b)
    ensures s1.threadFree == s.threadFree && s1.current == Some(b) && s1.ready == s.ready && s1.conds == s.conds
  {
    MakeContextPools(s, b);
    s1 := Swap(s, b).s;
  }

  /**
   Why a thread that waits on a condition must not be scheduled, although it is not runnable: it runs,
   ends, and is still the next thread a notification makes ready. Only the first step breaks the rule.
   */
  lemma ScheduleWaiting(s: Sched, cv: nat) returns (s1: Sched, s2: Sched, s3: Sched, s4: Sched, w: nat)
    requires Inv(s) && s.current.Some? && s.ready == [] && cv < |s.conds| && s.conds[cv] != []
    requires HasContext(s, s.conds[cv][0])
    ensures w == s.conds[cv][0] && !Disciplined(s, DoSchedule(w)) && Do(s, DoSchedule(w)) == Ok(s1)
    ensures Disciplined(s1, DoReturn) && Do(s1, DoReturn) == Ok(s2)
    ensures Disciplined(s2, DoReturn) && Do(s2, DoReturn) == Ok(s3)
    ensures Disciplined(s3, DoNotify(cv)) && Do(s3, DoNotify(cv)) == Ok(s4)
    ensures w < |s4.slots| && s4.slots[w].Dead? && s4.ready == [w] && !Inv(s4)
  {
    w := s.conds[cv][0];
    assert w in s.conds[cv];
    WaitingSomewhere(s.conds, w);
    assert Unlisted(s, s.current.value);
    s1 := s.(ready := [w]);
    assert s.ready + [w] == [w];
    s2 := SwitchLive(s, s.current.value, w);
    assert s1.(ready := s1.ready[1..]) == s;
    assert Do(s1, DoReturn) == Ok(s2);
    s3 := ReturnsToNew(s2, s.current.value, w);
    s4 := s3.(ready := [w], conds := s3.conds[cv := s3.conds[cv][1..]]);
    assert s3.ready + [w] == [w];
    assert Count([w], w) == 1;
    assert !ListedAt(s4.slots, s4.ready, s4.conds, w);
  }

  /** The premise of `ScheduleWaiting` is reached: a thread makes another one ready and waits. */
  lemma WaitsForOther(s: Sched) returns (s1: Sched, s2: Sched, s3: Sched, b: nat)
    requires Inv(s) && s.current.Some? && s.ready == [] && |s.threadFree| > 1 && |s.conds| > 0 && s.conds[0] == []
    ensures Disciplined(s, DoCreate) && Do(s, DoCreate) == Ok(s1)
    ensures Disciplined(s1, DoSchedule(b)) && Do(s1, DoSchedule(b)) == Ok(s2)
    ensures Disciplined(s2, DoWait(0)) && Do(s2, DoWait(0)) == Ok(s3)
    ensures Inv(s3) && s3.current == Some(b) && s3.ready == [] && |s3.conds| > 0
    ensures s3.conds[0] == [s.current.value] && HasContext(s3, s.current.value)
  {
    CreateAndSchedule(s);
    var a := s.current.value;
    s1, b := Create(s).0.s, Create(s).1;
    s2 := s1.(ready := [b]);
    WaitOk(s2, 0);
    var w := s2.(ready := [], conds := s2.conds[0 := [a]]);
    assert [] + [a] == [a] && s2.ready[1..] == [];
    s3 := RunsThroughMain(w, a, b);
    assert Do(s2, DoWait(0)) == SwapToReady(s2.(conds := s2.conds[0 := [a]]));
  }

  /** A thread without a context gets that of a thread created for it. */
  lemma RunsThroughMain(s: Sched, a: nat, b: nat) returns (s1: Sched)
    requires PoolsOk(s.threadFree, s.contextFree, s.slots) && s.threadFree != []
    requires s.current == Some(a) && HasContext(s, a) && IsAlive(s.slots, b) && s.slots[b].context.None? && a != b
    ensures EnterMain(s, Some(b)) == Ok(s1)
    ensures s1.ready == s.ready && s1.conds == s.conds && s1.current == Some(b) && HasContext(s1, a)
  {
    CreatePools(s.threadFree, s.contextFree, s.slots);
    var (r, m) := Create(s);
    assert m != a && m != b;
    MakeContextPools(r.s, m);
    var s2 := Swap(r.s, m).s;
    assert HasContext(s2, m) && !HasContext(s2, b) && HasContext(s2, a);
    s1 := HandOver(s2, b).s;
  }

  /** A thread that ends when nothing is ready hands its context to a new thread. */
  lemma ReturnsToNew(s: Sched, a: nat, w: nat) returns (s1: Sched)
    requires s.current == Some(w) && HasContext(s, w) && s.ready == [] && a != w
    requires s.threadFree != [] && s.threadFree[|s.threadFree| - 1] == a && a < |s.slots|
    ensures Do(s, DoReturn) == Ok(s1) && s1.conds == s.conds && s1.ready == [] && s1.current == Some(a)
    ensures w < |s1.slots| && s1.slots[w].Dead?
  {
    var r := Create(s).0.s;
    assert HasContext(r, w) && !HasContext(r, a);
    s1 := HandOver(r, a).s;
  }
}
