/** The guarantees of the channel over whole runs, and exactly where the code itself stops giving them. */
module ChannelTheorems {
  import opened Options
  import opened ChannelCode
  import opened Runs
  import opened ChannelModel
  import opened ChannelGeometry
  import opened ChannelInvariant
  import opened ChannelSteps
  import opened ChannelAlloc

  lemma StepInv(s: State, a: Action)
    requires Inv(s) && Enabled(s, a)
    ensures Inv(Do(s, a))
  {
    match a
    case DoAllocate(size) => BeginInv(s, size);
    case DoGc => GcInv(s);
    case DoWrite => if s.spc.SWrap? { SentinelWriteInv(s); } else { HeaderWriteInv(s); }
    case DoPoke(i, addr, b) => PokeInv(s, i, addr, b);
    case DoSend(i, size) => SendInv(s, i, size);
    case DoPoll => PollInv(s);
    case DoReadSize => ReadSizeInv(s);
    case DoSkip => SkipInv(s);
    case DoClear => ClearInv(s);
    case DoTake => TakeInv(s);
    case DoLeave =>
    case DoFree(i) => FreeInv(s, i);
    case DoClearLine(low) => ClearLineInv(s, low);
  }

  lemma RunInv(s: State, acts: seq<Action>)
    requires Inv(s) && IsRun(Channel(), s, acts)
    ensures Inv(After(Channel(), s, acts))
  {
    forall s, a | Inv(s) && Enabled(s, a) ensures Inv(Do(s, a)) { StepInv(s, a); }
    Invariant(Channel(), (s: State) => Inv(s), s, acts);
  }

  /** acts leads from s to t. */
  ghost predicate Leads(s: State, acts: seq<Action>, t: State) {
    IsRun(Channel(), s, acts) && After(Channel(), s, acts) == t <==> true
  }

  lemma LeadsOn(s: State, acts: seq<Action>, t: State, more: seq<Action>, u: State)
    requires Leads(s, acts, t) && Leads(t, more, u)
    ensures Leads(s, acts + more, u)
  {
    Append(Channel(), s, acts, more);
  }

  lemma Go(s: State, a: Action, t: State)
    requires Enabled(s, a) && Do(s, a) == t
    ensures Leads(s, [a], t)
  {
    One(Channel(), s, a);
  }

  // ---- ring safety ----

  /** The chunks tile the ring from just after tail up to head, without overlap, and free lines are not ready. */
  ghost predicate RingSafe(s: State) {
    var r, cs := s.ring, s.chunks;
    // end to end around the ring, from just after tail ...
    && (cs != [] && r.tail != r.S ==> cs[0].Off() == if r.tail == r.S - 1 then 0 else r.tail + 1)
    && (cs == [] ==> r.head == if r.tail == r.S - 1 then 0 else r.tail + 1)
    && (forall i :: 0 <= i < |cs| ==> NewNext(r.S, cs[i].Off(), cs[i].Bytes()) == NextOffset(cs, i + 1, r.head))
    // ... filling the ring completely exactly when tail says so
    && (r.tail == r.S <==> LinesUsed(cs) == r.N())
    && Disjoint(cs, r.N())
    // next is on a chunk boundary
    && s.taken <= |cs| && s.next == NextOffset(cs, s.taken, r.head)
    // a line outside every chunk in use does not look ready
    && (forall l :: 0 <= l < r.N() && !Busy(cs, l) ==> NotReady(s.mem, LINE * l))
  }

  function LinesUsed(cs: seq<Chunk>): int {
    if cs == [] then 0 else LinesUsed(cs[..|cs| - 1]) + cs[|cs| - 1].len
  }

  lemma {:induction false} TilesAddUp(cs: seq<Chunk>, lo: int, hi: int)
    requires Tiled(cs, lo, hi)
    ensures LinesUsed(cs) == hi - lo
  {
    if cs != [] {
      var n := |cs| - 1;
      forall i, j ensures EndsBefore(cs[..n], i, j) { assert EndsBefore(cs, i, j); }
      assert EndsBefore(cs, n - 1, n);
      TilesAddUp(cs[..n], lo, cs[n].pos);
    }
  }

  lemma InvRingSafe(s: State)
    requires Inv(s)
    ensures RingSafe(s)
  {
    GeometryDisjoint(s.ring, s.chunks);
    TilesAddUp(s.chunks, s.ring.lo, s.ring.hi);
    assert PlacedAt(s.ring, s.chunks, 0);
    forall i | 0 <= i < |s.chunks|
      ensures NewNext(s.ring.S, s.chunks[i].Off(), s.chunks[i].Bytes()) == NextOffset(s.chunks, i + 1, s.ring.head)
    {
      NextStart(s.ring, s.chunks, i);
    }
    forall l | 0 <= l < s.ring.N() && !Busy(s.chunks, l) ensures NotReady(s.mem, LINE * l) {
      assert QuietOrBusy(s.mem, s.chunks, s.ring.S / LINE, l);
    }
  }

  lemma RingSafety(s: State, acts: seq<Action>)
    requires Init(s) && IsRun(Channel(), s, acts)
    ensures RingSafe(After(Channel(), s, acts))
  {
    InitInv(s);
    RunInv(s, acts);
    InvRingSafe(After(Channel(), s, acts));
  }

  function FreshOn(S: int, mem: Memory): State {
    State(Ring(S, 0, S - 1, 0, 0, 0), 0, mem, SIdle, RIdle, [], 0, [], [])
  }

  /**
   A used buffer can be set up for a new channel if no chunk is in use or being freed, and not while one is
   in use; where the receiver is not just freeing a message, that is an equivalence.
   */
  lemma ReuseExact(s: State)
    requires Inv(s)
    ensures Init(FreshOn(s.ring.S, s.mem)) ==> forall i :: 0 <= i < |s.chunks| ==> !InUse(s.chunks[i])
    ensures (forall i :: 0 <= i < |s.chunks| ==> !InUse(s.chunks[i]) && !s.chunks[i].stage.Freeing?)
            ==> Init(FreshOn(s.ring.S, s.mem))
    ensures !s.rpc.RFree? ==>
              (Init(FreshOn(s.ring.S, s.mem)) <==> forall i :: 0 <= i < |s.chunks| ==> !InUse(s.chunks[i]))
  {
    var t := FreshOn(s.ring.S, s.mem);
    if Init(t) {
      forall i | 0 <= i < |s.chunks| ensures !InUse(s.chunks[i]) {
        assert PlacedAt(s.ring, s.chunks, i) && HoldsIn(s, i);
        assert NotReady(t.mem, LINE * s.chunks[i].start);
      }
    }
    if !s.rpc.RFree? {
      forall i | 0 <= i < |s.chunks| ensures !s.chunks[i].stage.Freeing? {
        assert StageAt(s.chunks, s.taken, ClearingOf(s.rpc), WritingOf(s.spc, |s.chunks|), i);
      }
    }
    if forall i :: 0 <= i < |s.chunks| ==> !InUse(s.chunks[i]) && !s.chunks[i].stage.Freeing? {
      forall l | 0 <= l < t.ring.N() ensures NotReady(t.mem, LINE * l) {
        assert QuietOrBusy(s.mem, s.chunks, s.ring.S / LINE, l);
      }
    }
  }

  /** Every chunk not freed survives the step in place, and no two chunks overlap afterwards. */
  ghost predicate KeepsUnfreed(s: State, t: State) {
    && (forall i :: 0 <= i < |s.chunks| && s.chunks[i].stage != Freed ==> s.chunks[i] in t.chunks)
    && Disjoint(t.chunks, t.ring.N())
  }

  /** A decision only adds chunks. */
  lemma DecideKeeps(s: State, len: int, again: bool)
    ensures s.chunks <= Decide(s, len, again).chunks
  {
  }

  /** An allocation never takes space of a message that has not been freed. */
  lemma AllocateAvoids(s: State, a: Action)
    requires Inv(s) && Enabled(s, a) && (a.DoAllocate? || a.DoGc?)
    ensures KeepsUnfreed(s, Do(s, a))
  {
    var t := Do(s, a);
    StepInv(s, a);
    GeometryDisjoint(t.ring, t.chunks);
    if a.DoAllocate? {
      DecideKeeps(s, MessageSize(s.ring.S, a.size), false);
      PrefixKeeps(s.chunks, t.chunks);
    } else {
      GcKeeps(s);
    }
  }

  lemma PrefixKeeps(cs: seq<Chunk>, ds: seq<Chunk>)
    requires cs <= ds
    ensures forall i :: 0 <= i < |cs| ==> cs[i] in ds
  {
    assert forall i :: 0 <= i < |cs| ==> cs[i] == ds[i];
  }

  lemma GcKeeps(s: State)
    requires Inv(s) && Enabled(s, DoGc)
    ensures forall i :: 0 <= i < |s.chunks| && s.chunks[i].stage != Freed ==> s.chunks[i] in GcStep(s).chunks
  {
    GcPassesFreed(s);
    if GcTurn(s.ring.S, s.ring.head, s.ring.tail, s.spc.freed, s.mem).Stop? {
      DecideKeeps(s, s.spc.len, s.spc.again);
      PrefixKeeps(s.chunks, GcStep(s).chunks);
    } else {
      var n := Oldest(s) + 1;
      forall i | 0 <= i < |s.chunks| && s.chunks[i].stage != Freed ensures s.chunks[i] in s.chunks[n..] {
        assert s.chunks[n..][i - n] == s.chunks[i];
      }
    }
  }

  /** The collector's next turn keeps every chunk that has not been freed exactly when it is safe. */
  lemma CollectionExact(s: State)
    requires Inv(s) && s.spc.SGc?
    ensures KeepsUnfreed(s, GcStep(s)) <==> CollectionSafe(s, s.spc.len)
  {
    if CollectionSafe(s, s.spc.len) {
      AllocateAvoids(s, DoGc);
    } else if s.ring.Full() {
      UnsafeWhenFull(s);
    } else {
      GcTurnMeans(s);
      DroppedIsGone(s, 0, 1);
    }
  }

  /** A chunk among the first n is no longer there when these are dropped. */
  lemma DroppedIsGone(s: State, i: nat, n: nat)
    requires Geometry(s.ring, s.chunks) && i < n <= |s.chunks|
    ensures s.chunks[i] !in s.chunks[n..]
  {
    forall j | n <= j < |s.chunks| ensures s.chunks[j] != s.chunks[i] {
      assert EndsBefore(s.chunks, i, j) && PlacedAt(s.ring, s.chunks, i);
    }
  }

  lemma UnsafeWhenFull(s: State)
    requires Inv(s) && s.spc.SGc? && s.ring.Full() && !CollectionSafe(s, s.spc.len)
    ensures !KeepsUnfreed(s, GcStep(s))
  {
    FullTurn(s);
    var k, t := IndexAtZero(s.chunks), GcStep(s);
    if LooksFreed(s.chunks[k]) {
      var i :| 0 <= i <= k && s.chunks[i].stage != Freed;
      assert t.chunks == s.chunks[k + 1..];
      DroppedIsGone(s, i, k + 1);
    } else {
      var n := |s.chunks|;
      assert PlacedAt(s.ring, s.chunks, 0);
      assert t.chunks[n].start == t.chunks[0].start;
      assert !ApartAt(t.chunks, 0, n);
    }
  }

  /** A turn on a full buffer looks at the chunk at offset 0, whatever its neighbours are. */
  lemma FullTurn(s: State)
    requires Inv(s) && s.spc.SGc? && s.ring.Full()
    ensures var k := IndexAtZero(s.chunks);
            && k < |s.chunks|
            && GcTurn(s.ring.S, s.ring.head, s.ring.tail, s.spc.freed, s.mem)
               == if LooksFreed(s.chunks[k]) then Advance(TailAfter(s.chunks[k]), s.spc.freed + s.chunks[k].Bytes())
                   else Stop
  {
    ZeroChunk(s.ring, s.chunks);
    GcTurnMeans(s);
  }

  // ---- freeing from the last line down ----

  /** What the code enforces or could enforce on its own, and lines are cleared from the last one down. */
  ghost predicate EnabledDownwards(s: State, a: Action) {
    match a
    case DoGc => s.spc.SGc? && (s.ring.tail == s.ring.S ==> CollectionSafe(s, s.spc.len))
    case DoClearLine(low) => s.rpc.RFree? && (low ==> s.rpc.lo + 1 == s.rpc.hi)
    case _ => Enabled(s, a)
  }

  ghost function Downwards(): System<State, Action> {
    System((s: State, a: Action) => EnabledDownwards(s, a), (s: State, a: Action) => Do(s, a))
  }

  /** The ready flag of the header is the last one to go. */
  predicate HeaderUp(s: State) {
    s.rpc.RFree? ==> s.rpc.lo == 0
  }

  lemma HeaderUpSafe(s: State)
    requires Inv(s) && HeaderUp(s)
    ensures forall i :: 0 <= i < |s.chunks| && LooksFreed(s.chunks[i]) ==> s.chunks[i].stage == Freed
  {
    forall i | 0 <= i < |s.chunks| && LooksFreed(s.chunks[i]) ensures s.chunks[i].stage == Freed {
      assert StageAt(s.chunks, s.taken, ClearingOf(s.rpc), WritingOf(s.spc, |s.chunks|), i);
    }
  }

  /** Then the collector needs no discipline about messages that are being freed. */
  lemma DownwardsStep(s: State, a: Action)
    requires Inv(s) && HeaderUp(s) && EnabledDownwards(s, a)
    ensures Enabled(s, a) && Inv(Do(s, a)) && HeaderUp(Do(s, a))
  {
    HeaderUpSafe(s);
    assert Enabled(s, a);
    StepInv(s, a);
    HeaderUpStep(s, a);
  }

  lemma HeaderUpStep(s: State, a: Action)
    requires Inv(s) && HeaderUp(s) && EnabledDownwards(s, a) && Enabled(s, a)
    ensures HeaderUp(Do(s, a))
  {
    if a.DoClearLine? {
      var i :| FreeingAt(s.chunks, i, s.rpc);
      assert HoldsIn(s, i);
    }
  }

  lemma {:induction false} DownwardsIsSafe(s: State, acts: seq<Action>)
    requires Inv(s) && HeaderUp(s) && IsRun(Downwards(), s, acts)
    ensures IsRun(Channel(), s, acts) && After(Downwards(), s, acts) == After(Channel(), s, acts)
    decreases acts
  {
    if acts != [] {
      DownwardsStep(s, acts[0]);
      DownwardsIsSafe(Do(s, acts[0]), acts[1..]);
    }
  }

  // ---- delivery ----

  /** Deliveries are a prefix of the messages in allocation order, byte for byte as sent. */
  lemma Fifo(s: State, acts: seq<Action>)
    requires Init(s) && IsRun(Channel(), s, acts)
    ensures var t := After(Channel(), s, acts);
            && |t.delivered| <= |t.log|
            && (forall k :: 0 <= k < |t.delivered| ==> t.log[k] == Some(t.delivered[k]))
  {
    InitInv(s);
    RunInv(s, acts);
    var t := After(Channel(), s, acts);
    forall k | 0 <= k < |t.delivered| ensures t.log[k] == Some(t.delivered[k]) {
      assert DeliveredAt(t.log, t.delivered, k);
    }
  }

  /** A message handed to the receiver stays as delivered in the buffer until it is freed. */
  lemma HeldUntilFreed(s: State, acts: seq<Action>, i: nat)
    requires Init(s) && IsRun(Channel(), s, acts)
    requires i < |After(Channel(), s, acts).chunks| && After(Channel(), s, acts).chunks[i].stage == Taken
    requires !After(Channel(), s, acts).chunks[i].wrap
    ensures var t := After(Channel(), s, acts);
            var c := t.chunks[i];
            c.id < |t.delivered| && Payload(t.mem, c.Off(), c.size) == t.delivered[c.id]
  {
    InitInv(s);
    RunInv(s, acts);
    var t := After(Channel(), s, acts);
    var c := t.chunks[i];
    assert HoldsIn(t, i) && StageAt(t.chunks, t.taken, ClearingOf(t.rpc), WritingOf(t.spc, |t.chunks|), i);
    assert IdBefore(t.chunks, i, t.taken) && IdBefore(t.chunks, i, |t.chunks| - 1);
    assert DeliveredAt(t.log, t.delivered, c.id);
  }

  /** What has been sent is never sent again or altered, and deliveries are only appended. */
  lemma StepExtends(s: State, a: Action)
    requires Inv(s) && Enabled(s, a)
    ensures s.delivered <= Do(s, a).delivered
    ensures |s.log| <= |Do(s, a).log|
    ensures forall k :: 0 <= k < |s.log| && s.log[k].Some? ==> Do(s, a).log[k] == s.log[k]
  {
    if a.DoSend? {
      assert HoldsIn(s, a.i) && StageAt(s.chunks, s.taken, ClearingOf(s.rpc), WritingOf(s.spc, |s.chunks|), a.i);
      assert s.log[s.chunks[a.i].id] == None;
    }
  }

  /** What the receiver's first two steps find out about the chunk at next. */
  lemma ObserveGo(s: State)
    requires Inv(s) && s.rpc == RIdle && s.taken < |s.chunks| && s.chunks[s.taken].stage == Sent
    ensures var c := s.chunks[s.taken];
            Leads(s, [DoPoll, DoReadSize], s.(rpc := if c.wrap then RSkip else RTake(c.size)))
  {
    assert HoldsIn(s, s.taken) && PlacedAt(s.ring, s.chunks, s.taken);
    var u := s.(rpc := RReady);
    Go(s, DoPoll, u);
    Go(u, DoReadSize, ReadSize(u));
    LeadsOn(s, [DoPoll], u, [DoReadSize], ReadSize(u));
    assert [DoPoll] + [DoReadSize] == [DoPoll, DoReadSize];
  }

  /** The next message, once sent, is what the receiver's three steps hand over. */
  lemma ReceiveDelivers(s: State)
    requires Inv(s) && s.rpc == RIdle
    requires s.taken < |s.chunks| && s.chunks[s.taken].stage == Sent && !s.chunks[s.taken].wrap
    ensures var c := s.chunks[s.taken];
            var t := TakeStep(s.(rpc := RTake(c.size)), c.size);
            && Leads(s, [DoPoll, DoReadSize, DoTake], t)
            && |s.delivered| < |s.log| && s.log[|s.delivered|].Some?
            && t.delivered == s.delivered + [s.log[|s.delivered|].value]
  {
    var c := s.chunks[s.taken];
    var v := s.(rpc := RTake(c.size));
    ObserveGo(s);
    Go(v, DoTake, TakeStep(v, c.size));
    LeadsOn(s, [DoPoll, DoReadSize], v, [DoTake], TakeStep(v, c.size));
    assert [DoPoll, DoReadSize] + [DoTake] == [DoPoll, DoReadSize, DoTake];
    assert HoldsIn(s, s.taken);
  }

  /** A sentinel is passed without a delivery. */
  lemma SentinelIsSkipped(s: State)
    requires Inv(s) && s.rpc == RIdle
    requires s.taken < |s.chunks| && s.chunks[s.taken].stage == Sent && s.chunks[s.taken].wrap
    ensures var t := ClearStep(SkipStep(s.(rpc := RSkip)), s.next);
            && Leads(s, [DoPoll, DoReadSize, DoSkip, DoClear], t)
            && t.delivered == s.delivered && t.taken == s.taken + 1 && t.next == 0
  {
    var v := s.(rpc := RSkip);
    var w := SkipStep(v);
    ObserveGo(s);
    Go(v, DoSkip, w);
    Go(w, DoClear, ClearStep(w, s.next));
    LeadsOn(s, [DoPoll, DoReadSize], v, [DoSkip], w);
    assert [DoPoll, DoReadSize] + [DoSkip] == [DoPoll, DoReadSize, DoSkip];
    LeadsOn(s, [DoPoll, DoReadSize, DoSkip], w, [DoClear], ClearStep(w, s.next));
    assert [DoPoll, DoReadSize, DoSkip] + [DoClear] == [DoPoll, DoReadSize, DoSkip, DoClear];
  }

  /** A poll mistakes an old message for a new one in exactly one situation: received, unfreed, full. */
  lemma PollExact(s: State)
    requires Inv(s) && s.rpc == RIdle
    ensures !NotReady(s.mem, s.next) && s.taken == |s.chunks| <==> NothingFreed(s)
  {
    if NothingFreed(s) {
      assert PlacedAt(s.ring, s.chunks, 0) && HoldsIn(s, 0);
      assert StageAt(s.chunks, s.taken, ClearingOf(s.rpc), WritingOf(s.spc, |s.chunks|), 0);
    } else if !NotReady(s.mem, s.next) {
      PollSeesNew(s);
    }
  }

  /** And then the same bytes are delivered a second time. */
  lemma RedeliversOldest(s: State)
    requires Inv(s) && s.rpc == RIdle && NothingFreed(s)
    ensures var v := ReadSize(Poll(s));
            && v.rpc.RTake?
            && s.chunks[0].id < |s.delivered|
            && TakeStep(v, v.rpc.size).delivered == s.delivered + [s.delivered[s.chunks[0].id]]
  {
    assert PlacedAt(s.ring, s.chunks, 0) && HoldsIn(s, 0);
    assert StageAt(s.chunks, s.taken, ClearingOf(s.rpc), WritingOf(s.spc, |s.chunks|), 0);
    assert IdBefore(s.chunks, 0, |s.chunks| - 1);
    assert DeliveredAt(s.log, s.delivered, s.chunks[0].id);
  }
}
