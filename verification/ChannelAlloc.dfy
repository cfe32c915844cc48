/** Allocation and garbage collection keep the invariant of the channel. */
module ChannelAlloc {
  import opened Options
  import opened ChannelCode
  import opened ChannelModel
  import opened ChannelGeometry
  import opened ChannelInvariant
  import opened ChannelSteps

  // ---- a fresh chunk ----

  lemma StoredExtend(S: int, m: Memory, log: Log, cs: seq<Chunk>, c: Chunk, log': Log)
    requires Stored(S, m, log, cs, -1) && c.stage == Raw
    requires |log| <= |log'| && log'[..|log|] == log
    requires !c.wrap ==> c.id < |log'| && log'[c.id] == None
    ensures Stored(S, m, log', cs + [c], -1)
  {
    forall i ensures HoldsAt(m, log', cs + [c], -1, i) {
      assert HoldsAt(m, log, cs, -1, i);
      if 0 <= i < |cs| && cs[i].id < |log| { assert log'[cs[i].id] == log'[..|log|][cs[i].id]; }
    }
    forall l ensures QuietOrBusy(m, cs + [c], S / LINE, l) {
      assert QuietOrBusy(m, cs, S / LINE, l);
      if Busy(cs, l) {
        var i :| 0 <= i < |cs| && Covers(cs[i], l);
        assert Covers((cs + [c])[i], l);
      }
    }
  }

  lemma StagesExtend(cs: seq<Chunk>, taken: int, clearing: ReceiverPc, writing: int, c: Chunk)
    requires Stages(cs, taken, clearing, writing) && writing <= |cs| && c.stage == Raw
    ensures Stages(cs + [c], taken, clearing, writing)
  {
    forall i ensures StageAt(cs + [c], taken, clearing, writing, i) { assert StageAt(cs, taken, clearing, writing, i); }
  }

  lemma NumberedExtend(cs: seq<Chunk>, count: int, c: Chunk)
    requires Numbered(cs, count) && c.id == count
    ensures Numbered(cs + [c], IdAfter(c))
  {
    forall i, j ensures IdBefore(cs + [c], i, j) {
      assert IdBefore(cs, i, j) && IdBefore(cs, i, |cs| - 1);
    }
  }

  lemma InOrderExtend(log: Log, delivered: seq<seq<Byte>>)
    requires InOrder(log, delivered)
    ensures InOrder(log + [None], delivered)
  {
    forall k ensures DeliveredAt(log + [None], delivered, k) { assert DeliveredAt(log, delivered, k); }
  }

  /** The receiver does not notice chunks behind the ones it is looking at. */
  lemma ExtendInv(s: State, r: Ring, spc: SenderPc, c: Chunk, log: Log)
    requires Inv(s) && !s.spc.SWrap? && !s.spc.SInit?
    requires Geometry(r, s.chunks + [c]) && r.S == s.ring.S
    requires c.stage == Raw && c.id == |s.log| && c.Off() == s.ring.head
    requires log == (if c.wrap then s.log else s.log + [None])
    requires PendingOf(spc, |s.chunks| + 1) == -1 && WritingOf(spc, |s.chunks| + 1) == |s.chunks|
    requires SenderOk(spc, r, s.mem, s.chunks + [c])
    ensures Inv(s.(ring := r, spc := spc, chunks := s.chunks + [c], log := log))
  {
    var t := s.(ring := r, spc := spc, chunks := s.chunks + [c], log := log);
    StoredExtend(s.ring.S, s.mem, s.log, s.chunks, c, log);
    StagesExtend(s.chunks, s.taken, ClearingOf(s.rpc), |s.chunks|, c);
    NumberedExtend(s.chunks, |s.log|, c);
    if !c.wrap { InOrderExtend(s.log, s.delivered); }
    if s.rpc.RFree? { ReceiverKeeps(s.rpc, s.chunks, t.chunks, s.taken, s.rpc, |s.chunks|); }
  }

  lemma AtHeadInv(s: State, len: int, again: bool)
    requires Inv(s) && !s.spc.SWrap? && !s.spc.SInit? && s.ring.tail != s.ring.S && WholeLines(s.ring.S, len)
    requires FindRoom(s.ring.S, s.ring.head, s.ring.tail, len) == AtHead
    ensures Inv(Decide(s, len, again))
  {
    var c := Message(s.ring.hi, s.ring.head, len, |s.log|);
    AtHeadGeometry(s.ring, s.chunks, len, |s.log|);
    ExtendInv(s, RingAtHead(s.ring, len), SInit(s.ring.head, len, 0), c, s.log + [None]);
  }

  /** The rest of the lap becomes a sentinel. */
  lemma GivenUpInv(s: State)
    requires Inv(s) && !s.spc.SWrap? && !s.spc.SInit? && s.ring.tail != s.ring.S && s.ring.head > s.ring.tail
    ensures Inv(s.(ring := RingGivenUp(s.ring), spc := SWrap(s.ring.head, 0, 0),
            chunks := s.chunks + [Sentinel(s.ring, |s.log|)]))
  {
    GivenUpGeometry(s.ring, s.chunks, |s.log|);
    ExtendInv(s, RingGivenUp(s.ring), SWrap(s.ring.head, 0, 0), Sentinel(s.ring, |s.log|), s.log);
  }

  lemma AtZeroInv(s: State, len: int, again: bool)
    requires Inv(s) && !s.spc.SWrap? && !s.spc.SInit? && s.ring.tail != s.ring.S && WholeLines(s.ring.S, len)
    requires FindRoom(s.ring.S, s.ring.head, s.ring.tail, len) == AtZero
    ensures Inv(Decide(s, len, again))
  {
    var t := Decide(s, len, again);
    var u, c := Sentinel(s.ring, |s.log|), Message(RingGivenUp(s.ring).hi, 0, len, |s.log|);
    var cs := s.chunks + [u];
    GivenUpInv(s);
    AtZeroGeometry(s.ring, s.chunks, len, |s.log|);
    StoredExtend(s.ring.S, s.mem, s.log, cs, c, s.log + [None]);
    StagesExtend(cs, s.taken, ClearingOf(s.rpc), |s.chunks|, c);
    NumberedExtend(cs, |s.log|, c);
    InOrderExtend(s.log, s.delivered);
    if s.rpc.RFree? { ReceiverKeeps(s.rpc, s.chunks, t.chunks, s.taken, s.rpc, |s.chunks|); }
  }

  lemma DecideInv(s: State, len: int, again: bool)
    requires Inv(s) && !s.spc.SWrap? && !s.spc.SInit? && WholeLines(s.ring.S, len)
    requires s.ring.tail == s.ring.S ==> FindRoom(s.ring.S, s.ring.head, s.ring.tail, len) == NoRoom
    ensures Inv(Decide(s, len, again))
  {
    var r := s.ring;
    match FindRoom(r.S, r.head, r.tail, len)
    case AtHead => AtHeadInv(s, len, again);
    case AtZero => AtZeroInv(s, len, again);
    case NoRoom =>
      if again && r.head > r.tail { GivenUpInv(s); } else { InitialFreedOk(r); }
  }

  // ---- the collector ----

  lemma InitialFreedOk(r: Ring)
    requires Ends(r)
    ensures FreedOk(r, InitialFreed(r.S, r.head, r.tail))
  {
  }

  lemma MessageSizeWhole(S: int, size: int)
    requires GoodSize(S) && size > 0
    ensures MessageSize(S, size) == 0 || (WholeLines(S, MessageSize(S, size)) && MessageSize(S, size) >= size + HEADER)
  {
  }

  lemma BeginInv(s: State, size: int)
    requires Inv(s) && Enabled(s, DoAllocate(size))
    ensures Inv(Begin(s, size))
  {
    MessageSizeWhole(s.ring.S, size);
    var len := MessageSize(s.ring.S, size);
    if len != 0 {
      if s.ring.tail == s.ring.S { InitialFreedOk(s.ring); } else { DecideInv(s, len, false); }
    }
  }

  /** Offset the collector reads: that of the oldest chunk, or 0 in a full buffer. */
  lemma GcLooksAt(s: State)
    requires Inv(s) && s.spc.SGc? && s.chunks != []
    ensures Oldest(s) < |s.chunks|
    ensures s.chunks[Oldest(s)].Off() == if s.ring.tail + 1 >= s.ring.S then 0 else s.ring.tail + 1
  {
    assert PlacedAt(s.ring, s.chunks, 0);
    if s.ring.Full() { ZeroChunk(s.ring, s.chunks); }
  }

  /** The two stopping tests fire exactly when the buffer is empty. */
  lemma StopsWhenEmpty(r: Ring, freed: int)
    requires Ends(r) && FreedOk(r, freed)
    ensures r.tail + 1 == r.head || freed == r.S <==> r.lo == r.hi
  {
  }

  /** What one turn does: stop at an empty buffer or at a chunk in use, else pass the freed chunk. */
  lemma GcTurnMeans(s: State)
    requires Inv(s) && s.spc.SGc?
    ensures var g := GcTurn(s.ring.S, s.ring.head, s.ring.tail, s.spc.freed, s.mem);
            if s.chunks == [] then g == Stop
            else
              && Oldest(s) < |s.chunks|
              && var c := s.chunks[Oldest(s)];
                 g == if LooksFreed(c) then Advance(TailAfter(c), s.spc.freed + c.Bytes()) else Stop
  {
    StopsWhenEmpty(s.ring, s.spc.freed);
    if s.chunks != [] {
      assert PlacedAt(s.ring, s.chunks, 0);
      GcLooksAt(s);
      var k := Oldest(s);
      var c := s.chunks[k];
      assert PlacedAt(s.ring, s.chunks, k) && HoldsIn(s, k);
      assert StageAt(s.chunks, s.taken, ClearingOf(s.rpc), WritingOf(s.spc, |s.chunks|), k);
      if LooksFreed(c) { FreedQuiet(s, k); }
    }
  }

  lemma FreedQuiet(s: State, k: int)
    requires Inv(s) && 0 <= k < |s.chunks| && LooksFreed(s.chunks[k])
    ensures Quiet(s.mem, s.chunks[k].start)
  {
    GeometryDisjoint(s.ring, s.chunks);
    assert InBuffer(s.chunks, s.ring.N(), k);
    IdleQuiet(s.ring.S, s.mem, s.log, s.chunks, PendingIn(s), k, s.chunks[k].start);
  }

  lemma FreedAfter(r: Ring, cs: seq<Chunk>, n: nat, freed: int)
    requires Geometry(r, cs) && 0 < n <= |cs| && FreedOk(r, freed)
    requires if r.Full() then n == IndexAtZero(cs) + 1 else n == 1
    ensures FreedOk(RingDropped(r, cs, n).(tail := TailAfter(cs[n - 1])), freed + cs[n - 1].Bytes())
  {
    assert PlacedAt(r, cs, n - 1);
    DropEnds(r, cs, n);
    if r.Full() { ZeroChunk(r, cs); }
  }

  lemma StoredDrop(S: int, m: Memory, log: Log, cs: seq<Chunk>, n: nat)
    requires Stored(S, m, log, cs, -1) && n <= |cs| && (forall i :: 0 <= i < n ==> cs[i].stage == Freed)
    ensures Stored(S, m, log, cs[n..], -1)
  {
    forall i ensures HoldsAt(m, log, cs[n..], -1, i) { assert HoldsAt(m, log, cs, -1, n + i); }
    forall l ensures QuietOrBusy(m, cs[n..], S / LINE, l) {
      assert QuietOrBusy(m, cs, S / LINE, l);
      if Busy(cs, l) {
        var i :| 0 <= i < |cs| && Covers(cs[i], l);
        assert Covers(cs[n..][i - n], l);
      }
    }
  }

  lemma StagesDrop(cs: seq<Chunk>, taken: int, clearing: ReceiverPc, n: nat)
    requires Stages(cs, taken, clearing, |cs|) && n <= |cs| && (forall i :: 0 <= i < n ==> cs[i].stage == Freed)
    ensures n <= taken && Stages(cs[n..], taken - n, clearing, |cs[n..]|)
  {
    assert n > 0 ==> StageAt(cs, taken, clearing, |cs|, n - 1);
    var ds, t, w := cs[n..], taken - n, |cs[n..]|;
    forall i ensures StageAt(ds, t, clearing, w, i) { assert StageAt(cs, taken, clearing, |cs|, n + i); }
  }

  lemma NumberedDrop(cs: seq<Chunk>, count: int, n: nat)
    requires Numbered(cs, count) && n <= |cs|
    ensures Numbered(cs[n..], count)
  {
    forall i, j ensures IdBefore(cs[n..], i, j) { assert IdBefore(cs, n + i, n + j); }
  }

  lemma AdvanceInv(s: State, n: nat, freed: int)
    requires Inv(s) && s.spc.SGc? && 0 < n <= |s.chunks| && (forall i :: 0 <= i < n ==> s.chunks[i].stage == Freed)
    requires FreedOk(RingDropped(s.ring, s.chunks, n).(tail := TailAfter(s.chunks[n - 1])), freed)
    ensures Inv(s.(ring := RingDropped(s.ring, s.chunks, n).(tail := TailAfter(s.chunks[n - 1])),
                   spc := SGc(s.spc.len, s.spc.again, freed),
                   chunks := s.chunks[n..], taken := if s.taken >= n then s.taken - n else 0))
  {
    DropGeometry(s.ring, s.chunks, n);
    StoredDrop(s.ring.S, s.mem, s.log, s.chunks, n);
    StagesDrop(s.chunks, s.taken, ClearingOf(s.rpc), n);
    NumberedDrop(s.chunks, |s.log|, n);
    assert StageAt(s.chunks, s.taken, ClearingOf(s.rpc), |s.chunks|, n - 1);
    if s.rpc.RFree? {
      var i :| FreeingAt(s.chunks, i, s.rpc);
      assert FreeingAt(s.chunks[n..], i - n, s.rpc);
    }
  }

  /** A turn only passes freed chunks; in a full buffer it stops only before a request that has no room. */
  lemma GcPassesFreed(s: State)
    requires Inv(s) && Enabled(s, DoGc)
    ensures var g := GcTurn(s.ring.S, s.ring.head, s.ring.tail, s.spc.freed, s.mem);
            if g.Stop? then s.ring.Full() ==> FindRoom(s.ring.S, s.ring.head, s.ring.tail, s.spc.len) == NoRoom
            else
              && Oldest(s) < |s.chunks|
              && g == Advance(TailAfter(s.chunks[Oldest(s)]), s.spc.freed + s.chunks[Oldest(s)].Bytes())
              && (forall i :: 0 <= i <= Oldest(s) ==> s.chunks[i].stage == Freed)
  {
    GcTurnMeans(s);
  }

  lemma GcAdvanceInv(s: State, n: nat, tail: int, freed: int)
    requires Inv(s) && s.spc.SGc? && n == Oldest(s) + 1 <= |s.chunks|
    requires tail == TailAfter(s.chunks[n - 1]) && freed == s.spc.freed + s.chunks[n - 1].Bytes()
    requires forall i :: 0 <= i < n ==> s.chunks[i].stage == Freed
    ensures Inv(s.(ring := RingDropped(s.ring, s.chunks, n).(tail := tail), spc := SGc(s.spc.len, s.spc.again, freed),
                   chunks := s.chunks[n..], taken := if s.taken >= n then s.taken - n else 0))
  {
    FreedAfter(s.ring, s.chunks, n, s.spc.freed);
    AdvanceInv(s, n, freed);
  }

  lemma GcInv(s: State)
    requires Inv(s) && Enabled(s, DoGc)
    ensures Inv(GcStep(s))
  {
    GcPassesFreed(s);
    var g := GcTurn(s.ring.S, s.ring.head, s.ring.tail, s.spc.freed, s.mem);
    if g.Stop? {
      DecideInv(s, s.spc.len, s.spc.again);
    } else {
      var n := Oldest(s) + 1;
      GcAdvanceInv(s, n, g.tail, g.freed);
      assert GcStep(s) == s.(ring := RingDropped(s.ring, s.chunks, n).(tail := g.tail),
          spc := SGc(s.spc.len, s.spc.again, g.freed),
                             chunks := s.chunks[n..], taken := if s.taken >= n then s.taken - n else 0);
    }
  }
}
