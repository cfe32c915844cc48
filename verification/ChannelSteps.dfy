/** Every write of the sender and every step of the receiver keeps the invariant of the channel. */
module ChannelSteps {
  import opened ChannelCode
  import opened ChannelModel
  import opened ChannelGeometry
  import opened ChannelInvariant

  ghost predicate StagesOf(s: State) {
    Stages(s.chunks, s.taken, ClearingOf(s.rpc), WritingOf(s.spc, |s.chunks|))
  }

  function PendingIn(s: State): int {
    PendingOf(s.spc, |s.chunks|)
  }

  ghost predicate HoldsIn(s: State, i: int) {
    HoldsAt(s.mem, s.log, s.chunks, PendingIn(s), i)
  }

  ghost predicate TouchesIn(s: State, t: State, j: int) {
    Touches(s.chunks, s.mem, s.log, t.chunks, t.mem, t.log, j)
  }

  // ---- writes of the sender ----

  /** A step of the sender that writes into chunk j of its own. */
  lemma SenderTouch(s: State, t: State, j: int)
    requires Inv(s) && TouchesIn(s, t, j)
    requires t == s.(mem := t.mem, chunks := t.chunks, log := t.log, spc := t.spc)
    requires j >= s.taken && StagesOf(t)
    requires PendingIn(s) == PendingIn(t) || (PendingIn(s) in {j, -1} && PendingIn(t) in {j, -1})
    requires Holds(t.mem, t.log, t.chunks[j], j == PendingIn(t))
    requires forall l :: LineOk(t.chunks[j], t.mem, l)
    requires s.chunks[j].stage == Sent ==> t.chunks[j] == s.chunks[j]
    requires InUse(s.chunks[j]) ==> InUse(t.chunks[j])
    requires SenderOk(t.spc, t.ring, t.mem, t.chunks)
    ensures Inv(t)
  {
    GeometryDisjoint(s.ring, s.chunks);
    TouchStored(s.ring.S, s.chunks, s.mem, s.log, PendingIn(s), t.chunks, t.mem, t.log, PendingIn(t), j);
    TouchNumbered(s.chunks, s.mem, s.log, t.chunks, t.mem, t.log, j, s.taken, s.ring.head);
    SamePlaceGeometry(s.ring, s.chunks, j, t.chunks[j]);
    assert IdBefore(s.chunks, s.taken, j);
    if s.rpc.RFree? { ReceiverKeeps(s.rpc, s.chunks, t.chunks, s.taken, s.rpc, WritingOf(s.spc, |s.chunks|)); }
    TouchInOrder(s.chunks, s.mem, s.log, t.chunks, t.mem, t.log, j, s.delivered);
  }

  lemma SentinelWriteMemory(S: int, m: Memory, c: Chunk, k: nat)
    requires SentinelOk(m, S, c, c.Off(), k) && 0 <= c.start && 0 < c.len && c.Off() + c.Bytes() == |m| == S < 65536
    ensures var m' := WriteSentinel(S, m, c.Off(), k);
            && SameOut(m, m', c.Off(), c.Bytes())
            && (k < 2 ==> SentinelOk(m', S, c, c.Off(), k + 1))
            && (k == 2 ==> SizeOf(m', c.Off()) == WRAP && AllocedOf(m', c.Off()) == c.Bytes() && IsReady(m', c.Off()))
            && (forall l :: c.start <= l < c.start + c.len && (k < 2 || l != c.start) && Quiet(m, l) ==> Quiet(m', l))
  {
  }

  lemma SentinelWriteInv(s: State)
    requires Inv(s) && s.spc.SWrap?
    ensures Inv(WriteStep(s))
  {
    var t := WriteStep(s);
    var j := |s.chunks| - (if s.spc.msgLen > 0 then 2 else 1);
    assert PlacedAt(s.ring, s.chunks, j);
    SentinelWriteMemory(s.ring.S, s.mem, s.chunks[j], s.spc.written);
    SentinelWriteRest(s, t, j);
    if s.spc.written < 2 { EarlySentinelWrite(s, t, j); } else { LastSentinelWrite(s, t, j); }
  }

  lemma EarlySentinelWrite(s: State, t: State, j: int)
    requires Inv(s) && 0 <= j < |s.chunks| && SentinelOk(s.mem, s.ring.S, s.chunks[j], s.chunks[j].Off(), 0)
    requires s.spc.SWrap? && t.spc.SWrap? && t == s.(mem := t.mem, spc := t.spc) && StagesOf(t) && j >= s.taken
    requires SameOut(s.mem, t.mem, s.chunks[j].Off(), s.chunks[j].Bytes())
    requires forall l ::
               s.chunks[j].start <= l < s.chunks[j].start + s.chunks[j].len && Quiet(s.mem, l) ==> Quiet(t.mem, l)
    requires SenderOk(t.spc, t.ring, t.mem, t.chunks)
    ensures Inv(t)
  {
    SentinelWriteLines(s, t.mem, t.chunks[j], j);
    SenderTouch(s, t, j);
  }

  lemma LastSentinelWrite(s: State, t: State, j: int)
    requires Inv(s) && 0 <= j < |s.chunks| && SentinelOk(s.mem, s.ring.S, s.chunks[j], s.chunks[j].Off(), 0)
    requires s.spc.SWrap? && (t.spc.SIdle? || (t.spc.SInit? && t.spc.written == 0)) && StagesOf(t) && j >= s.taken
    requires t == s.(mem := t.mem, spc := t.spc, chunks := s.chunks[j := s.chunks[j].(stage := Sent)])
    requires SameOut(s.mem, t.mem, s.chunks[j].Off(), s.chunks[j].Bytes())
    requires SizeOf(t.mem, s.chunks[j].Off()) == WRAP && AllocedOf(t.mem, s.chunks[j].Off()) == s.chunks[j].Bytes()
    requires IsReady(t.mem, s.chunks[j].Off())
    requires forall l ::
               s.chunks[j].start < l < s.chunks[j].start + s.chunks[j].len && Quiet(s.mem, l) ==> Quiet(t.mem, l)
    requires SenderOk(t.spc, t.ring, t.mem, t.chunks)
    ensures Inv(t)
  {
    SentinelWriteLines(s, t.mem, t.chunks[j], j);
    SenderTouch(s, t, j);
  }

  lemma SentinelWriteLines(s: State, m: Memory, d: Chunk, j: int)
    requires Geometry(s.ring, s.chunks) && Stored(s.ring.S, s.mem, s.log, s.chunks, PendingIn(s))
    requires 0 <= j < |s.chunks| && SentinelOk(s.mem, s.ring.S, s.chunks[j], s.chunks[j].Off(), 0)
    requires SamePlace(s.chunks[j], d)
    requires forall l ::
               d.start <= l < d.start + d.len && (d.stage == Raw || l != d.start) && Quiet(s.mem, l) ==> Quiet(m, l)
    requires d.stage == Raw || d.stage == Sent
    ensures forall l :: LineOk(d, m, l)
  {
    var c := s.chunks[j];
    GeometryDisjoint(s.ring, s.chunks);
    forall l ensures LineOk(d, m, l) {
      if c.start <= l < c.start + c.len { IdleQuiet(s.ring.S, s.mem, s.log, s.chunks, PendingIn(s), j, l); }
    }
  }

  /** The message that follows the sentinel is still untouched. */
  lemma SentinelWriteRest(s: State, t: State, j: int)
    requires StagesOf(s) && SenderOk(s.spc, s.ring, s.mem, s.chunks) && s.spc.SWrap?
    requires t == WriteStep(s) && j == |s.chunks| - (if s.spc.msgLen > 0 then 2 else 1)
    requires s.spc.written < 2 ==> SentinelOk(t.mem, s.ring.S, s.chunks[j], s.spc.at, s.spc.written + 1)
    ensures StagesOf(t) && SenderOk(t.spc, t.ring, t.mem, t.chunks) && j >= s.taken
  {
    assert StageAt(s.chunks, s.taken, ClearingOf(s.rpc), WritingOf(s.spc, |s.chunks|), j);
    forall i ensures StageAt(t.chunks, t.taken, ClearingOf(t.rpc), WritingOf(t.spc, |t.chunks|), i) {
      assert StageAt(s.chunks, s.taken, ClearingOf(s.rpc), WritingOf(s.spc, |s.chunks|), i);
    }
  }

  lemma FreshWriteMemory(m: Memory, c: Chunk, k: nat)
    requires FreshOk(m, c, c.Off(), c.Bytes(), k) && 0 <= c.start && 0 < c.len && c.Off() + c.Bytes() <= |m| < 65536
    requires k == 2 ==> IsReady(m, c.Off())
    ensures var m' := WriteHeader(m, c.Off(), c.Bytes(), k);
            && SameOut(m, m', c.Off(), c.Bytes())
            && SizeOf(m', c.Off()) == 0
            && (k > 0 ==> IsReady(m', c.Off()))
            && (k == 2 ==> AllocedOf(m', c.Off()) == c.Bytes())
            && (forall l :: c.start <= l < c.start + c.len && k == 0 && Quiet(m, l) ==> Quiet(m', l))
  {
  }

  lemma HeaderWriteInv(s: State)
    requires Inv(s) && s.spc.SInit?
    ensures Inv(WriteStep(s))
  {
    var t := WriteStep(s);
    var j := |s.chunks| - 1;
    assert PlacedAt(s.ring, s.chunks, j) && HoldsIn(s, j);
    FreshWriteMemory(s.mem, s.chunks[j], s.spc.written);
    HeaderWriteLines(s, t.mem, t.chunks[j], j);
    HeaderWriteRest(s, t);
    SenderTouch(s, t, j);
  }

  lemma HeaderWriteLines(s: State, m: Memory, d: Chunk, j: int)
    requires Geometry(s.ring, s.chunks) && Stored(s.ring.S, s.mem, s.log, s.chunks, PendingIn(s))
    requires 0 <= j < |s.chunks| && !s.chunks[j].wrap && SamePlace(s.chunks[j], d)
    requires InUse(d) || s.chunks[j].stage == Raw
    requires InUse(d) || forall l :: d.start <= l < d.start + d.len && Quiet(s.mem, l) ==> Quiet(m, l)
    ensures forall l :: LineOk(d, m, l)
  {
    var c := s.chunks[j];
    GeometryDisjoint(s.ring, s.chunks);
    forall l ensures LineOk(d, m, l) {
      if c.start <= l < c.start + c.len && !InUse(d) {
        IdleQuiet(s.ring.S, s.mem, s.log, s.chunks, PendingIn(s), j, l);
      }
    }
  }

  lemma HeaderWriteRest(s: State, t: State)
    requires StagesOf(s) && SenderOk(s.spc, s.ring, s.mem, s.chunks) && s.spc.SInit?
    requires t == WriteStep(s) && SizeOf(t.mem, s.spc.start) == 0
    ensures StagesOf(t) && SenderOk(t.spc, t.ring, t.mem, t.chunks) && |s.chunks| - 1 >= s.taken
  {
    assert StageAt(s.chunks, s.taken, ClearingOf(s.rpc), WritingOf(s.spc, |s.chunks|), |s.chunks| - 1);
    forall i ensures StageAt(t.chunks, t.taken, ClearingOf(t.rpc), WritingOf(t.spc, |t.chunks|), i) {
      assert StageAt(s.chunks, s.taken, ClearingOf(s.rpc), WritingOf(s.spc, |s.chunks|), i);
    }
  }

  lemma PokeInv(s: State, i: nat, addr: int, b: Byte)
    requires Inv(s) && Enabled(s, DoPoke(i, addr, b))
    ensures Inv(Poke(s, addr, b))
  {
    var t := Poke(s, addr, b);
    GeometryDisjoint(s.ring, s.chunks);
    assert StageAt(s.chunks, s.taken, ClearingOf(s.rpc), WritingOf(s.spc, |s.chunks|), i) && HoldsIn(s, i);
    SenderTouch(s, t, i);
  }

  lemma SendMemory(m: Memory, c: Chunk, size: int)
    requires 0 <= c.start && 0 < c.len && c.Off() + c.Bytes() <= |m| < 65536 && 0 < size <= c.Bytes() - HEADER
    ensures var m' := SetSize(m, c.Off(), size);
            && SameOut(m, m', c.Off(), c.Bytes())
            && SizeOf(m', c.Off()) == size && AllocedOf(m', c.Off()) == AllocedOf(m, c.Off())
            && (IsReady(m, c.Off()) ==> IsReady(m', c.Off()))
            && Payload(m', c.Off(), size) == Payload(m, c.Off(), size)
  {
  }

  lemma SendInv(s: State, i: nat, size: int)
    requires Inv(s) && Enabled(s, DoSend(i, size))
    ensures Inv(Send(s, i, size))
  {
    var t := Send(s, i, size);
    var c := s.chunks[i];
    GeometryDisjoint(s.ring, s.chunks);
    assert InBuffer(s.chunks, s.ring.N(), i) && HoldsIn(s, i);
    assert StageAt(s.chunks, s.taken, ClearingOf(s.rpc), WritingOf(s.spc, |s.chunks|), i);
    SendMemory(s.mem, c, size);
    forall k ensures StageAt(t.chunks, t.taken, ClearingOf(t.rpc), WritingOf(t.spc, |t.chunks|), k) {
      assert StageAt(s.chunks, s.taken, ClearingOf(s.rpc), WritingOf(s.spc, |s.chunks|), k);
    }
    SenderTouch(s, t, i);
  }

  // ---- receiver ----

  /** A ready flag at next is that of a chunk the receiver has not seen. */
  lemma PollSeesNew(s: State)
    requires Inv(s) && s.rpc == RIdle && !NothingFreed(s) && !NotReady(s.mem, s.next)
    ensures s.taken < |s.chunks| && InUse(s.chunks[s.taken])
  {
    GeometryDisjoint(s.ring, s.chunks);
    if s.taken < |s.chunks| {
      var c := s.chunks[s.taken];
      assert InBuffer(s.chunks, s.ring.N(), s.taken);
      assert StageAt(s.chunks, s.taken, ClearingOf(s.rpc), WritingOf(s.spc, |s.chunks|), s.taken);
      if !InUse(c) { IdleQuiet(s.ring.S, s.mem, s.log, s.chunks, PendingIn(s), s.taken, c.start); }
    } else if !s.ring.Full() {
      HeadQuiet(s.ring, s.mem, s.log, s.chunks, PendingIn(s));
    } else {
      assert PlacedAt(s.ring, s.chunks, 0);
      IdleQuiet(s.ring.S, s.mem, s.log, s.chunks, PendingIn(s), 0, s.chunks[0].start);
    }
  }

  /** Moving from one observation to the next changes nothing else. */
  lemma ObserveInv(s: State, rpc: ReceiverPc)
    requires Inv(s) && ClearingOf(s.rpc) == ClearingOf(rpc) == RIdle && ReceiverOk(rpc, s.chunks, s.taken)
    ensures Inv(s.(rpc := rpc))
  {
  }

  lemma PollInv(s: State)
    requires Inv(s) && Enabled(s, DoPoll)
    ensures Inv(Poll(s))
  {
    if !NotReady(s.mem, s.next) {
      PollSeesNew(s);
      ObserveInv(s, RReady);
    }
  }

  lemma ReadSizeInv(s: State)
    requires Inv(s) && Enabled(s, DoReadSize)
    ensures Inv(ReadSize(s))
  {
    assert PlacedAt(s.ring, s.chunks, s.taken) && HoldsIn(s, s.taken);
    assert StageAt(s.chunks, s.taken, ClearingOf(s.rpc), WritingOf(s.spc, |s.chunks|), s.taken);
    ObserveInv(s, ReadSize(s).rpc);
  }

  /** A step of the receiver that changes the stage of chunk j, which the sender is done with. */
  lemma ReceiverTouch(s: State, t: State, j: int)
    requires Inv(s) && TouchesIn(s, t, j)
    requires t == s.(mem := t.mem, chunks := t.chunks, rpc := t.rpc, next := t.next, taken := t.taken,
             delivered := t.delivered)
    requires s.chunks[j].stage == Sent || s.chunks[j].stage == Taken || s.chunks[j].stage.Freeing?
    requires StagesOf(t)
    requires Holds(t.mem, t.log, t.chunks[j], false)
    requires forall l :: LineOk(t.chunks[j], t.mem, l)
    requires t.next == NextOffset(t.chunks, t.taken, t.ring.head)
    requires |t.delivered| == NextId(t.chunks, t.taken, |t.log|) && InOrder(t.log, t.delivered)
    requires ReceiverOk(t.rpc, t.chunks, t.taken)
    ensures Inv(t)
  {
    GeometryDisjoint(s.ring, s.chunks);
    assert HoldsIn(s, j);
    TouchStored(s.ring.S, s.chunks, s.mem, s.log, PendingIn(s), t.chunks, t.mem, t.log, PendingIn(t), j);
    TouchNumbered(s.chunks, s.mem, s.log, t.chunks, t.mem, t.log, j, t.taken, s.ring.head);
    SamePlaceGeometry(s.ring, s.chunks, j, t.chunks[j]);
    SenderFrame(s, t, j);
  }

  /** The receiver's writes do not disturb what the sender is writing. */
  lemma SenderFrame(s: State, t: State, j: int)
    requires Disjoint(s.chunks, s.ring.N()) && |s.mem| == s.ring.S && GoodSize(s.ring.S)
    requires SenderOk(s.spc, s.ring, s.mem, s.chunks) && TouchesIn(s, t, j)
    requires t.spc == s.spc && t.ring == s.ring
    requires s.chunks[j].stage == Sent || s.chunks[j].stage == Taken || s.chunks[j].stage.Freeing?
    ensures SenderOk(t.spc, t.ring, t.mem, t.chunks)
  {
    var n := |s.chunks|;
    if s.spc.SWrap? || s.spc.SInit? {
      var i := if s.spc.SWrap? && s.spc.msgLen > 0 then n - 2 else n - 1;
      assert ApartAt(s.chunks, i, j) && InBuffer(s.chunks, s.ring.N(), i);
      HeaderFrame(s.mem, t.mem, s.chunks[i], s.chunks[j]);
    }
  }

  lemma HeaderFrame(m: Memory, m': Memory, c: Chunk, d: Chunk)
    requires SameOut(m, m', d.Off(), d.Bytes()) && Apart(c.start, c.len, d.start, d.len)
    requires 0 <= c.start && 1 <= c.len && c.Off() + c.Bytes() <= |m|
    ensures SizeOf(m', c.Off()) == SizeOf(m, c.Off()) && AllocedOf(m', c.Off()) == AllocedOf(m, c.Off())
  {
  }

  lemma TakenStages(cs: seq<Chunk>, taken: int, writing: int, clearing: ReceiverPc, N: int)
    requires Stages(cs, taken, RIdle, writing) && taken < |cs| && cs[taken].stage == Sent
    requires Disjoint(cs, N)
    requires cs[taken].wrap ==> clearing == RClear(cs[taken].Off())
    ensures Stages(cs[taken := cs[taken].(stage := Taken)], taken + 1, clearing, writing)
  {
    var ds, next := cs[taken := cs[taken].(stage := Taken)], taken + 1;
    forall i ensures StageAt(ds, next, clearing, writing, i) {
      assert StageAt(cs, taken, RIdle, writing, i) && InBuffer(cs, N, i);
    }
  }

  /** Where next and the message count stand after one more chunk. */
  lemma TakenNext(s: State)
    requires Geometry(s.ring, s.chunks) && Numbered(s.chunks, |s.log|) && 0 <= s.taken < |s.chunks|
    ensures var cs := s.chunks[s.taken := s.chunks[s.taken].(stage := Taken)];
            && NewNext(s.ring.S, s.chunks[s.taken].Off(), s.chunks[s.taken].Bytes())
                == NextOffset(cs, s.taken + 1, s.ring.head)
            && IdAfter(s.chunks[s.taken]) == NextId(cs, s.taken + 1, |s.log|)
  {
    NextStart(s.ring, s.chunks, s.taken);
    assert IdBefore(s.chunks, s.taken, s.taken + 1);
  }

  lemma SkipInv(s: State)
    requires Inv(s) && Enabled(s, DoSkip)
    ensures Inv(SkipStep(s))
  {
    var t, j := SkipStep(s), s.taken;
    var c := s.chunks[j];
    GeometryDisjoint(s.ring, s.chunks);
    assert HoldsIn(s, j) && PlacedAt(s.ring, s.chunks, j);
    forall l ensures LineOk(t.chunks[j], t.mem, l) {
      if c.start <= l < c.start + c.len && !Covers(c, l) {
        IdleQuiet(s.ring.S, s.mem, s.log, s.chunks, PendingIn(s), j, l);
      }
    }
    TakenStages(s.chunks, s.taken, WritingOf(s.spc, |s.chunks|), ClearingOf(t.rpc), s.ring.N());
    TakenNext(s);
    ReceiverTouch(s, t, j);
  }

  /** Nothing but chunk j is being cleared, and it goes on to its next stage. */
  lemma GivenStages(cs: seq<Chunk>, taken: int, writing: int, clearing: ReceiverPc, j: int, d: Chunk,
                    next: ReceiverPc, N: int)
    requires Stages(cs, taken, clearing, writing) && 0 <= j < |cs| && Given(cs[j]) && Disjoint(cs, N)
    requires clearing == RIdle || clearing == RClear(cs[j].Off()) || (clearing.RFree? && clearing.at == cs[j].Off())
    requires StageOk(d, j, taken, next, writing)
    ensures Stages(cs[j := d], taken, next, writing)
  {
    var ds := cs[j := d];
    forall i ensures StageAt(ds, taken, next, writing, i) {
      assert StageAt(cs, taken, clearing, writing, i) && InBuffer(cs, N, i) && InBuffer(cs, N, j) && ApartAt(cs, i, j);
      assert 0 <= i < |cs| && i != j ==> cs[i].Off() != cs[j].Off();
    }
  }

  lemma ClearInv(s: State)
    requires Inv(s) && Enabled(s, DoClear)
    ensures Inv(ClearStep(s, s.rpc.at))
  {
    var t, j := ClearStep(s, s.rpc.at), s.taken - 1;
    GeometryDisjoint(s.ring, s.chunks);
    ClearMemory(s, j);
    GivenStages(s.chunks, s.taken, WritingOf(s.spc, |s.chunks|), s.rpc, j, t.chunks[j], RIdle, s.ring.N());
    TouchNumbered(s.chunks, s.mem, s.log, t.chunks, t.mem, t.log, j, s.taken, s.ring.head);
    ReceiverTouch(s, t, j);
  }

  /** What clearing a sentinel does to it. */
  lemma ClearMemory(s: State, j: int)
    requires Inv(s) && s.rpc.RClear? && j == s.taken - 1 && Disjoint(s.chunks, s.ring.N())
    ensures var t := ClearStep(s, s.rpc.at);
            && TouchesIn(s, t, j) && Holds(t.mem, t.log, t.chunks[j], false)
            && forall l :: LineOk(t.chunks[j], t.mem, l)
  {
    var t := ClearStep(s, s.rpc.at);
    var c := s.chunks[j];
    assert HoldsIn(s, j) && InBuffer(s.chunks, s.ring.N(), j);
    ClearLineFacts(s.mem, c, 0);
    forall l ensures LineOk(t.chunks[j], t.mem, l) {
      if c.start <= l < c.start + c.len && !Covers(c, l) {
        IdleQuiet(s.ring.S, s.mem, s.log, s.chunks, PendingIn(s), j, l);
      }
    }
  }

  lemma TakeInv(s: State)
    requires Inv(s) && Enabled(s, DoTake)
    ensures Inv(TakeStep(s, s.rpc.size))
  {
    var t, j := TakeStep(s, s.rpc.size), s.taken;
    GeometryDisjoint(s.ring, s.chunks);
    assert HoldsIn(s, j) && InBuffer(s.chunks, s.ring.N(), j);
    TakenStages(s.chunks, s.taken, WritingOf(s.spc, |s.chunks|), ClearingOf(t.rpc), s.ring.N());
    TakenNext(s);
    forall k ensures DeliveredAt(t.log, t.delivered, k) { assert DeliveredAt(s.log, s.delivered, k); }
    ReceiverTouch(s, t, j);
  }

  lemma FreeInv(s: State, i: nat)
    requires Inv(s) && Enabled(s, DoFree(i))
    ensures Inv(FreeStep(s, i))
  {
    var t := FreeStep(s, i);
    GeometryDisjoint(s.ring, s.chunks);
    assert HoldsIn(s, i) && InBuffer(s.chunks, s.ring.N(), i);
    assert StageAt(s.chunks, s.taken, RIdle, WritingOf(s.spc, |s.chunks|), i);
    GivenStages(s.chunks, s.taken, WritingOf(s.spc, |s.chunks|), RIdle, i, t.chunks[i], t.rpc, s.ring.N());
    TouchNumbered(s.chunks, s.mem, s.log, t.chunks, t.mem, t.log, i, s.taken, s.ring.head);
    assert FreeingAt(t.chunks, i, t.rpc);
    ReceiverTouch(s, t, i);
  }

  /** In a buffer of disjoint chunks there is only one at each offset. */
  lemma {:induction false} IndexIs(cs: seq<Chunk>, N: int, i: int)
    requires Disjoint(cs, N) && 0 <= i < |cs|
    ensures IndexOf(cs, cs[i].Off()) == i
  {
    assert InBuffer(cs, N, 0) && InBuffer(cs, N, i) && ApartAt(cs, 0, i);
    if i > 0 {
      forall k ensures InBuffer(cs[1..], N, k) { assert InBuffer(cs, N, k + 1); }
      forall k, l ensures ApartAt(cs[1..], k, l) { assert ApartAt(cs, k + 1, l + 1); }
      IndexIs(cs[1..], N, i - 1);
    }
  }

  /** Clearing one line of a message leaves its header alone, but for the ready flag if it is the first line. */
  lemma ClearLineFacts(m: Memory, c: Chunk, line: int)
    requires 0 <= c.start && 0 <= line < c.len && c.Off() + c.Bytes() <= |m|
    ensures var m' := SetReady(m, c.Off() + LINE * line, false);
            && SameOut(m, m', c.Off(), c.Bytes())
            && SizeOf(m', c.Off()) == SizeOf(m, c.Off()) && AllocedOf(m', c.Off()) == AllocedOf(m, c.Off())
            && (line > 0 ==> (IsReady(m', c.Off()) <==> IsReady(m, c.Off())))
            && (forall l :: 0 <= l && Quiet(m, l) ==> Quiet(m', l)) && Quiet(m', c.start + line)
  {
  }

  lemma ClearLineInv(s: State, low: bool)
    requires Inv(s) && Enabled(s, DoClearLine(low))
    ensures Inv(ClearLineStep(s, low))
  {
    var t := ClearLineStep(s, low);
    var j :| FreeingAt(s.chunks, j, s.rpc);
    GeometryDisjoint(s.ring, s.chunks);
    IndexIs(s.chunks, s.ring.N(), j);
    ClearLineMemory(s, low, j);
    assert StageAt(s.chunks, s.taken, s.rpc, WritingOf(s.spc, |s.chunks|), j);
    GivenStages(s.chunks, s.taken, WritingOf(s.spc, |s.chunks|), s.rpc, j, t.chunks[j], ClearingOf(t.rpc), s.ring.N());
    TouchNumbered(s.chunks, s.mem, s.log, t.chunks, t.mem, t.log, j, s.taken, s.ring.head);
    if t.rpc.RFree? { assert FreeingAt(t.chunks, j, t.rpc); }
    ReceiverTouch(s, t, j);
  }

  /** What one cleared line does to the chunk it belongs to. */
  lemma ClearLineMemory(s: State, low: bool, j: int)
    requires Inv(s) && s.rpc.RFree? && FreeingAt(s.chunks, j, s.rpc)
    requires Disjoint(s.chunks, s.ring.N()) && IndexOf(s.chunks, s.rpc.at) == j
    ensures var t := ClearLineStep(s, low);
            && TouchesIn(s, t, j) && Holds(t.mem, t.log, t.chunks[j], false)
            && forall l :: LineOk(t.chunks[j], t.mem, l)
  {
    var t := ClearLineStep(s, low);
    var c, d, line := s.chunks[j], t.chunks[j], if low then s.rpc.lo else s.rpc.hi - 1;
    assert HoldsIn(s, j) && InBuffer(s.chunks, s.ring.N(), j);
    ClearLineFacts(s.mem, c, line);
    forall l ensures LineOk(d, t.mem, l) {
      if c.start <= l < c.start + c.len && !Covers(c, l) {
        IdleQuiet(s.ring.S, s.mem, s.log, s.chunks, PendingIn(s), j, l);
      }
    }
  }
}
