/**
 The in-place operations refine the interleaved model: run without interference, each call has the
 effect of a run of the model's steps, never reads outside the buffer, and its loops stop.
 */
module ChannelRefinement {
  import opened Options
  import opened Runs
  import opened ChannelCode
  import opened ChannelModel
  import opened ChannelGeometry
  import opened ChannelInvariant
  import opened ChannelSteps
  import opened ChannelAlloc
  import opened ChannelTheorems
  import opened HalfChannelCode

  function View(s: State): Fields {
    Fields(s.ring.S, s.ring.head, s.ring.tail, s.next, s.mem)
  }

  lemma GcGo(s: State)
    requires s.spc.SGc? && CollectionSafe(s, s.spc.len)
    ensures Leads(s, [DoGc], GcStep(s))
  {
    Go(s, DoGc, GcStep(s));
  }

  lemma BeginGo(s: State, size: int)
    requires s.spc == SIdle && size > 0
    ensures Leads(s, [DoAllocate(size)], Begin(s, size))
  {
    Go(s, DoAllocate(size), Begin(s, size));
  }

  const WRITES: seq<Action> := [DoWrite, DoWrite, DoWrite]

  lemma WriteGo(s: State)
    requires s.spc.SWrap? || s.spc.SInit?
    ensures Leads(s, [DoWrite], WriteStep(s))
  {
    Go(s, DoWrite, WriteStep(s));
  }

  lemma WritesGo(s: State, u: State, v: State, t: State)
    requires s.spc.SWrap? || s.spc.SInit?
    requires u == WriteStep(s) && (u.spc.SWrap? || u.spc.SInit?)
    requires v == WriteStep(u) && (v.spc.SWrap? || v.spc.SInit?)
    requires t == WriteStep(v)
    ensures Leads(s, WRITES, t)
  {
    WriteGo(s);
    WriteGo(u);
    WriteGo(v);
    LeadsOn(s, [DoWrite], u, [DoWrite], v);
    assert [DoWrite] + [DoWrite] == [DoWrite, DoWrite];
    LeadsOn(s, [DoWrite, DoWrite], v, [DoWrite], t);
    assert [DoWrite, DoWrite] + [DoWrite] == WRITES;
  }

  // ---- the collector ----

  /** From the oldest chunk on, what looks freed has been freed, up to the first one that does not look so. */
  predicate Guarded(cs: seq<Chunk>) {
    cs == [] || !LooksFreed(cs[0]) || (cs[0].stage == Freed && Guarded(cs[1..]))
  }

  /** A whole collection passes only what has been freed. */
  ghost predicate PassesOnlyFreed(s: State) {
    if s.ring.tail == s.ring.S then FreedUpToZero(s) && Guarded(s.chunks[IndexAtZero(s.chunks) + 1..])
    else Guarded(s.chunks)
  }

  /** The chunks a whole collection leaves. */
  function DropFreed(cs: seq<Chunk>): seq<Chunk> {
    if cs != [] && cs[0].stage == Freed then DropFreed(cs[1..]) else cs
  }

  function LeftBehind(s: State): seq<Chunk> {
    DropFreed(if s.ring.tail == s.ring.S && IndexAtZero(s.chunks) < |s.chunks|
              then s.chunks[IndexAtZero(s.chunks) + 1..] else s.chunks)
  }

  /** In particular when no message has been cleared from its header on. */
  lemma {:induction false} AllGuarded(cs: seq<Chunk>)
    requires forall i :: 0 <= i < |cs| && LooksFreed(cs[i]) ==> cs[i].stage == Freed
    ensures Guarded(cs)
  {
    if cs != [] { AllGuarded(cs[1..]); }
  }

  lemma HeaderUpPasses(s: State)
    requires Inv(s) && HeaderUp(s) && (s.ring.tail == s.ring.S ==> FreedUpToZero(s))
    ensures PassesOnlyFreed(s)
  {
    HeaderUpSafe(s);
    AllGuarded(s.chunks);
    if s.ring.tail == s.ring.S { AllGuarded(s.chunks[IndexAtZero(s.chunks) + 1..]); }
  }

  /** The state of an allocation whose collector has nothing more to pass. */
  ghost predicate Stopped(t: State, len: int, again: bool) {
    && Inv(t) && t.spc.SGc? && t.spc.len == len && t.spc.again == again && t.ring.tail != t.ring.S
    && GcTurn(t.ring.S, t.ring.head, t.ring.tail, t.spc.freed, t.mem) == Stop
  }

  lemma StoppedIsSafe(t: State)
    requires t.spc.SGc? && Stopped(t, t.spc.len, t.spc.again)
    ensures CollectionSafe(t, t.spc.len) && Guarded(t.chunks)
  {
    GcTurnMeans(t);
  }

  function TailOf(s: State, turns: nat): int
    requires s.spc.SGc?
  {
    GcLoop(s.ring.S, s.ring.head, s.ring.tail, s.spc.freed, s.mem, turns)
  }

  predicate StopsIn(s: State, turns: nat)
    requires s.spc.SGc?
  {
    GcStops(s.ring.S, s.ring.head, s.ring.tail, s.spc.freed, s.mem, turns) <==> true
  }

  /** The collector stops within one turn per chunk, at the tail the loop computes. */
  lemma {:induction false} GcRefines(s: State, turns: nat, tail: int) returns (acts: seq<Action>, t: State)
    requires Inv(s) && s.spc.SGc? && turns >= |s.chunks| && PassesOnlyFreed(s) && tail == TailOf(s, turns)
    ensures StopsIn(s, turns)
    ensures Leads(s, acts, t) && Stopped(t, s.spc.len, s.spc.again)
    ensures View(t) == View(s).(tail := tail)
    ensures t.log == s.log && |t.chunks| <= |s.chunks| && t.chunks == LeftBehind(s)
    decreases |s.chunks|
  {
    if GcTurn(s.ring.S, s.ring.head, s.ring.tail, s.spc.freed, s.mem).Advance? {
      var u := GcGoesOn(s, turns);
      acts, t := GcRefines(u, turns - 1, tail);
      LeadsOn(s, [DoGc], u, acts, t);
      acts := [DoGc] + acts;
    } else {
      acts, t := [], s;
      GcStopsNow(s, turns);
    }
  }

  lemma GcGoesOn(s: State, turns: nat) returns (u: State)
    requires Inv(s) && s.spc.SGc? && turns >= |s.chunks| && PassesOnlyFreed(s)
    requires GcTurn(s.ring.S, s.ring.head, s.ring.tail, s.spc.freed, s.mem).Advance?
    ensures Leads(s, [DoGc], u) && Inv(u) && u.spc.SGc? && PassesOnlyFreed(u) && |u.chunks| < |s.chunks| <= turns
    ensures u.spc.len == s.spc.len && u.spc.again == s.spc.again && u.log == s.log
    ensures View(u) == View(s).(tail := u.ring.tail) && LeftBehind(u) == LeftBehind(s)
    ensures TailOf(s, turns) == TailOf(u, turns - 1) && (StopsIn(u, turns - 1) ==> StopsIn(s, turns))
  {
    GcOffsetReadable(s);
    u := GcAdvances(s);
    OneMoreTurn(s, u, turns);
  }

  lemma GcStopsNow(s: State, turns: nat)
    requires Inv(s) && s.spc.SGc? && PassesOnlyFreed(s)
    requires GcTurn(s.ring.S, s.ring.head, s.ring.tail, s.spc.freed, s.mem) == Stop
    ensures StopsIn(s, turns) && TailOf(s, turns) == s.ring.tail && Stopped(s, s.spc.len, s.spc.again)
    ensures LeftBehind(s) == s.chunks
  {
    GcOffsetReadable(s);
    GcTurnMeans(s);
  }

  lemma OneMoreTurn(s: State, u: State, turns: nat)
    requires s.spc.SGc? && u.spc.SGc? && turns > 0 && Readable(s.ring.S, GcOffset(s.ring.S, s.ring.tail))
    requires GcTurn(s.ring.S, s.ring.head, s.ring.tail, s.spc.freed, s.mem) == Advance(u.ring.tail, u.spc.freed)
    requires View(u) == View(s).(tail := u.ring.tail)
    ensures TailOf(s, turns) == TailOf(u, turns - 1) && (StopsIn(u, turns - 1) ==> StopsIn(s, turns))
  {
  }

  /** One turn of the loop is one step. */
  lemma GcAdvances(s: State) returns (u: State)
    requires Inv(s) && s.spc.SGc? && PassesOnlyFreed(s)
    requires GcTurn(s.ring.S, s.ring.head, s.ring.tail, s.spc.freed, s.mem).Advance?
    ensures Leads(s, [DoGc], u) && Inv(u)
    ensures var g := GcTurn(s.ring.S, s.ring.head, s.ring.tail, s.spc.freed, s.mem);
            && View(u) == View(s).(tail := g.tail) && u.spc == SGc(s.spc.len, s.spc.again, g.freed)
            && u.log == s.log && |u.chunks| < |s.chunks| && u.ring.tail != u.ring.S && PassesOnlyFreed(u)
    ensures LeftBehind(u) == LeftBehind(s)
  {
    u := GcStep(s);
    GcGo(s);
    GcInv(s);
    GcPassesFreed(s);
    assert PlacedAt(s.ring, s.chunks, Oldest(s));
    DropEnds(s.ring, s.chunks, Oldest(s) + 1);
  }

  lemma GcOffsetReadable(s: State)
    requires Inv(s) && s.spc.SGc?
    ensures Readable(s.ring.S, GcOffset(s.ring.S, s.ring.tail))
  {
    if s.chunks != [] {
      GcLooksAt(s);
      assert PlacedAt(s.ring, s.chunks, Oldest(s));
    }
  }

  // ---- header writes ----

  /** The three steps of a sentinel, taken in a row. */
  lemma SentinelSteps(s: State) returns (t: State)
    requires Inv(s) && s.spc.SWrap? && s.spc.written == 0
    ensures Leads(s, WRITES, t) && Inv(t)
    ensures View(t) == View(s).(mem := SentinelWritten(s.ring.S, s.mem, s.spc.at))
    ensures t.spc == (if s.spc.msgLen > 0 then SInit(0, s.spc.msgLen, 0) else SIdle) && t.log == s.log
    ensures |t.chunks| == |s.chunks| && (s.spc.msgLen > 0 ==> t.chunks[|t.chunks| - 1] == s.chunks[|s.chunks| - 1])
  {
    var u := WriteStep(s);
    var v := WriteStep(u);
    t := WriteStep(v);
    SentinelInvs(s);
    SentinelWrites(s);
    WritesGo(s, u, v, t);
  }

  /** What the three writes of a sentinel leave. */
  lemma SentinelWrites(s: State)
    requires s.spc.SWrap? && s.spc.written == 0 && |s.chunks| >= if s.spc.msgLen > 0 then 2 else 1
    ensures var u := WriteStep(s);
            var v := WriteStep(u);
            var i := |s.chunks| - (if s.spc.msgLen > 0 then 2 else 1);
            && u.spc.SWrap? && v.spc.SWrap?
            && WriteStep(v) == s.(mem := SentinelWritten(s.ring.S, s.mem, s.spc.at),
                                  spc := if s.spc.msgLen > 0 then SInit(0, s.spc.msgLen, 0) else SIdle,
                                  chunks := s.chunks[i := s.chunks[i].(stage := Sent)])
  {
  }

  lemma SentinelInvs(s: State)
    requires Inv(s) && s.spc.SWrap? && s.spc.written == 0
    ensures Inv(WriteStep(WriteStep(WriteStep(s))))
  {
    SentinelWriteInv(s);
    SentinelWriteInv(WriteStep(s));
    SentinelWriteInv(WriteStep(WriteStep(s)));
  }

  lemma HeaderInvs(s: State)
    requires Inv(s) && s.spc.SInit? && s.spc.written == 0
    ensures Inv(WriteStep(WriteStep(WriteStep(s)))) && s.chunks != []
  {
    HeaderWriteInv(s);
    HeaderWriteInv(WriteStep(s));
    HeaderWriteInv(WriteStep(WriteStep(s)));
  }

  lemma HeaderSteps(s: State) returns (t: State)
    requires Inv(s) && s.spc.SInit? && s.spc.written == 0
    ensures Leads(s, WRITES, t) && Inv(t)
    ensures View(t) == View(s).(mem := HeaderWritten(s.mem, s.spc.start, s.spc.len)) && t.spc == SIdle && t.log == s.log
    ensures t == s.(mem := t.mem, chunks := t.chunks, spc := SIdle)
    ensures |s.chunks| > 0 && t.chunks == s.chunks[|s.chunks| - 1 := s.chunks[|s.chunks| - 1].(stage := Open)]
  {
    var u := WriteStep(s);
    var v := WriteStep(u);
    t := WriteStep(v);
    HeaderInvs(s);
    HeaderWrites(s);
    WritesGo(s, u, v, t);
  }

  /** What three header writes leave. */
  lemma HeaderWrites(s: State)
    requires s.spc.SInit? && s.spc.written == 0 && s.chunks != []
    ensures var u := WriteStep(s);
            var v := WriteStep(u);
            && u.spc.SInit? && v.spc.SInit?
            && WriteStep(v) == s.(mem := HeaderWritten(s.mem, s.spc.start, s.spc.len), spc := SIdle,
                                  chunks := s.chunks[|s.chunks| - 1 := s.chunks[|s.chunks| - 1].(stage := Open)])
  {
  }

  // ---- allocation ----

  /** The newest chunk is an open message of len bytes at offset off. */
  predicate FreshMessage(log: Log, t: State, len: int, off: int) {
    && t.log == log + [None] && t.chunks != []
    && var c := t.chunks[|t.chunks| - 1];
       c.stage == Open && !c.wrap && c.id == |log| && c.Off() == off && c.Bytes() == len
  }

  function StartIn(c: Fields, len: int): int {
    if RoomIn(c, len) == AtZero then 0 else c.head
  }

  /** What a decision leaves to be written: u is s with the space reserved. */
  predicate Decided(s: State, u: State, len: int) {
    var c := View(s);
    var start := StartIn(c, len);
    && u.spc == (if RoomIn(c, len) == AtZero then SWrap(c.head, 0, len) else SInit(start, len, 0))
    && View(u) == c.(tail := NewTail(c.S, c.tail, start, len), head := NewHead(c.S, start, len))
    && u.log == s.log + [None] && u.chunks != []
    && var d := u.chunks[|u.chunks| - 1];
       !d.wrap && d.id == |s.log| && d.Off() == start && d.Bytes() == len
  }

  lemma DecidedMessage(s: State, len: int, again: bool)
    requires Inv(s) && WholeLines(s.ring.S, len) && RoomIn(View(s), len) != NoRoom
    ensures Decided(s, Decide(s, len, again), len)
  {
  }

  /** The bytes once the sentinel, if the allocation wrapped, and the header have been written. */
  function MessageWritten(u: State): Memory
    requires u.spc.SInit? || u.spc.SWrap?
  {
    if u.spc.SWrap? then HeaderWritten(SentinelWritten(u.ring.S, u.mem, u.spc.at), 0, u.spc.msgLen)
    else HeaderWritten(u.mem, u.spc.start, u.spc.len)
  }

  /** The writes of an allocation: the sentinel if it wrapped, then the header. */
  lemma WriteMessage(u: State) returns (acts: seq<Action>, t: State)
    requires Inv(u) && (u.spc.SInit? || (u.spc.SWrap? && u.spc.msgLen > 0)) && u.spc.written == 0
    ensures Leads(u, acts, t) && Inv(t) && t.spc == SIdle && t.log == u.log
    ensures View(t) == View(u).(mem := MessageWritten(u))
    ensures |t.chunks| == |u.chunks| > 0 && t.chunks[|t.chunks| - 1] == u.chunks[|u.chunks| - 1].(stage := Open)
  {
    if u.spc.SInit? {
      t := HeaderSteps(u);
      acts := WRITES;
    } else {
      var v := SentinelSteps(u);
      t := HeaderSteps(v);
      LeadsOn(u, WRITES, v, WRITES, t);
      acts := WRITES + WRITES;
    }
  }

  /** From the decision to the finished message. */
  lemma FinishMessage(s: State, acts: seq<Action>, u: State, len: int) returns (all: seq<Action>, t: State)
    requires Leads(s, acts, u) && Inv(u) && Decided(s, u, len) && RoomIn(View(s), len) != NoRoom && len > 0
    ensures Leads(s, all, t) && Inv(t) && t.spc == SIdle
    ensures View(t) == PlacedIn(View(s), len, RoomIn(View(s), len))
            && FreshMessage(s.log, t, len, StartIn(View(s), len))
  {
    var more;
    more, t := WriteMessage(u);
    WrittenIsPlaced(s, u, t, len);
    LeadsOn(s, acts, u, more, t);
    all := acts + more;
  }

  lemma WrittenIsPlaced(s: State, u: State, t: State, len: int)
    requires Decided(s, u, len) && RoomIn(View(s), len) != NoRoom && len > 0
    requires View(t) == View(u).(mem := MessageWritten(u)) && t.log == u.log
    requires |t.chunks| == |u.chunks| && t.chunks[|t.chunks| - 1] == u.chunks[|u.chunks| - 1].(stage := Open)
    ensures View(t) == PlacedIn(View(s), len, RoomIn(View(s), len))
    ensures FreshMessage(s.log, t, len, StartIn(View(s), len))
  {
  }

  lemma PlaceRefines(s: State, acts: seq<Action>, len: int, again: bool) returns (all: seq<Action>, t: State)
    requires Inv(s) && !s.spc.SWrap? && !s.spc.SInit? && Leads(s, acts, Decide(s, len, again))
    requires WholeLines(s.ring.S, len) && RoomIn(View(s), len) != NoRoom && s.ring.tail != s.ring.S
    ensures Leads(s, all, t) && Inv(t) && t.spc == SIdle
    ensures View(t) == PlacedIn(View(s), len, RoomIn(View(s), len))
            && FreshMessage(s.log, t, len, StartIn(View(s), len))
  {
    DecideInv(s, len, again);
    DecidedMessage(s, len, again);
    all, t := FinishMessage(s, acts, Decide(s, len, again), len);
  }

  /** No room after the second collection: the rest of the lap is given up, or nothing happens. */
  lemma FailRefines(s: State) returns (acts: seq<Action>, t: State)
    requires s.spc.SGc? && Stopped(s, s.spc.len, true) && RoomIn(View(s), s.spc.len) == NoRoom
    ensures Leads(s, acts, t) && Inv(t) && t.spc == SIdle && t.log == s.log
    ensures View(t) == if s.ring.head > s.ring.tail
                       then View(s).(head := 0, mem := SentinelWritten(s.ring.S, s.mem, s.ring.head)) else View(s)
  {
    DecideInv(s, s.spc.len, true);
    StoppedIsSafe(s);
    GcGo(s);
    acts, t := [DoGc], GcStep(s);
    if s.ring.head > s.ring.tail {
      var u := t;
      t := SentinelSteps(u);
      LeadsOn(s, acts, u, WRITES, t);
      acts := acts + WRITES;
    }
  }

  /** `if (tail == SHARED_SIZE) _channel_gc(out)`, up to the point where the first decision is taken. */
  lemma PrepareRefines(s: State, size: int, turns: nat) returns (acts: seq<Action>, t: State, first: seq<Action>)
    requires Inv(s) && s.spc == SIdle && size > 0 && turns >= |s.chunks|
             && (s.ring.tail == s.ring.S ==> PassesOnlyFreed(s))
    requires MessageSize(s.ring.S, size) != 0
    ensures s.ring.tail == s.ring.S ==> Collectable(View(s), turns)
    ensures Leads(s, acts, t) && Inv(t) && !t.spc.SWrap? && !t.spc.SInit?
    ensures View(t) == Prepared(View(s), turns) && t.log == s.log && |t.chunks| <= |s.chunks| && t.ring.tail != t.ring.S
    ensures Leads(t, first, Decide(t, MessageSize(s.ring.S, size), false))
    ensures if s.ring.tail == s.ring.S then Guarded(t.chunks) else t == s
  {
    BeginGo(s, size);
    acts, t, first := [], s, [DoAllocate(size)];
    if s.ring.tail == s.ring.S {
      BeginInv(s, size);
      var u := Begin(s, size);
      acts, t := GcRefines(u, turns, TailOf(u, turns));
      LeadsOn(s, first, u, acts, t);
      acts, first := first + acts, [DoGc];
      StoppedIsSafe(t);
      GcGo(t);
    }
  }

  /** The second attempt, after the collection that follows a failed first one. */
  lemma RetryRefines(s: State, first: seq<Action>, len: int, turns: nat) returns (acts: seq<Action>, t: State)
    requires Inv(s) && !s.spc.SWrap? && !s.spc.SInit? && Leads(s, first, Decide(s, len, false))
    requires WholeLines(s.ring.S, len) && RoomIn(View(s), len) == NoRoom && s.ring.tail != s.ring.S
             && turns >= |s.chunks|
    requires Guarded(s.chunks)
    ensures Collectable(View(s), turns)
    ensures Leads(s, acts, t) && Inv(t) && t.spc == SIdle
    ensures var e := Collected(View(s), turns);
            var room := RoomIn(e, len);
            if room != NoRoom then View(t) == PlacedIn(e, len, room) && FreshMessage(s.log, t, len, StartIn(e, len))
            else t.log == s.log
                 && View(t) == if e.head > e.tail then e.(head := 0, mem := SentinelWritten(e.S, e.mem, e.head)) else e
  {
    DecideInv(s, len, false);
    var u := Decide(s, len, false);
    var more, v := GcRefines(u, turns, TailOf(u, turns));
    LeadsOn(s, first, u, more, v);
    acts := first + more;
    if RoomIn(View(v), len) != NoRoom {
      StoppedIsSafe(v);
      GcGo(v);
      more, t := PlaceRefines(v, [DoGc], len, true);
    } else {
      more, t := FailRefines(v);
    }
    LeadsOn(s, acts, v, more, t);
    acts := acts + more;
  }

  /** What `channel_allocate` must have achieved when it returns data. */
  predicate AllocationDone(log: Log, t: State, S: int, size: int, data: int) {
    if data == -1 then t.log == log
    else FreshMessage(log, t, MessageSize(S, size), data - HEADER) && size + HEADER <= MessageSize(S, size)
  }

  /** The collections of an allocation pass only what has been freed; or there is nothing to collect for. */
  ghost predicate AllocationSafe(s: State, len: int) {
    || (s.ring.tail != s.ring.S && RoomIn(View(s), len) != NoRoom)
    || PassesOnlyFreed(s)
    || (s.ring.tail == s.ring.S && ZeroInUse(s) && RoomIn(View(s), len) == NoRoom)
  }

  /** `channel_allocate` is a run of the model; a result is a fresh open message with room for the payload. */
  lemma AllocateRefines(s: State, size: int, turns: nat) returns (acts: seq<Action>, t: State)
    requires Inv(s) && s.spc == SIdle && size > 0 && turns >= |s.chunks|
             && AllocationSafe(s, MessageSize(s.ring.S, size))
    ensures AllocateSafe(View(s), size, turns)
    ensures Leads(s, acts, t) && Inv(t) && t.spc == SIdle
    ensures View(t) == Allocated(View(s), size, turns).0
    ensures AllocationDone(s.log, t, s.ring.S, size, Allocated(View(s), size, turns).1)
  {
    MessageSizeWhole(s.ring.S, size);
    HeadReadable(s);
    acts, t := [], s;
    if s.ring.tail == s.ring.S && !PassesOnlyFreed(s) {
      acts := TurnedDown(s, size, turns);
      return;
    }
    if s.ring.tail == s.ring.S { CollectsFull(s, turns); }
    if MessageSize(s.ring.S, size) != 0 {
      var u, first, more;
      acts, u, first := PrepareRefines(s, size, turns);
      more, t := AttemptRefines(View(s), u, first, size, turns);
      LeadsOn(s, acts, u, more, t);
      acts := acts + more;
    }
  }

  /** The chunk at offset 0 is in use: the collector stops at once, and without room NULL is returned. */
  lemma TurnedDown(s: State, size: int, turns: nat) returns (acts: seq<Action>)
    requires Inv(s) && s.spc == SIdle && size > 0 && s.ring.tail == s.ring.S && ZeroInUse(s)
    requires FindRoom(s.ring.S, s.ring.head, s.ring.tail, MessageSize(s.ring.S, size)) == NoRoom
    ensures Collectable(View(s), turns) && Collected(View(s), turns) == View(s)
    ensures Allocated(View(s), size, turns) == (View(s), -1)
    ensures Leads(s, acts, s)
  {
    var len, freed := MessageSize(s.ring.S, size), InitialFreed(s.ring.S, s.ring.head, s.ring.tail);
    var u, v := s.(spc := SGc(len, false, freed)), s.(spc := SGc(len, true, freed));
    StoppedAtZero(s, LINE);
    acts := [];
    if len != 0 {
      BeginGo(s, size);
      MessageSizeWhole(s.ring.S, size);
      StoppedAtZero(s, len);
      GcGo(u);
      GcGo(v);
      LeadsOn(s, [DoAllocate(size)], u, [DoGc], v);
      LeadsOn(s, [DoAllocate(size)] + [DoGc], v, [DoGc], s);
      acts := [DoAllocate(size)] + [DoGc] + [DoGc];
    }
  }

  lemma StoppedAtZero(s: State, len: int)
    requires Inv(s) && s.spc == SIdle && s.ring.tail == s.ring.S && ZeroInUse(s) && WholeLines(s.ring.S, len)
    ensures Readable(s.ring.S, GcOffset(s.ring.S, s.ring.tail))
    ensures GcTurn(s.ring.S, s.ring.head, s.ring.tail, InitialFreed(s.ring.S, s.ring.head, s.ring.tail), s.mem) == Stop
  {
    InitialFreedOk(s.ring);
    var u := s.(spc := SGc(len, false, InitialFreed(s.ring.S, s.ring.head, s.ring.tail)));
    GcOffsetReadable(u);
    GcTurnMeans(u);
  }

  /** Both attempts, starting from the prepared fields. */
  lemma AttemptRefines(c: Fields, u: State, first: seq<Action>, size: int, turns: nat)
    returns (acts: seq<Action>, t: State)
    requires Inv(u) && !u.spc.SWrap? && !u.spc.SInit? && u.ring.tail != u.ring.S && turns >= |u.chunks|
    requires c.S == u.ring.S && View(u) == Prepared(c, turns) && size > 0 && MessageSize(c.S, size) != 0
    requires Leads(u, first, Decide(u, MessageSize(c.S, size), false))
    requires RoomIn(View(u), MessageSize(c.S, size)) != NoRoom || Guarded(u.chunks)
    ensures Leads(u, acts, t) && Inv(t) && t.spc == SIdle
    ensures RoomIn(View(u), MessageSize(c.S, size)) == NoRoom ==> Collectable(View(u), turns)
    ensures View(t) == Allocated(c, size, turns).0
    ensures AllocationDone(u.log, t, c.S, size, Allocated(c, size, turns).1)
  {
    var len := MessageSize(c.S, size);
    MessageSizeWhole(c.S, size);
    HeadReadable(u);
    if RoomIn(View(u), len) != NoRoom {
      acts, t := PlaceRefines(u, first, len, false);
    } else {
      acts, t := RetryRefines(u, first, len, turns);
    }
  }

  lemma HeadReadable(s: State)
    requires Inv(s)
    ensures Readable(s.ring.S, s.ring.head)
  {
  }

  lemma CollectsFull(s: State, turns: nat)
    requires Inv(s) && s.spc == SIdle && s.ring.tail == s.ring.S && PassesOnlyFreed(s) && turns >= |s.chunks|
    ensures Collectable(View(s), turns)
  {
    InitialFreedOk(s.ring);
    var u := s.(spc := SGc(LINE, false, InitialFreed(s.ring.S, s.ring.head, s.ring.tail)));
    ZeroChunk(s.ring, s.chunks);
    assert PlacedAt(s.ring, s.chunks, IndexAtZero(s.chunks));
    var acts, t := GcRefines(u, turns, TailOf(u, turns));
  }

  // ---- receiver ----

  /** A result of `channel_receive`: the next message in allocation order, as it was sent; or nothing. */
  predicate Hands(s: State, t: State, data: int, size: int) {
    if size == 0 then t.delivered == s.delivered
    else
      && 0 <= data && 0 < size && data + size <= s.ring.S
      && t.delivered == s.delivered + [Payload(t.mem, data - HEADER, size)]
      && |s.delivered| < |s.log| && s.log[|s.delivered|] == Some(Payload(t.mem, data - HEADER, size))
  }

  /** The chunks from i to j are sentinels to be passed. */
  predicate SentinelsTo(cs: seq<Chunk>, i: nat, j: nat) {
    i <= j <= |cs| && forall k :: i <= k < j ==> cs[k].wrap && cs[k].stage == Sent
  }

  /** From i to j there were only sentinels, and from j on the chunks are still the same. */
  ghost predicate Passed(cs: seq<Chunk>, i: nat, ds: seq<Chunk>, j: nat) {
    SentinelsTo(cs, i, j) && |cs| == |ds| && forall k :: j <= k < |cs| ==> ds[k] == cs[k]
  }

  lemma PassedOne(cs: seq<Chunk>, i: nat, us: seq<Chunk>, ds: seq<Chunk>, j: nat)
    requires i < |cs| && cs[i].wrap && cs[i].stage == Sent && us == cs[i := cs[i].(stage := Freed)]
    requires Passed(us, i + 1, ds, j)
    ensures Passed(cs, i, ds, j)
  {
    forall k | i <= k < j ensures cs[k].wrap && cs[k].stage == Sent { if k > i { assert us[k] == cs[k]; } }
    forall k | j <= k < |cs| ensures ds[k] == cs[k] { assert us[k] == cs[k]; }
  }

  /** The retry loop stops: it is a run that passes sentinels up to the first other header and delivers nothing. */
  lemma {:induction false} PassSentinels(s: State, turns: nat, end: Fields) returns (acts: seq<Action>, t: State)
    requires Inv(s) && s.rpc == RIdle && !NothingFreed(s) && turns >= |s.chunks| - s.taken
    requires end == Polled(View(s), turns)
    ensures PollStops(View(s), turns) && View(t) == end
    ensures Leads(s, acts, t) && Inv(t) && t.rpc == RIdle && !NothingFreed(t)
    ensures NotReady(t.mem, t.next) || SizeOf(t.mem, t.next) != WRAP
    ensures t.log == s.log && t.delivered == s.delivered && t.ring == s.ring
    ensures Passed(s.chunks, s.taken, t.chunks, t.taken)
    decreases turns
  {
    NextReadable(s);
    acts, t := [], s;
    if !NotReady(s.mem, s.next) && SizeOf(s.mem, s.next) == WRAP {
      var u := PassReadySentinel(s);
      acts, t := PassSentinels(u, turns - 1, end);
      PassedOne(s.chunks, s.taken, u.chunks, t.chunks, t.taken);
      LeadsOn(s, [DoPoll, DoReadSize, DoSkip, DoClear], u, acts, t);
      acts := [DoPoll, DoReadSize, DoSkip, DoClear] + acts;
    }
  }

  /** What `Received` makes of the fields the retry loop leaves. */
  function HandOut(d: Fields): (Fields, int, int) {
    if NotReady(d.mem, d.next) || SizeOf(d.mem, d.next) == 0 then (d, 0, 0)
    else (d.(next := NewNext(d.S, d.next, AllocedOf(d.mem, d.next))), d.next + HEADER, SizeOf(d.mem, d.next))
  }

  /** `channel_receive` is a run of the model, and its retry loop stops. */
  lemma ReceiveRefines(s: State, turns: nat, r: (Fields, int, int)) returns (acts: seq<Action>, t: State)
    requires Inv(s) && s.rpc == RIdle && !NothingFreed(s) && turns >= |s.chunks| - s.taken
    requires r == Received(View(s), turns)
    ensures PollStops(View(s), turns)
    ensures Leads(s, acts, t) && Inv(t) && t.rpc == RIdle && t.log == s.log
    ensures View(t) == r.0 && Hands(s, t, r.1, r.2)
  {
    var u;
    acts, u := PassSentinels(s, turns, Polled(View(s), turns));
    assert r == HandOut(View(u));
    var more;
    more, t := ReceiveNow(u, r);
    LeadsOn(s, acts, u, more, t);
    acts := acts + more;
  }

  /** A receive that finds no sentinel. */
  lemma ReceiveNow(s: State, r: (Fields, int, int)) returns (acts: seq<Action>, t: State)
    requires Inv(s) && s.rpc == RIdle && !NothingFreed(s) && r == HandOut(View(s))
    requires NotReady(s.mem, s.next) || SizeOf(s.mem, s.next) != WRAP
    ensures Leads(s, acts, t) && Inv(t) && t.rpc == RIdle && t.log == s.log
    ensures View(t) == r.0 && Hands(s, t, r.1, r.2)
  {
    acts, t := [], s;
    if !NotReady(s.mem, s.next) {
      PollSeesNew(s);
      HeaderAtNext(s);
      if s.chunks[s.taken].stage == Sent {
        t := TakeMessage(s);
        acts := [DoPoll, DoReadSize, DoTake];
      }
    }
  }

  lemma PassReadySentinel(s: State) returns (u: State)
    requires Inv(s) && s.rpc == RIdle && !NothingFreed(s) && !NotReady(s.mem, s.next) && SizeOf(s.mem, s.next) == WRAP
    ensures s.taken < |s.chunks| && s.chunks[s.taken].wrap && s.chunks[s.taken].stage == Sent
    ensures Leads(s, [DoPoll, DoReadSize, DoSkip, DoClear], u) && Inv(u) && u.rpc == RIdle && !NothingFreed(u)
    ensures View(u) == View(s).(next := 0, mem := SetReady(s.mem, s.next, false))
    ensures u.log == s.log && u.delivered == s.delivered && |u.chunks| == |s.chunks| && u.taken == s.taken + 1
    ensures u.ring == s.ring && u.chunks == s.chunks[s.taken := s.chunks[s.taken].(stage := Freed)]
  {
    PollSeesNew(s);
    HeaderAtNext(s);
    u := PassSentinel(s);
  }

  /** What `channel_poll` returns: the size of the next message in allocation order, or 0. */
  predicate Announces(s: State, size: int) {
    size != 0 ==>
      |s.delivered| < |s.log| && s.log[|s.delivered|].Some? && |s.log[|s.delivered|].value| == size
  }

  function PollResult(c: Fields): int {
    if NotReady(c.mem, c.next) then 0 else SizeOf(c.mem, c.next)
  }

  /** `channel_poll` is a run of the model that delivers nothing. */
  lemma PollRefines(s: State, turns: nat, end: Fields) returns (acts: seq<Action>, t: State)
    requires Inv(s) && s.rpc == RIdle && !NothingFreed(s) && turns >= |s.chunks| - s.taken
    requires end == Polled(View(s), turns)
    ensures PollStops(View(s), turns)
    ensures Leads(s, acts, t) && Inv(t) && t.rpc == RIdle && t.log == s.log && t.delivered == s.delivered
    ensures View(t) == end && Announces(s, PollResult(end))
  {
    acts, t := PassSentinels(s, turns, end);
    var more := PollNow(t);
    LeadsOn(s, acts, t, more, t);
    acts := acts + more;
  }

  /** A poll that finds no sentinel. */
  lemma PollNow(s: State) returns (acts: seq<Action>)
    requires Inv(s) && s.rpc == RIdle && !NothingFreed(s)
    requires NotReady(s.mem, s.next) || SizeOf(s.mem, s.next) != WRAP
    ensures Leads(s, acts, s) && Announces(s, PollResult(View(s)))
  {
    acts := [];
    if !NotReady(s.mem, s.next) {
      PollSeesNew(s);
      HeaderAtNext(s);
      if s.chunks[s.taken].stage == Sent {
        LookAtMessage(s);
        acts := [DoPoll, DoReadSize, DoLeave];
      }
    }
  }

  lemma LookAtMessage(s: State)
    requires Inv(s) && s.rpc == RIdle
    requires s.taken < |s.chunks| && s.chunks[s.taken].stage == Sent && !s.chunks[s.taken].wrap
    ensures Leads(s, [DoPoll, DoReadSize, DoLeave], s) && Announces(s, SizeOf(s.mem, s.next))
  {
    var v := s.(rpc := RTake(s.chunks[s.taken].size));
    ObserveGo(s);
    Go(v, DoLeave, s);
    LeadsOn(s, [DoPoll, DoReadSize], v, [DoLeave], s);
    assert [DoPoll, DoReadSize] + [DoLeave] == [DoPoll, DoReadSize, DoLeave];
    assert HoldsIn(s, s.taken) && PlacedAt(s.ring, s.chunks, s.taken);
  }

  lemma NextReadable(s: State)
    requires Inv(s)
    ensures Readable(s.ring.S, s.next)
  {
    if s.taken < |s.chunks| { assert PlacedAt(s.ring, s.chunks, s.taken); }
  }

  lemma HeaderAtNext(s: State)
    requires Inv(s) && s.taken < |s.chunks| && InUse(s.chunks[s.taken])
    ensures var c := s.chunks[s.taken];
            && s.next == c.Off() && (c.stage == Open || c.stage == Sent)
            && SizeOf(s.mem, s.next) == (if c.wrap then WRAP else c.size)
            && (c.wrap ==> c.stage == Sent)
            && (!c.wrap ==> c.size != WRAP && (c.size == 0 <==> c.stage == Open))
  {
    assert HoldsIn(s, s.taken) && PlacedAt(s.ring, s.chunks, s.taken);
    assert StageAt(s.chunks, s.taken, ClearingOf(s.rpc), WritingOf(s.spc, |s.chunks|), s.taken);
  }

  lemma PassSentinel(s: State) returns (u: State)
    requires Inv(s) && s.rpc == RIdle && !NothingFreed(s)
    requires s.taken < |s.chunks| && s.chunks[s.taken].stage == Sent && s.chunks[s.taken].wrap
    ensures Leads(s, [DoPoll, DoReadSize, DoSkip, DoClear], u) && Inv(u) && u.rpc == RIdle && !NothingFreed(u)
    ensures View(u) == View(s).(next := 0, mem := SetReady(s.mem, s.next, false))
    ensures u.log == s.log && u.delivered == s.delivered && |u.chunks| == |s.chunks| && u.taken == s.taken + 1
    ensures u.ring == s.ring && u.chunks == s.chunks[s.taken := s.chunks[s.taken].(stage := Freed)]
  {
    SentinelIsSkipped(s);
    u := ClearStep(SkipStep(s.(rpc := RSkip)), s.next);
    RunInv(s, [DoPoll, DoReadSize, DoSkip, DoClear]);
    FullEndsWithMessage(s);
  }

  /** A full buffer does not end with a sentinel. */
  lemma FullEndsWithMessage(s: State)
    requires Inv(s) && s.chunks != []
    ensures s.ring.Full() ==> !s.chunks[|s.chunks| - 1].wrap
  {
    assert PlacedAt(s.ring, s.chunks, |s.chunks| - 1);
  }

  lemma TakeMessage(s: State) returns (t: State)
    requires Inv(s) && s.rpc == RIdle
    requires s.taken < |s.chunks| && s.chunks[s.taken].stage == Sent && !s.chunks[s.taken].wrap
    ensures Leads(s, [DoPoll, DoReadSize, DoTake], t) && Inv(t) && t.rpc == RIdle && t.log == s.log
    ensures View(t) == View(s).(next := NewNext(s.ring.S, s.next, AllocedOf(s.mem, s.next)))
    ensures Hands(s, t, s.next + HEADER, SizeOf(s.mem, s.next)) && SizeOf(s.mem, s.next) != 0
  {
    ReceiveDelivers(s);
    var c := s.chunks[s.taken];
    t := TakeStep(s.(rpc := RTake(c.size)), c.size);
    RunInv(s, [DoPoll, DoReadSize, DoTake]);
    assert HoldsIn(s, s.taken) && PlacedAt(s.ring, s.chunks, s.taken);
  }

  /** `channel_send` is a single step. */
  lemma SendRefines(s: State, i: nat, size: int)
    requires Inv(s) && Enabled(s, DoSend(i, size))
    ensures Leads(s, [DoSend(i, size)], Send(s, i, size)) && Readable(s.ring.S, s.chunks[i].Off())
    ensures View(Send(s, i, size)) == View(s).(mem := SetSize(s.mem, s.chunks[i].Off(), size))
  {
    assert PlacedAt(s.ring, s.chunks, i);
    Go(s, DoSend(i, size), Send(s, i, size));
  }

  /** Clearing the first line and then the others clears all. */
  lemma ClearFirst(m: Memory, a: int, lines: int)
    requires 0 < lines
    ensures ClearLines(SetReady(m, a, false), a + LINE, LINE * (lines - 1)) == ClearLines(m, a, LINE * lines)
  {
    var x, y := ClearLines(SetReady(m, a, false), a + LINE, LINE * (lines - 1)), ClearLines(m, a, LINE * lines);
    forall k | 0 <= k < |m| ensures x[k] == y[k] { NextLine(k - a); }
  }

  lemma NextLine(d: int)
    ensures (d - LINE) % LINE == d % LINE && (0 <= d < LINE && d % LINE == 4 <==> d == 4)
  {
    assert d == LINE * (d / LINE) + d % LINE;
  }

  /** So does clearing the last line and then the others. */
  lemma ClearLast(m: Memory, a: int, lines: int)
    requires 0 < lines
    ensures ClearLines(SetReady(m, a + LINE * (lines - 1), false), a, LINE * (lines - 1))
            == ClearLines(m, a, LINE * lines)
  {
    var last := a + LINE * (lines - 1);
    var x, y := ClearLines(SetReady(m, last, false), a, LINE * (lines - 1)), ClearLines(m, a, LINE * lines);
    forall k | 0 <= k < |m| ensures x[k] == y[k] {
      var q, r := (k - a) / LINE, (k - a) % LINE;
      assert k - a == LINE * q + r && (q == lines - 1 && r == 4 <==> k == last + 4);
    }
  }

  /** One more line is cleared. */
  lemma OneLineCleared(s: State, low: bool)
    requires s.rpc.RFree? && s.rpc.lo < s.rpc.hi
    ensures var u := ClearLineStep(s, low);
            var lo, hi := if low then s.rpc.lo + 1 else s.rpc.lo, if low then s.rpc.hi else s.rpc.hi - 1;
            && u.rpc == (if lo < hi then RFree(s.rpc.at, lo, hi) else RIdle)
            && ClearLines(u.mem, s.rpc.at + LINE * lo, LINE * (hi - lo))
               == ClearLines(s.mem, s.rpc.at + LINE * s.rpc.lo, LINE * (s.rpc.hi - s.rpc.lo))
  {
    var a, lines := s.rpc.at + LINE * s.rpc.lo, s.rpc.hi - s.rpc.lo;
    if low { ClearFirst(s.mem, a, lines); } else { ClearLast(s.mem, a, lines); }
  }

  /** What one more cleared line leaves as it was. */
  lemma ClearLineRest(s: State, low: bool) returns (j: nat)
    requires Inv(s) && s.rpc.RFree?
    ensures var u := ClearLineStep(s, low);
            && Leads(s, [DoClearLine(low)], u) && Inv(u) && s.rpc.lo < s.rpc.hi
            && u == s.(mem := u.mem, rpc := u.rpc, chunks := u.chunks)
            && j == IndexOf(s.chunks, s.rpc.at) < |s.chunks| && IndexOf(u.chunks, s.rpc.at) == j
            && u.chunks == s.chunks[j := s.chunks[j].(stage := u.chunks[j].stage)]
                && (u.rpc == RIdle ==> u.chunks[j].stage == Freed)
  {
    var u := ClearLineStep(s, low);
    j := FreeingFacts(s);
    Go(s, DoClearLine(low), u);
    ClearLineInv(s, low);
    SameIndex(s, u, j);
  }

  /** The memory when all lines still to be cleared have been cleared. */
  function Cleared(s: State): Memory
    requires s.rpc.RFree?
  {
    ClearLines(s.mem, s.rpc.at + LINE * s.rpc.lo, LINE * (s.rpc.hi - s.rpc.lo))
  }

  /** The loop of `channel_free`, in either direction. */
  lemma {:induction false} ClearRefines(s: State, low: bool, final: Memory, j: nat)
    returns (acts: seq<Action>, t: State)
    requires Inv(s) && s.rpc.RFree? && final == Cleared(s) && j == IndexOf(s.chunks, s.rpc.at)
    ensures Leads(s, acts, t) && Inv(t) && j < |s.chunks|
    ensures t == s.(mem := final, rpc := RIdle, chunks := s.chunks[j := s.chunks[j].(stage := Freed)])
    decreases s.rpc.hi - s.rpc.lo
  {
    var u := ClearLineStep(s, low);
    var k := ClearLineRest(s, low);
    ClearedStep(s, low);
    acts, t := [DoClearLine(low)], u;
    if u.rpc.RFree? {
      var more;
      more, t := ClearRefines(u, low, final, j);
      LeadsOn(s, acts, u, more, t);
      acts := acts + more;
    }
  }

  lemma ClearedStep(s: State, low: bool)
    requires s.rpc.RFree? && s.rpc.lo < s.rpc.hi
    ensures var u := ClearLineStep(s, low);
            if u.rpc.RFree?
            then Cleared(u) == Cleared(s) && u.rpc.at == s.rpc.at && u.rpc.hi - u.rpc.lo < s.rpc.hi - s.rpc.lo
            else u.rpc == RIdle && u.mem == Cleared(s)
  {
    OneLineCleared(s, low);
    var u := ClearLineStep(s, low);
    if !u.rpc.RFree? {
      var a := if low then s.rpc.at + LINE * s.rpc.hi else s.rpc.at + LINE * s.rpc.lo;
      assert ClearLines(u.mem, a, 0) == u.mem;
    }
  }

  lemma FreeingFacts(s: State) returns (j: nat)
    requires Inv(s) && s.rpc.RFree?
    ensures IndexOf(s.chunks, s.rpc.at) == j < |s.chunks| && s.chunks[j].Off() == s.rpc.at
    ensures 0 <= s.rpc.lo < s.rpc.hi && 0 <= s.rpc.at && s.rpc.at % LINE == 0
  {
    var i :| FreeingAt(s.chunks, i, s.rpc);
    GeometryDisjoint(s.ring, s.chunks);
    IndexIs(s.chunks, s.ring.N(), i);
    assert HoldsIn(s, i) && InBuffer(s.chunks, s.ring.N(), i);
    j := i;
  }

  lemma SameIndex(s: State, u: State, j: nat)
    requires Inv(u) && |s.chunks| == |u.chunks| && j < |s.chunks| && u.chunks[j].Off() == s.chunks[j].Off()
    ensures IndexOf(u.chunks, s.chunks[j].Off()) == j
  {
    GeometryDisjoint(u.ring, u.chunks);
    IndexIs(u.chunks, u.ring.N(), j);
  }

  /** `channel_free` is a run of the model: it clears the lines of the message, which is free in the end. */
  lemma FreeRefines(s: State, i: nat, low: bool) returns (acts: seq<Action>, t: State)
    requires Inv(s) && Enabled(s, DoFree(i))
    ensures Leads(s, acts, t) && Inv(t)
    ensures var off := s.chunks[i].Off();
            && Readable(s.ring.S, off)
            && off + AllocedOf(s.mem, off) <= s.ring.S && AllocedOf(s.mem, off) % LINE == 0
            && t == s.(mem := ClearLines(s.mem, off, AllocedOf(s.mem, off)),
                chunks := s.chunks[i := s.chunks[i].(stage := Freed)])
  {
    var u, final := BeginFree(s, i);
    acts, t := ClearRefines(u, low, final, i);
    LeadsOn(s, [DoFree(i)], u, acts, t);
    acts := [DoFree(i)] + acts;
    assert t.chunks == s.chunks[i := s.chunks[i].(stage := Freed)];
  }

  lemma BeginFree(s: State, i: nat) returns (u: State, final: Memory)
    requires Inv(s) && Enabled(s, DoFree(i))
    ensures Leads(s, [DoFree(i)], u) && Inv(u) && u.rpc == RFree(s.chunks[i].Off(), 0, s.chunks[i].len)
    ensures final == Cleared(u) && IndexOf(u.chunks, u.rpc.at) == i
    ensures |u.chunks| == |s.chunks|
    ensures u == s.(rpc := u.rpc, chunks := s.chunks[i := s.chunks[i].(stage := u.chunks[i].stage)])
    ensures var off := s.chunks[i].Off();
            && Readable(s.ring.S, off) && off + AllocedOf(s.mem, off) <= s.ring.S && AllocedOf(s.mem, off) % LINE == 0
            && final == ClearLines(s.mem, off, AllocedOf(s.mem, off))
  {
    u := FreeStep(s, i);
    Go(s, DoFree(i), u);
    FreeInv(s, i);
    SameIndex(s, u, i);
    TakenHeader(s, i);
    final := Cleared(u);
  }

  /** The header of a message that is to be freed. */
  lemma TakenHeader(s: State, i: nat)
    requires Inv(s) && i < |s.chunks| && s.chunks[i].stage == Taken
    ensures var c := s.chunks[i];
            && Readable(s.ring.S, c.Off()) && c.Off() + c.Bytes() <= s.ring.S
            && AllocedOf(s.mem, c.Off()) == c.Bytes() == LINE * (c.Bytes() / LINE)
  {
    assert PlacedAt(s.ring, s.chunks, i) && HoldsIn(s, i);
  }

  // ---- the guard the code lacks ----

  /** One allocation that finds room at the head, from start to finish. */
  lemma AllocateHere(s: State, size: int, len: int) returns (acts: seq<Action>, t: State)
    requires Inv(s) && s.spc == SIdle && s.ring.tail != s.ring.S && size > 0 && len == MessageSize(s.ring.S, size) > 0
    requires FindRoom(s.ring.S, s.ring.head, s.ring.tail, len) == AtHead
    ensures Leads(s, acts, t) && Inv(t)
    ensures t == s.(ring := RingAtHead(s.ring, len), mem := t.mem, log := s.log + [None],
                    chunks := s.chunks + [Message(s.ring.hi, s.ring.head, len, |s.log|).(stage := Open)])
  {
    var u := Begin(s, size);
    BeginGo(s, size);
    BeginInv(s, size);
    t := HeaderSteps(u);
    LeadsOn(s, [DoAllocate(size)], u, WRITES, t);
    acts := [DoAllocate(size)] + WRITES;
  }

  /** The same for a message of one cache line, after a run. */
  lemma AllocateLine(s: State, acts: seq<Action>, u: State) returns (all: seq<Action>, t: State)
    requires Leads(s, acts, u) && Inv(u) && u.spc == SIdle && u.ring.tail != u.ring.S && u.ring.S >= 128
    requires FindRoom(u.ring.S, u.ring.head, u.ring.tail, LINE) == AtHead
    ensures Leads(s, all, t) && Inv(t)
    ensures t == u.(ring := RingAtHead(u.ring, LINE), mem := t.mem, log := u.log + [None],
                    chunks := u.chunks + [Message(u.ring.hi, u.ring.head, LINE, |u.log|).(stage := Open)])
  {
    var more;
    more, t := AllocateHere(u, LINE - HEADER, LINE);
    LeadsOn(s, acts, u, more, t);
    all := acts + more;
  }

  /** Two messages fill a buffer of two lines. */
  lemma FillTwoLines(s: State) returns (acts: seq<Action>, t: State)
    requires Init(s) && s.ring.S == 128
    ensures Leads(s, acts, t) && Inv(t) && t.spc == SIdle && t.rpc == RIdle && t.taken == 0
    ensures t.ring.S == t.ring.tail == 128 && t.ring.Full()
    ensures |t.chunks| == 2 == |t.log| && IndexAtZero(t.chunks) == 0
    ensures forall i :: 0 <= i < 2 ==> t.chunks[i].stage == Open && !t.chunks[i].wrap
    ensures forall i :: 0 <= i < 2 ==> t.chunks[i].len == 1 && t.chunks[i].id == i
  {
    InitInv(s);
    var u;
    acts, u := AllocateLine(s, [], s);
    acts, t := AllocateLine(s, acts, u);
  }

  /** Nothing has been freed, yet the next allocation reserves the space of the first message again. */
  lemma OverlapIsReachable(s: State) returns (acts: seq<Action>, t: State)
    requires Init(s) && s.ring.S == 128
    ensures Leads(s, acts, t) && Inv(t) && t.spc.SGc? && t.ring.Full()
    ensures !KeepsUnfreed(t, GcStep(t))
  {
    var v;
    acts, v := FillTwoLines(s);
    t := Begin(v, LINE - HEADER);
    BeginGo(v, LINE - HEADER);
    BeginInv(v, LINE - HEADER);
    LeadsOn(s, acts, v, [DoAllocate(LINE - HEADER)], t);
    acts := acts + [DoAllocate(LINE - HEADER)];
    assert t.chunks == v.chunks;
    CollectionExact(t);
  }

  /** Both messages are sent and received; then the receiver has nothing more to get but sees the first one. */
  lemma RedeliveryIsReachable(s: State) returns (acts: seq<Action>, t: State)
    requires Init(s) && s.ring.S == 128
    ensures Leads(s, acts, t) && Inv(t) && t.rpc == RIdle && NothingFreed(t) && |t.delivered| == |t.log| == 2
  {
    var u, v, w, x;
    acts, u := FillTwoLines(s);
    acts, v := SendNext(s, acts, u, 0);
    acts, w := SendNext(s, acts, v, 1);
    acts, x := TakeNext(s, acts, w);
    acts, t := TakeNext(s, acts, x);
  }

  lemma SendNext(s: State, acts: seq<Action>, u: State, i: nat) returns (all: seq<Action>, t: State)
    requires Leads(s, acts, u) && Inv(u) && u.spc == SIdle && i < |u.chunks| && u.chunks[i].stage == Open
    requires u.chunks[i].len > 0 && u.chunks[i].id < |u.log|
    ensures Leads(s, all, t) && Inv(t) && t.spc == SIdle && t.rpc == u.rpc && t.ring == u.ring && t.taken == u.taken
    ensures t.chunks == u.chunks[i := u.chunks[i].(stage := Sent, size := 1)] && |t.log| == |u.log|
    ensures t.delivered == u.delivered
  {
    t := Send(u, i, 1);
    SendRefines(u, i, 1);
    SendInv(u, i, 1);
    LeadsOn(s, acts, u, [DoSend(i, 1)], t);
    all := acts + [DoSend(i, 1)];
  }

  lemma TakeNext(s: State, acts: seq<Action>, u: State) returns (all: seq<Action>, t: State)
    requires Leads(s, acts, u) && Inv(u) && u.rpc == RIdle
    requires u.taken < |u.chunks| && u.chunks[u.taken].stage == Sent && !u.chunks[u.taken].wrap
    ensures Leads(s, all, t) && Inv(t) && t.rpc == RIdle && t.spc == u.spc && t.ring == u.ring && t.taken == u.taken + 1
    ensures t.chunks == u.chunks[u.taken := u.chunks[u.taken].(stage := Taken)] && t.log == u.log
    ensures |t.delivered| == |u.delivered| + 1
  {
    var c := u.chunks[u.taken];
    ReceiveDelivers(u);
    t := TakeStep(u.(rpc := RTake(c.size)), c.size);
    RunInv(u, [DoPoll, DoReadSize, DoTake]);
    LeadsOn(s, acts, u, [DoPoll, DoReadSize, DoTake], t);
    all := acts + [DoPoll, DoReadSize, DoTake];
  }

  // ---- a buffer that is set up again ----

  /** A message that nobody received is delivered by the next channel on the same buffer, where nothing was sent. */
  lemma StaleDelivery(s: State) returns (acts: seq<Action>, t: State)
    requires Init(s) && s.ring.S >= 128
    ensures Leads(s, acts, t) && Inv(t) && |t.log| == 1 && t.log[0].Some? && t.delivered == []
    ensures var f := FreshOn(t.ring.S, t.mem);
            var g := ReadSize(Poll(f));
            f.log == [] && g.rpc.RTake? && TakeStep(g, g.rpc.size).delivered == [t.log[0].value]
  {
    InitInv(s);
    var u;
    acts, u := AllocateLine(s, [], s);
    acts, t := SendNext(s, acts, u, 0);
    assert HoldsIn(t, 0);
  }

  // ---- freeing from the first line up ----

  /** A message of two lines is received, its first line is cleared, and another message fills the buffer. */
  lemma HalfFreed(s: State) returns (acts: seq<Action>, t: State)
    requires Init(s) && s.ring.S == 192
    ensures Leads(s, acts, t) && Inv(t) && t.spc == SIdle && t.rpc == RFree(0, 1, 2)
    ensures t.ring.S == t.ring.tail == 192 && t.ring.head == 0 && |t.chunks| == 2
    ensures var c, d := t.chunks[0], t.chunks[1];
            && c.start == 0 && c.len == 2 && c.stage == Freeing(1, 2) && c.size == 1 && !c.wrap
            && d.start == 2 && d.len == 1 && d.stage == Open && !d.wrap
  {
    InitInv(s);
    var u, v, w;
    acts, u := AllocateHere(s, 120, 128);
    acts, v := SendNext(s, acts, u, 0);
    acts, w := TakeNext(s, acts, v);
    acts, w := ClearsFirst(s, acts, w);
    acts, t := AllocateLine(s, acts, w);
  }

  lemma ClearsFirst(s: State, acts: seq<Action>, u: State) returns (all: seq<Action>, t: State)
    requires Leads(s, acts, u) && Inv(u) && Enabled(u, DoFree(0)) && u.chunks[0].len == 2
    ensures Leads(s, all, t) && Inv(t)
    ensures t == u.(mem := t.mem, rpc := RFree(u.chunks[0].Off(), 1, 2),
            chunks := u.chunks[0 := u.chunks[0].(stage := Freeing(1, 2))])
  {
    var v, final := BeginFree(u, 0);
    var k := ClearLineRest(v, true);
    t := ClearLineStep(v, true);
    assert t.rpc == RFree(v.rpc.at, 1, 2);
    LeadsOn(s, acts, u, [DoFree(0)], v);
    LeadsOn(s, acts + [DoFree(0)], v, [DoClearLine(true)], t);
    all := acts + [DoFree(0)] + [DoClearLine(true)];
  }

  /**
   The race of the order the code uses. The collector takes the message for freed, two allocations reuse
   its lines, and the line that is still to be cleared holds the header of the second one.
   */
  lemma UpwardsRace(s: State) returns (acts: seq<Action>, t: State, c: Fields, d: Fields)
    requires Init(s) && s.ring.S == 192
    ensures Leads(s, acts, t) && Inv(t) && t.spc == SIdle && t.rpc == RFree(0, 1, 2)
    ensures Allocated(View(t), LINE - HEADER, 1) == (c, HEADER)
    ensures Allocated(c, LINE - HEADER, 1) == (d, LINE + HEADER)
    ensures var line := t.rpc.at + LINE * t.rpc.lo;
            line == LINE && IsReady(d.mem, line) && NotReady(SetReady(d.mem, line, false), line)
  {
    acts, t := HalfFreed(s);
    var m := HalfFreedMemory(t);
    c := AllocatesOver(View(t));
    d := PlacedIn(c, LINE, AtHead);
    assert FindRoom(192, 64, 127, LINE) == AtHead;
    assert Allocated(c, LINE - HEADER, 1) == (d, LINE + HEADER);
  }

  lemma HalfFreedMemory(t: State) returns (m: Memory)
    requires Inv(t) && |t.chunks| == 2
    requires var c, d := t.chunks[0], t.chunks[1];
             && c.start == 0 && c.len == 2 && c.stage == Freeing(1, 2) && c.size == 1 && !c.wrap
             && d.start == 2 && d.len == 1 && d.stage == Open && !d.wrap && t.spc == SIdle
    ensures m == t.mem && !IsReady(m, 0) && SizeOf(m, 0) == 1 && AllocedOf(m, 0) == 128 && IsReady(m, 128)
  {
    m := t.mem;
    assert HoldsIn(t, 0) && HoldsIn(t, 1);
    FreedQuiet(t, 0);
  }

  /** An allocation whose collector passes the message at offset 0. */
  lemma AllocatesOver(c: Fields) returns (d: Fields)
    requires c.S == c.tail == |c.mem| == 192 && c.head == 0
    requires !IsReady(c.mem, 0) && SizeOf(c.mem, 0) == 1 && AllocedOf(c.mem, 0) == 128 && IsReady(c.mem, 128)
    ensures Allocated(c, LINE - HEADER, 1) == (d, HEADER)
    ensures d.S == |d.mem| == 192 && d.head == 64 && d.tail == 127
  {
    var e := c.(tail := 127);
    assert InitialFreed(192, 0, 192) == 0;
    assert GcTurn(192, 0, 192, 0, c.mem) == Advance(127, 128);
    assert GcTurn(192, 0, 127, 128, c.mem) == Stop;
    assert Collected(c, 1) == e;
    assert FindRoom(192, 0, 127, LINE) == AtHead;
    d := PlacedIn(e, LINE, AtHead);
  }
}
