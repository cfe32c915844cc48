/**
 What the calls of the channel answer, in terms of chunks and cache lines: how long a message becomes,
 when and where an allocation finds room, and what a receive returns.
 */
module ChannelAnswers {
  import opened Options
  import opened ChannelCode
  import opened ChannelModel
  import opened ChannelGeometry
  import opened ChannelInvariant
  import opened ChannelSteps
  import opened ChannelAlloc
  import opened ChannelTheorems
  import opened ChannelRefinement
  import opened HalfChannelCode

  // ---- allocation ----

  /** 0 exactly for a message too long for the buffer, otherwise the fewest whole lines that hold it. */
  lemma MessageSizeExact(S: int, size: int)
    requires GoodSize(S) && size > 0
    ensures MessageSize(S, size) == 0 <==> size + HEADER > S - LINE
    ensures var len := MessageSize(S, size);
            len != 0 ==> len % LINE == 0 && len - LINE < size + HEADER <= len
  {
  }

  /** The n lines from l on are in the buffer and belong to no chunk. */
  ghost predicate FreeLines(cs: seq<Chunk>, N: int, l: int, n: int) {
    0 <= l && l + n <= N && forall i :: 0 <= i < |cs| ==> Apart(cs[i].start, cs[i].len, l, n)
  }

  /** Every position of the tape between lo and hi is in a chunk. */
  lemma {:induction false} Covered(cs: seq<Chunk>, lo: int, hi: int, v: int) returns (i: nat)
    requires Tiled(cs, lo, hi) && lo <= v < hi
    ensures i < |cs| && cs[i].pos <= v < cs[i].pos + cs[i].len
  {
    var n := |cs| - 1;
    if cs[n].pos <= v {
      i := n;
    } else {
      forall a, b ensures EndsBefore(cs[..n], a, b) { assert EndsBefore(cs, a, b); }
      assert EndsBefore(cs, n - 1, n);
      i := Covered(cs[..n], lo, cs[n].pos, v);
    }
  }

  /** A line that shows an occupied position is not free. */
  lemma Occupied(r: Ring, cs: seq<Chunk>, v: int, l: int, n: int)
    requires Geometry(r, cs) && r.lo <= v < r.hi && l <= Phys(r, v) < l + n
    ensures !FreeLines(cs, r.N(), l, n)
  {
    var i := Covered(cs, r.lo, r.hi, v);
    assert PlacedAt(r, cs, i);
  }

  /** Lines that show no occupied position are free. */
  lemma Unoccupied(r: Ring, cs: seq<Chunk>, p: int, n: int)
    requires Geometry(r, cs) && r.hi <= p && 0 <= n && p + n <= r.lo + r.N() && p < r.base + 2 * r.N()
    requires p + n <= r.base + r.N() || p >= r.base + r.N()
    ensures FreeLines(cs, r.N(), Phys(r, p), n)
  {
    forall i | 0 <= i < |cs| ensures Apart(cs[i].start, cs[i].len, Phys(r, p), n) {
      assert PlacedAt(r, cs, i);
      PhysApart(r, cs[i].pos, cs[i].len, p, n);
    }
  }

  /** Where a message of len bytes goes, told by the chunks alone. */
  ghost predicate HeadFree(cs: seq<Chunk>, S: int, head: int, len: int) {
    FreeLines(cs, S / LINE, head / LINE, len / LINE)
  }

  ghost predicate ZeroFree(cs: seq<Chunk>, S: int, head: int, len: int) {
    len <= head && FreeLines(cs, S / LINE, 0, len / LINE)
  }

  lemma RoomExact(r: Ring, cs: seq<Chunk>, len: int)
    requires Geometry(r, cs) && !r.Full() && WholeLines(r.S, len)
    ensures FindRoom(r.S, r.head, r.tail, len) == AtHead <==> HeadFree(cs, r.S, r.head, len)
    ensures FindRoom(r.S, r.head, r.tail, len) == AtZero <==>
            !HeadFree(cs, r.S, r.head, len) && ZeroFree(cs, r.S, r.head, len)
    ensures FindRoom(r.S, r.head, r.tail, len) == AtZero ==> r.head + len > r.S
  {
    if r.hi < r.base + r.N() {
      FirstLap(r, cs, len);
    } else {
      SecondLap(r, cs, len);
    }
  }

  /** The head has not wrapped since the oldest chunk. */
  lemma FirstLap(r: Ring, cs: seq<Chunk>, len: int)
    requires Geometry(r, cs) && !r.Full() && WholeLines(r.S, len) && r.hi < r.base + r.N()
    ensures HeadFree(cs, r.S, r.head, len) <==> r.head + len <= r.S
    ensures ZeroFree(cs, r.S, r.head, len) <==> len <= LINE * (r.lo - r.base)
  {
    var n := len / LINE;
    if r.head + len <= r.S { Unoccupied(r, cs, r.hi, n); }
    if n <= r.lo - r.base {
      Unoccupied(r, cs, r.base + r.N(), n);
    } else if n <= r.hi - r.base {
      Occupied(r, cs, r.lo, 0, n);
    }
  }

  lemma SecondLap(r: Ring, cs: seq<Chunk>, len: int)
    requires Geometry(r, cs) && !r.Full() && WholeLines(r.S, len) && r.hi >= r.base + r.N()
    ensures HeadFree(cs, r.S, r.head, len) <==> r.head + len <= LINE * (r.lo - r.base)
    ensures !ZeroFree(cs, r.S, r.head, len)
  {
    var n := len / LINE;
    if r.head + len <= LINE * (r.lo - r.base) {
      Unoccupied(r, cs, r.hi, n);
    } else {
      Occupied(r, cs, r.lo, r.head / LINE, n);
    }
    if len <= r.head { Occupied(r, cs, r.base + r.N(), 0, n); }
  }

  /** Dropping chunks frees lines and takes none. */
  lemma {:induction false} DropFreedSuffix(cs: seq<Chunk>) returns (k: nat)
    ensures k <= |cs| && DropFreed(cs) == cs[k..]
    ensures forall i :: 0 <= i < k ==> cs[i].stage == Freed
    ensures k < |cs| ==> cs[k].stage != Freed
  {
    k := 0;
    if cs != [] && cs[0].stage == Freed {
      var j := DropFreedSuffix(cs[1..]);
      k := j + 1;
      assert cs[1..][j..] == cs[k..];
      forall i | 0 <= i < k ensures cs[i].stage == Freed { assert i > 0 ==> cs[1..][i - 1] == cs[i]; }
    }
  }

  lemma FreeStays(cs: seq<Chunk>, k: nat, N: int, l: int, n: int)
    requires k <= |cs| && FreeLines(cs, N, l, n)
    ensures FreeLines(cs[k..], N, l, n)
  {
    forall i | 0 <= i < |cs[k..]| ensures Apart(cs[k..][i].start, cs[k..][i].len, l, n) {
      assert cs[k..][i] == cs[k + i];
    }
  }

  /**
   The chunks that are left when everything freed at the old end has been collected. A full buffer is
   collected from the chunk at offset 0 on, and not at all while that is in use.
   */
  function AfterCollection(s: State): seq<Chunk> {
    if s.ring.tail == s.ring.S && ZeroInUse(s) then s.chunks else LeftBehind(s)
  }

  /** The state a collection leads to. */
  lemma CollectionState(s: State, turns: nat) returns (v: State)
    requires Inv(s) && !s.spc.SWrap? && !s.spc.SInit? && PassesOnlyFreed(s) && turns >= |s.chunks| && s.ring.S >= 128
    ensures !v.ring.Full() && v.chunks == LeftBehind(s) && |v.chunks| <= |s.chunks|
    ensures View(v) == Collected(View(s), turns) && Inv(v) && v.spc.SGc? && PassesOnlyFreed(v)
    ensures v.ring.S == s.ring.S && v.ring.head == s.ring.head
  {
    var u := CollectionStart(s);
    var acts;
    acts, v := GcRefines(u, turns, TailOf(u, turns));
    StoppedIsSafe(v);
  }

  lemma CollectionStart(s: State) returns (u: State)
    requires Inv(s) && !s.spc.SWrap? && !s.spc.SInit? && PassesOnlyFreed(s) && s.ring.S >= 128
    ensures u == s.(spc := SGc(LINE, false, InitialFreed(s.ring.S, s.ring.head, s.ring.tail)))
    ensures Inv(u) && PassesOnlyFreed(u) && LeftBehind(u) == LeftBehind(s) && View(u) == View(s)
  {
    InitialFreedOk(s.ring);
    u := s.(spc := SGc(LINE, false, InitialFreed(s.ring.S, s.ring.head, s.ring.tail)));
  }

  /** What an allocation answers, told by the chunks `cs` that its collections leave. */
  ghost predicate AllocationAnswer(cs: seq<Chunk>, S: int, head: int, size: int, after: Fields, data: int) {
    var len := MessageSize(S, size);
    if size + HEADER > S - LINE then data == -1
    else if HeadFree(cs, S, head, len) then data == head + HEADER
    else if ZeroFree(cs, S, head, len) then data == HEADER
    else data == -1 && after.head == if GivesUp(cs, S, head) then 0 else head
  }

  /** Both ends of the buffer are free: the lines from the head to the end, and those at offset 0. */
  ghost predicate GivesUp(cs: seq<Chunk>, S: int, head: int) {
    head > 0 && HeadFree(cs, S, head, S - head) && FreeLines(cs, S / LINE, 0, 1)
  }

  lemma GivesUpExact(r: Ring, cs: seq<Chunk>)
    requires Geometry(r, cs) && !r.Full()
    ensures GivesUp(cs, r.S, r.head) <==> r.head > r.tail
  {
    if r.hi < r.base + r.N() {
      Unoccupied(r, cs, r.hi, r.base + r.N() - r.hi);
      if r.lo == r.base {
        if r.hi > r.lo { Occupied(r, cs, r.lo, 0, 1); }
      } else {
        Unoccupied(r, cs, r.base + r.N(), 1);
      }
    } else if r.hi > r.base + r.N() {
      Occupied(r, cs, r.base + r.N(), 0, 1);
    }
  }

  /** What is found out about the room for len bytes among the chunks cs. */
  ghost predicate RoomAmong(cs: seq<Chunk>, e: Fields, len: int) {
    var room := RoomIn(e, len);
    && (room == AtHead <==> HeadFree(cs, e.S, e.head, len))
    && (room == AtZero <==> !HeadFree(cs, e.S, e.head, len) && ZeroFree(cs, e.S, e.head, len))
    && (e.head > e.tail <==> GivesUp(cs, e.S, e.head))
  }

  lemma RoomFound(v: State, size: int, len: int)
    requires Inv(v) && !v.ring.Full() && size > 0 && len == MessageSize(v.ring.S, size) != 0
    ensures RoomAmong(v.chunks, View(v), len)
  {
    MessageSizeWhole(v.ring.S, size);
    RoomExact(v.ring, v.chunks, len);
    GivesUpExact(v.ring, v.chunks);
  }

  /** The offset returned and the head afterwards once the room is decided on the fields e. */
  predicate Answers(e: Fields, len: int, after: Fields, data: int) {
    if RoomIn(e, len) == NoRoom then data == -1 && after.head == if e.head > e.tail then 0 else e.head
    else data == (if RoomIn(e, len) == AtZero then 0 else e.head) + HEADER
  }

  lemma AllocatedAnswers(c: Fields, size: int, len: int, turns: nat)
    requires len == MessageSize(c.S, size) != 0
    ensures var d := if c.tail == c.S then Collected(c, turns) else c;
            var (after, data) := Allocated(c, size, turns);
            Answers(if RoomIn(d, len) == NoRoom then Collected(d, turns) else d, len, after, data)
  {
  }

  lemma AnswersAmong(cs: seq<Chunk>, e: Fields, size: int, len: int, after: Fields, data: int)
    requires GoodSize(e.S) && size > 0 && len == MessageSize(e.S, size) != 0
    requires RoomAmong(cs, e, len) && Answers(e, len, after, data)
    ensures AllocationAnswer(cs, e.S, e.head, size, after, data)
  {
    MessageSizeExact(e.S, size);
  }

  /**
   `channel_allocate` returns a payload exactly when the message is not too long and, once everything
   freed has been collected, fits in one piece behind the head or at offset 0; and there it is.
   */
  lemma AllocateExact(s: State, size: int, turns: nat)
    requires Inv(s) && s.spc == SIdle && size > 0 && turns >= |s.chunks|
    requires AllocationSafe(s, MessageSize(s.ring.S, size))
    ensures var (after, data) := Allocated(View(s), size, turns);
            AllocationAnswer(AfterCollection(s), s.ring.S, s.ring.head, size, after, data)
  {
    var len := MessageSize(s.ring.S, size);
    MessageSizeExact(s.ring.S, size);
    if len == 0 {
    } else if s.ring.tail != s.ring.S {
      AnswerWhenOpen(s, size, len, turns);
    } else if PassesOnlyFreed(s) {
      AnswerWhenFull(s, size, len, turns);
    } else {
      var acts := TurnedDown(s, size, turns);
      NothingFree(s, len);
    }
  }

  lemma AnswerWhenOpen(s: State, size: int, len: int, turns: nat)
    requires Inv(s) && s.spc == SIdle && size > 0 && turns >= |s.chunks| && s.ring.tail != s.ring.S
    requires AllocationSafe(s, len) && len == MessageSize(s.ring.S, size) != 0
    ensures var (after, data) := Allocated(View(s), size, turns);
            AllocationAnswer(LeftBehind(s), s.ring.S, s.ring.head, size, after, data)
  {
    var (after, data) := Allocated(View(s), size, turns);
    AllocatedAnswers(View(s), size, len, turns);
    RoomFound(s, size, len);
    if RoomIn(View(s), len) == NoRoom {
      var v := CollectionState(s, turns);
      RoomFound(v, size, len);
      AnswersAmong(v.chunks, View(v), size, len, after, data);
    } else {
      AnswersAmong(s.chunks, View(s), size, len, after, data);
      RoomStays(s, size, len, after, data);
    }
  }

  /** Where there is room at once, it is also found among fewer chunks. */
  lemma RoomStays(s: State, size: int, len: int, after: Fields, data: int)
    requires Inv(s) && s.ring.tail != s.ring.S && size > 0 && len == MessageSize(s.ring.S, size) != 0
    requires RoomIn(View(s), len) != NoRoom && Answers(View(s), len, after, data)
    ensures AllocationAnswer(LeftBehind(s), s.ring.S, s.ring.head, size, after, data)
  {
    MessageSizeExact(s.ring.S, size);
    MessageSizeWhole(s.ring.S, size);
    RoomExact(s.ring, s.chunks, len);
    var k := DropFreedSuffix(s.chunks);
    var N, h, n := s.ring.S / LINE, s.ring.head / LINE, len / LINE;
    if RoomIn(View(s), len) == AtHead { FreeStays(s.chunks, k, N, h, n); } else { FreeStays(s.chunks, k, N, 0, n); }
  }

  lemma AnswerWhenFull(s: State, size: int, len: int, turns: nat)
    requires Inv(s) && s.spc == SIdle && size > 0 && turns >= |s.chunks| && s.ring.tail == s.ring.S
    requires PassesOnlyFreed(s) && len == MessageSize(s.ring.S, size) != 0
    ensures var (after, data) := Allocated(View(s), size, turns);
            AllocationAnswer(AfterCollection(s), s.ring.S, s.ring.head, size, after, data)
  {
    var (after, data) := Allocated(View(s), size, turns);
    AllocatedAnswers(View(s), size, len, turns);
    MessageSizeExact(s.ring.S, size);
    var v := CollectionState(s, turns);
    RoomFound(v, size, len);
    assert v.chunks == AfterCollection(s);
    if RoomIn(View(v), len) == NoRoom {
      var w := CollectionState(v, turns);
      CollectedTwice(s, v);
      RoomFound(w, size, len);
      AnswersAmong(w.chunks, View(w), size, len, after, data);
    } else {
      AnswersAmong(v.chunks, View(v), size, len, after, data);
    }
  }

  /** A second collection finds nothing more. */
  lemma CollectedTwice(s: State, v: State)
    requires v.chunks == LeftBehind(s) && v.ring.tail != v.ring.S
    ensures LeftBehind(v) == v.chunks
  {
    var z := IndexAtZero(s.chunks);
    var k := DropFreedSuffix(if s.ring.tail == s.ring.S && z < |s.chunks| then s.chunks[z + 1..] else s.chunks);
  }

  /** In a full buffer no line is free. */
  lemma NothingFree(s: State, len: int)
    requires Inv(s) && s.ring.Full() && len > 0
    ensures !HeadFree(s.chunks, s.ring.S, s.ring.head, len) || len < LINE
    ensures len >= LINE ==> !ZeroFree(s.chunks, s.ring.S, s.ring.head, len)
    ensures !GivesUp(s.chunks, s.ring.S, s.ring.head)
  {
    var r, cs := s.ring, s.chunks;
    var z := if r.lo == r.base then r.base else r.base + r.N();
    if len >= LINE {
      Occupied(r, cs, r.lo, r.head / LINE, len / LINE);
      Occupied(r, cs, z, 0, len / LINE);
    }
    Occupied(r, cs, z, 0, 1);
  }

  /** In an empty buffer a message is turned down exactly when it fits neither behind nor before the head. */
  lemma EmptyAnswer(S: int, head: int, size: int, after: Fields, data: int)
    requires GoodSize(S) && 0 <= head < S && head % LINE == 0 && size > 0
    requires AllocationAnswer([], S, head, size, after, data) && size + HEADER <= S - LINE
    ensures var len := MessageSize(S, size);
            && (data == -1 <==> len > S - head && len > head)
            && (data == -1 ==> after.head == 0)
  {
    MessageSizeWhole(S, size);
  }

  /**
   That happens: after two messages of one line each have come and gone, a buffer of four lines turns down
   a message of three.
   */
  lemma EmptyTurnsDown(s: State) returns (acts: seq<Action>, t: State)
    requires Init(s) && s.ring.S == 256
    ensures Leads(s, acts, t) && Inv(t) && t.spc == SIdle
    ensures forall i :: 0 <= i < |t.chunks| ==> t.chunks[i].stage == Freed
    ensures MessageSize(256, 184) == 192 <= 256 - LINE && Allocated(View(t), 184, 2).1 == -1
  {
    InitInv(s);
    var u;
    acts, u := ComesAndGoes(s, [], s);
    acts, t := ComesAndGoes(s, acts, u);
    var k := DropFreedSuffix(t.chunks);
    AllGuarded(t.chunks);
    AllocateExact(t, 184, 2);
    assert t.chunks[2..] == [];
    EmptyAnswer(256, 128, 184, Allocated(View(t), 184, 2).0, Allocated(View(t), 184, 2).1);
  }

  /** A message of one line is allocated, sent, received and freed. */
  lemma ComesAndGoes(s: State, acts: seq<Action>, u: State) returns (all: seq<Action>, t: State)
    requires Leads(s, acts, u) && Inv(u) && u.spc == SIdle && u.rpc == RIdle && u.taken == |u.chunks|
    requires u.ring.S == 256 && u.ring.tail == 255 && u.ring.head <= 64 && u.ring.head == LINE * |u.chunks|
    requires forall i :: 0 <= i < |u.chunks| ==> u.chunks[i].stage == Freed
    ensures Leads(s, all, t) && Inv(t) && t.spc == SIdle && t.rpc == RIdle && t.taken == |t.chunks| == |u.chunks| + 1
    ensures t.ring.S == 256 && t.ring.tail == 255 && t.ring.head == u.ring.head + LINE
    ensures forall i :: 0 <= i < |t.chunks| ==> t.chunks[i].stage == Freed
  {
    var n, v, w, x := |u.chunks|, u, u, u;
    all, v := AllocateLine(s, acts, u);
    all, w := SendNext(s, all, v, n);
    all, x := TakeNext(s, all, w);
    var more;
    more, t := FreeRefines(x, n, true);
    LeadsOn(s, all, x, more, t);
    all := all + more;
  }

  // ---- receiving ----

  /** The first chunk from i on that is not a sentinel to be passed. */
  function PastSentinels(cs: seq<Chunk>, i: nat): (k: nat)
    requires i <= |cs|
    ensures i <= k <= |cs| && SentinelsTo(cs, i, k) && (k < |cs| ==> !(cs[k].wrap && cs[k].stage == Sent))
    decreases |cs| - i
  {
    if i < |cs| && cs[i].wrap && cs[i].stage == Sent then PastSentinels(cs, i + 1) else i
  }

  /** Chunk k has been sent. */
  predicate IsSent(cs: seq<Chunk>, k: nat) {
    k < |cs| && cs[k].stage == Sent
  }

  /** The offset and the size of chunk k if it has been sent, 0 otherwise, with next behind what was passed. */
  predicate AnswersWith(cs: seq<Chunk>, head: int, k: nat, after: Fields, data: int, size: int)
    requires k <= |cs|
  {
    && (size != 0 <==> IsSent(cs, k))
    && (size != 0 ==> data == cs[k].Off() + HEADER && size == cs[k].size)
    && after.next == NextOffset(cs, if IsSent(cs, k) then k + 1 else k, head)
  }

  /**
   `channel_receive` returns the first message behind the sentinels exactly when it has been sent, with
   its place and size, and moves next past it.
   */
  lemma ReceiveExact(s: State, turns: nat)
    requires Inv(s) && s.rpc == RIdle && !NothingFreed(s) && turns >= |s.chunks| - s.taken
    ensures var (after, data, size) := Received(View(s), turns);
            AnswersWith(s.chunks, s.ring.head, PastSentinels(s.chunks, s.taken), after, data, size)
  {
    var d := Polled(View(s), turns);
    assert Received(View(s), turns) == HandOut(d);
    var acts, u := PassSentinels(s, turns, d);
    NoSentinelNow(u);
    assert PastSentinels(s.chunks, s.taken) == u.taken;
  }

  /** `channel_poll` returns the size of that message, or 0. */
  lemma PollExactly(s: State, turns: nat)
    requires Inv(s) && s.rpc == RIdle && !NothingFreed(s) && turns >= |s.chunks| - s.taken
    ensures var k := PastSentinels(s.chunks, s.taken);
            PollResult(Polled(View(s), turns)) == if IsSent(s.chunks, k) then s.chunks[k].size else 0
  {
    var acts, u := PassSentinels(s, turns, Polled(View(s), turns));
    NoSentinelNow(u);
    assert PastSentinels(s.chunks, s.taken) == u.taken;
  }

  /** What the header at next says when it is no sentinel. */
  lemma NoSentinelNow(s: State)
    requires Inv(s) && s.rpc == RIdle && !NothingFreed(s)
    requires NotReady(s.mem, s.next) || SizeOf(s.mem, s.next) != WRAP
    ensures s.taken < |s.chunks| ==> !(s.chunks[s.taken].wrap && s.chunks[s.taken].stage == Sent)
    ensures s.next == NextOffset(s.chunks, s.taken, s.ring.head)
    ensures IsSent(s.chunks, s.taken) <==> !NotReady(s.mem, s.next) && SizeOf(s.mem, s.next) != 0
    ensures IsSent(s.chunks, s.taken) ==>
              var c := s.chunks[s.taken];
              && SizeOf(s.mem, s.next) == c.size && s.next == c.Off()
              && NewNext(s.ring.S, s.next, AllocedOf(s.mem, s.next)) == NextOffset(s.chunks, s.taken + 1, s.ring.head)
  {
    if !NotReady(s.mem, s.next) {
      PollSeesNew(s);
      HeaderAtNext(s);
    }
    if s.taken < |s.chunks| {
      assert HoldsIn(s, s.taken) && PlacedAt(s.ring, s.chunks, s.taken);
      assert StageAt(s.chunks, s.taken, ClearingOf(s.rpc), WritingOf(s.spc, |s.chunks|), s.taken);
      NextStart(s.ring, s.chunks, s.taken);
    }
  }
}
