/**
 The channel as two interleaved processes. Every write the other side can see is one step. The
 history part of the state records what the buffer is supposed to hold: chunks laid end to end on an
 unbounded tape of cache lines, of which the buffer shows the N lines from base on, and the next N
 lines wrapped around to its beginning. Positions and lengths of chunks count cache lines.
 */
module ChannelModel {
  import opened Options
  import opened ChannelCode
  import opened Runs

  /**
   Reserved, header complete, sent, handed to the receiver, being given back, given back. While it is
   being given back, the cache lines from lo up to hi of the message are still to be cleared.
   */
  datatype Stage = Raw | Open | Sent | Taken | Freeing(lo: int, hi: int) | Freed

  /** `wrap` marks a sentinel. `id` counts the messages allocated before this chunk. */
  datatype Chunk = Chunk(pos: int, start: int, len: int, wrap: bool, stage: Stage, id: nat, size: int)
  {
    /** Byte offset of the header. */
    function Off(): int {
      LINE * start
    }

    function Bytes(): int {
      LINE * len
    }
  }

  datatype SenderPc =
    | SIdle
    | SGc(len: int, again: bool, freed: int)
    | SWrap(at: int, written: nat, msgLen: int)  // msgLen == 0: the allocation itself fails
    | SInit(start: int, len: int, written: nat)

  datatype ReceiverPc =
    | RIdle
    | RReady               // saw the ready flag
    | RSkip                // saw a sentinel
    | RClear(at: int)      // moved next past the sentinel
    | RTake(size: int)     // saw a message
    | RFree(at: int, lo: int, hi: int)  // clears the lines from lo up to hi of the message at `at`

  /** The sender's fields, and the stretch [lo, hi) of the tape they stand for. */
  datatype Ring = Ring(S: int, head: int, tail: int, base: int, lo: int, hi: int)
  {
    /** Cache lines in the buffer. */
    function N(): int {
      S / LINE
    }

    predicate Full() {
      hi - lo == N()
    }
  }

  type Log = seq<Option<seq<Byte>>>

  datatype State = State(
    ring: Ring, next: int, mem: Memory, spc: SenderPc, rpc: ReceiverPc,
    // history
    chunks: seq<Chunk>, taken: nat,
    log: Log,                       // messages in allocation order; None until sent
    delivered: seq<seq<Byte>>)

  /** A fresh channel on a buffer in which no cache line looks ready. */
  ghost predicate Init(s: State) {
    && GoodSize(s.ring.S) && s.ring == Ring(s.ring.S, 0, s.ring.S - 1, 0, 0, 0) && s.next == 0
    && |s.mem| == s.ring.S && (forall l :: 0 <= l < s.ring.N() ==> NotReady(s.mem, LINE * l))
    && s.spc == SIdle && s.rpc == RIdle
    && s.chunks == [] && s.taken == 0 && s.log == [] && s.delivered == []
  }

  // ---- sender ----

  function Begin(s: State, size: int): State {
    var r := s.ring;
    var len := MessageSize(r.S, size);
    if len == 0 then s
    else if r.tail == r.S then s.(spc := SGc(len, false, InitialFreed(r.S, r.head, r.tail)))
    else Decide(s, len, false)
  }

  function Decide(s: State, len: int, again: bool): State {
    var r := s.ring;
    match FindRoom(r.S, r.head, r.tail, len)
    case AtHead =>
      s.(ring := RingAtHead(r, len), spc := SInit(r.head, len, 0),
         chunks := s.chunks + [Message(r.hi, r.head, len, |s.log|)], log := s.log + [None])
    case AtZero =>
      s.(ring := RingAtZero(r, len), spc := SWrap(r.head, 0, len),
         chunks := s.chunks + [Sentinel(r, |s.log|)] + [Message(RingGivenUp(r).hi, 0, len, |s.log|)],
         log := s.log + [None])
    case NoRoom =>
      if !again then s.(spc := SGc(len, true, InitialFreed(r.S, r.head, r.tail)))
      else if r.head > r.tail then
        // no room at either end: the rest of the lap is given up and the allocation fails
        s.(ring := RingGivenUp(r), spc := SWrap(r.head, 0, 0), chunks := s.chunks + [Sentinel(r, |s.log|)])
      else s.(spc := SIdle)
  }

  function Message(pos: int, start: int, len: int, id: nat): Chunk {
    Chunk(pos, start / LINE, len / LINE, false, Raw, id, 0)
  }

  function Sentinel(r: Ring, id: nat): Chunk {
    Chunk(r.hi, r.head / LINE, r.N() - r.head / LINE, true, Raw, id, 0)
  }

  function RingAtHead(r: Ring, len: int): Ring {
    r.(tail := NewTail(r.S, r.tail, r.head, len), head := NewHead(r.S, r.head, len), hi := r.hi + len / LINE)
  }

  function RingGivenUp(r: Ring): Ring {
    r.(head := 0, hi := r.hi + r.N() - r.head / LINE)
  }

  function RingAtZero(r: Ring, len: int): Ring {
    r.(tail := NewTail(r.S, r.tail, 0, len), head := NewHead(r.S, 0, len), hi := RingGivenUp(r).hi + len / LINE)
  }

  function GcStep(s: State): State
    requires s.spc.SGc?
  {
    var r := s.ring;
    match GcTurn(r.S, r.head, r.tail, s.spc.freed, s.mem)
    case Stop => Decide(s, s.spc.len, s.spc.again)
    case Advance(tail, freed) =>
      var n := Oldest(s) + 1;
      s.(ring := RingDropped(r, s.chunks, n).(tail := tail), spc := SGc(s.spc.len, s.spc.again, freed),
         chunks := if n <= |s.chunks| then s.chunks[n..] else [], taken := if s.taken >= n then s.taken - n else 0)
  }

  /** The stretch left when the first n chunks are forgotten. */
  function RingDropped(r: Ring, cs: seq<Chunk>, n: nat): Ring {
    if 0 < n <= |cs| then
      var end := cs[n - 1].pos + cs[n - 1].len;
      r.(lo := end, base := if end >= r.base + r.N() then r.base + r.N() else r.base)
    else r
  }

  /** Index of the chunk the collector looks at: the oldest, or the one at offset 0 of a full buffer. */
  function Oldest(s: State): nat {
    if s.ring.tail == s.ring.S then IndexAtZero(s.chunks) else 0
  }

  /** Index of the first chunk at offset `off`. */
  function IndexOf(cs: seq<Chunk>, off: int): nat {
    if cs == [] || cs[0].Off() == off then 0 else 1 + IndexOf(cs[1..], off)
  }

  function IndexAtZero(cs: seq<Chunk>): nat {
    IndexOf(cs, 0)
  }

  function WriteStep(s: State): State {
    match s.spc
    case SWrap(at, k, msgLen) =>
      var i := |s.chunks| - (if msgLen > 0 then 2 else 1);
      var t := s.(mem := WriteSentinel(s.ring.S, s.mem, at, k));
      if k < 2 then t.(spc := SWrap(at, k + 1, msgLen))
      else SetStage(t.(spc := if msgLen > 0 then SInit(0, msgLen, 0) else SIdle), i, Sent)
    case SInit(start, len, k) =>
      var t := s.(mem := WriteHeader(s.mem, start, len, k));
      if k == 0 then t.(spc := SInit(start, len, 1))
      else if k == 1 then SetStage(t.(spc := SInit(start, len, 2)), |s.chunks| - 1, Open)
      else t.(spc := SIdle)
    case _ => s
  }

  function SetStage(s: State, i: int, stage: Stage): State {
    if 0 <= i < |s.chunks| then s.(chunks := s.chunks[i := s.chunks[i].(stage := stage)]) else s
  }

  /** The sender fills in its message. */
  function Poke(s: State, addr: int, b: Byte): State {
    s.(mem := SetByte(s.mem, addr, b))
  }

  function Send(s: State, i: nat, size: int): State
    requires i < |s.chunks| && s.chunks[i].id < |s.log|
  {
    var c := s.chunks[i];
    s.(mem := SetSize(s.mem, c.Off(), size),
       chunks := s.chunks[i := c.(stage := Sent, size := size)],
       log := s.log[c.id := Some(Payload(s.mem, c.Off(), size))])
  }

  // ---- receiver ----

  function Poll(s: State): State {
    if NotReady(s.mem, s.next) then s else s.(rpc := RReady)
  }

  function ReadSize(s: State): State {
    var size := SizeOf(s.mem, s.next);
    s.(rpc := if size == 0 then RIdle else if size == WRAP then RSkip else RTake(size))
  }

  function SkipStep(s: State): State {
    SetStage(s.(next := 0, rpc := RClear(s.next), taken := s.taken + 1), s.taken, Taken)
  }

  function ClearStep(s: State, at: int): State {
    SetStage(s.(mem := SetReady(s.mem, at, false), rpc := RIdle), s.taken - 1, Freed)
  }

  function TakeStep(s: State, size: int): State {
    SetStage(s.(next := NewNext(s.ring.S, s.next, AllocedOf(s.mem, s.next)), rpc := RIdle, taken := s.taken + 1,
                delivered := s.delivered + [Payload(s.mem, s.next, size)]),
             s.taken, Taken)
  }

  /** `channel_free` finds out where the message ends. */
  function FreeStep(s: State, i: nat): State
    requires i < |s.chunks|
  {
    var at := s.chunks[i].Off();
    var lines := AllocedOf(s.mem, at) / LINE;
    SetStage(s.(rpc := RFree(at, 0, lines)), i, Freeing(0, lines))
  }

  /**
   It then clears the ready flag of one line after the other. The code takes the lowest line first; that
   it should take the highest one first is what its FIXME asks for. Here it may take either.
   */
  function ClearLineStep(s: State, low: bool): State
    requires s.rpc.RFree?
  {
    var at, line := s.rpc.at, if low then s.rpc.lo else s.rpc.hi - 1;
    var lo, hi := if low then s.rpc.lo + 1 else s.rpc.lo, if low then s.rpc.hi else s.rpc.hi - 1;
    SetStage(s.(mem := SetReady(s.mem, at + LINE * line, false), rpc := if lo < hi then RFree(at, lo, hi) else RIdle),
             IndexOf(s.chunks, at), if lo < hi then Freeing(lo, hi) else Freed)
  }

  // ---- runs ----

  datatype Action =
    | DoAllocate(size: int) | DoGc | DoWrite | DoPoke(i: nat, addr: int, b: Byte) | DoSend(i: nat, size: int)
    | DoPoll | DoReadSize | DoSkip | DoClear | DoTake | DoLeave
    | DoFree(i: nat) | DoClearLine(low: bool)

  /** The collector starts a full buffer at offset 0: everything up to that chunk must have been freed. */
  ghost predicate FreedUpToZero(s: State) {
    && IndexAtZero(s.chunks) < |s.chunks|
    && forall i :: 0 <= i <= IndexAtZero(s.chunks) ==> s.chunks[i].stage == Freed
  }

  /** The ready flag of the first line is down. */
  predicate LooksFreed(c: Chunk) {
    c.stage == Freed || (c.stage.Freeing? && c.stage.lo > 0)
  }

  predicate ZeroInUse(s: State) {
    IndexAtZero(s.chunks) < |s.chunks| && !LooksFreed(s.chunks[IndexAtZero(s.chunks)])
  }

  /**
   The collector passes only what has been freed completely. In a full buffer that means everything up
   to the chunk at offset 0, unless it stops there and the request is turned down.
   */
  ghost predicate CollectionSafe(s: State, len: int) {
    if s.ring.tail == s.ring.S
    then FreedUpToZero(s) || (ZeroInUse(s) && FindRoom(s.ring.S, s.ring.head, s.ring.tail, len) == NoRoom)
    else s.chunks != [] && LooksFreed(s.chunks[0]) ==> s.chunks[0].stage == Freed
  }

  /** Everything has been received, the buffer is full, and its oldest chunk has not been freed. */
  predicate NothingFreed(s: State) {
    s.taken == |s.chunks| > 0 && s.ring.Full() && s.chunks[0].stage != Freed
  }

  /**
   Program order of the two processes, the sender's and receiver's obligations towards their own
   messages, and the two conditions the code does not enforce: only a safe collection, no poll while
   `NothingFreed`. Messages may be freed in any order. `DoLeave` is a `channel_poll` that returns the
   size of a message and leaves it there.
   */
  ghost predicate Enabled(s: State, a: Action) {
    match a
    case DoAllocate(size) => s.spc == SIdle && size > 0
    case DoGc => s.spc.SGc? && CollectionSafe(s, s.spc.len)
    case DoWrite => s.spc.SWrap? || s.spc.SInit?
    case DoPoke(i, addr, _) =>
      && s.spc == SIdle && i < |s.chunks| && s.chunks[i].stage == Open
      && s.chunks[i].Off() + HEADER <= addr < s.chunks[i].Off() + s.chunks[i].Bytes()
    case DoSend(i, size) =>
      && s.spc == SIdle && i < |s.chunks| && s.chunks[i].stage == Open
      && 0 < size <= s.chunks[i].Bytes() - HEADER && s.chunks[i].id < |s.log|
    case DoPoll => s.rpc == RIdle && !NothingFreed(s)
    case DoReadSize => s.rpc == RReady
    case DoSkip => s.rpc == RSkip
    case DoClear => s.rpc.RClear?
    case DoTake => s.rpc.RTake?
    case DoLeave => s.rpc.RTake?
    case DoFree(i) => s.rpc == RIdle && i < |s.chunks| && s.chunks[i].stage == Taken
    case DoClearLine(_) => s.rpc.RFree?
  }

  ghost function Do(s: State, a: Action): State {
    if !Enabled(s, a) then s
    else match a
    case DoAllocate(size) => Begin(s, size)
    case DoGc => GcStep(s)
    case DoWrite => WriteStep(s)
    case DoPoke(_, addr, b) => Poke(s, addr, b)
    case DoSend(i, size) => Send(s, i, size)
    case DoPoll => Poll(s)
    case DoReadSize => ReadSize(s)
    case DoSkip => SkipStep(s)
    case DoClear => ClearStep(s, s.rpc.at)
    case DoTake => TakeStep(s, s.rpc.size)
    case DoLeave => s.(rpc := RIdle)
    case DoFree(i) => FreeStep(s, i)
    case DoClearLine(low) => ClearLineStep(s, low)
  }

  ghost function Channel(): System<State, Action> {
    System((s: State, a: Action) => Enabled(s, a), (s: State, a: Action) => Do(s, a))
  }
}
