/**
 The channel operations as the in-place code they are: the loops of `_channel_gc`, `__channel_poll`
 and `channel_free` and the header writes, each proved to compute a function of the fields.
 */
module HalfChannelCode {
  import opened ChannelCode

  /** The fields of a HalfChannel. */
  datatype Fields = Fields(S: int, head: int, tail: int, next: int, mem: Memory)

  predicate Readable(S: int, o: int) {
    0 <= o && o + HEADER <= S
  }

  function GcOffset(S: int, tail: int): int {
    if tail + 1 >= S then 0 else tail + 1
  }

  /** Where the collector leaves tail, if it stops within the given number of turns. */
  function GcLoop(S: int, head: int, tail: int, freed: int, m: Memory, turns: nat): int
    decreases turns
  {
    match GcTurn(S, head, tail, freed, m)
    case Stop => tail
    case Advance(t, f) => if turns == 0 then tail else GcLoop(S, head, t, f, m, turns - 1)
  }

  predicate GcStops(S: int, head: int, tail: int, freed: int, m: Memory, turns: nat)
    decreases turns
  {
    && Readable(S, GcOffset(S, tail))
    && match GcTurn(S, head, tail, freed, m)
       case Stop => true
       case Advance(t, f) => turns > 0 && GcStops(S, head, t, f, m, turns - 1)
  }

  lemma GcOneTurn(S: int, head: int, tail: int, freed: int, m: Memory, turns: nat)
    requires GcStops(S, head, tail, freed, m, turns)
    ensures Readable(S, GcOffset(S, tail))
    ensures match GcTurn(S, head, tail, freed, m)
            case Stop => GcLoop(S, head, tail, freed, m, turns) == tail
            case Advance(t, f) =>
              && turns > 0 && GcStops(S, head, t, f, m, turns - 1)
              && GcLoop(S, head, tail, freed, m, turns) == GcLoop(S, head, t, f, m, turns - 1)
  {
  }

  function Collected(c: Fields, turns: nat): Fields {
    c.(tail := GcLoop(c.S, c.head, c.tail, InitialFreed(c.S, c.head, c.tail), c.mem, turns))
  }

  predicate Collectable(c: Fields, turns: nat) {
    GcStops(c.S, c.head, c.tail, InitialFreed(c.S, c.head, c.tail), c.mem, turns)
  }

  function SentinelWritten(S: int, m: Memory, at: int): Memory {
    WriteSentinel(S, WriteSentinel(S, WriteSentinel(S, m, at, 0), at, 1), at, 2)
  }

  function HeaderWritten(m: Memory, start: int, len: int): Memory {
    WriteHeader(WriteHeader(WriteHeader(m, start, len, 0), start, len, 1), start, len, 2)
  }

  /** A message of len bytes placed where FindRoom says. */
  function PlacedIn(c: Fields, len: int, room: Room): Fields
    requires room != NoRoom
  {
    var start := if room == AtZero then 0 else c.head;
    var m := if room == AtZero then SentinelWritten(c.S, c.mem, c.head) else c.mem;
    c.(tail := NewTail(c.S, c.tail, start, len), head := NewHead(c.S, start, len), mem := HeaderWritten(m, start, len))
  }

  function RoomIn(c: Fields, len: int): Room {
    FindRoom(c.S, c.head, c.tail, len)
  }

  /** After `if (tail == SHARED_SIZE) _channel_gc(out)`. */
  function Prepared(c: Fields, turns: nat): Fields {
    if c.tail == c.S then Collected(c, turns) else c
  }

  /** `channel_allocate`: the fields afterwards and the payload's offset, or -1 for NULL. */
  function Allocated(c: Fields, size: int, turns: nat): (Fields, int) {
    var len := MessageSize(c.S, size);
    if len == 0 then (c, -1)
    else
      var d := Prepared(c, turns);
      var e := if RoomIn(d, len) == NoRoom then Collected(d, turns) else d;
      var room := RoomIn(e, len);
      if room == NoRoom then
        (if e.head > e.tail then e.(head := 0, mem := SentinelWritten(e.S, e.mem, e.head)) else e, -1)
      else
        (PlacedIn(e, len, room), (if room == AtZero then 0 else e.head) + HEADER)
  }

  /** The collections of an allocation stop within `turns` turns, and its headers lie in the buffer. */
  predicate AllocateSafe(c: Fields, size: int, turns: nat) {
    && Readable(c.S, c.head)
    && (c.tail == c.S ==> Collectable(c, turns))
    && (MessageSize(c.S, size) != 0 && RoomIn(Prepared(c, turns), MessageSize(c.S, size)) == NoRoom ==>
          Collectable(Prepared(c, turns), turns))
  }

  /** `__channel_poll`: passes sentinels and stops at the first other header. */
  function Polled(c: Fields, turns: nat): Fields
    decreases turns
  {
    if turns == 0 || NotReady(c.mem, c.next) || SizeOf(c.mem, c.next) != WRAP then c
    else Polled(c.(next := 0, mem := SetReady(c.mem, c.next, false)), turns - 1)
  }

  predicate PollStops(c: Fields, turns: nat)
    decreases turns
  {
    && Readable(c.S, c.next)
    && (!NotReady(c.mem, c.next) && SizeOf(c.mem, c.next) == WRAP ==>
          turns > 0 && PollStops(c.(next := 0, mem := SetReady(c.mem, c.next, false)), turns - 1))
  }

  /** `channel_receive`: the fields afterwards, the payload's offset and its size, 0 for nothing. */
  function Received(c: Fields, turns: nat): (Fields, int, int) {
    var d := Polled(c, turns);
    var size := SizeOf(d.mem, d.next);
    if NotReady(d.mem, d.next) || size == 0 then (d, 0, 0)
    else (d.(next := NewNext(d.S, d.next, AllocedOf(d.mem, d.next))), d.next + HEADER, size)
  }

  class HalfChannel {
    const S: int
    const shared: array<Byte>
    var head: int
    var tail: int
    var next: int

    ghost function Value(): Fields
      reads this, shared
    {
      Fields(S, head, tail, next, shared[..])
    }

    ghost predicate Valid() {
      S == shared.Length
    }

    /** `__channel_setup_owned`, on a buffer of zeros as a new shared mapping gives. */
    constructor (size: nat)
      ensures Valid() && fresh(shared)
      ensures Value() == Fields(size, 0, size - 1, 0, seq(size, _ => 0))
    {
      S := size;
      shared := new Byte[size](_ => 0);
      head, tail, next := 0, size - 1, 0;
    }

    method StoreWord(o: int, v: int)
      requires 0 <= o && o + 1 < shared.Length
      modifies shared
      ensures shared[..] == SetWord(old(shared[..]), o, v)
    {
      shared[o] := v % 256;
      shared[o + 1] := (v / 256) % 256;
    }

    method StoreReady(o: int, ready: bool)
      requires 0 <= o && o + 4 < shared.Length
      modifies shared
      ensures shared[..] == SetReady(old(shared[..]), o, ready)
    {
      shared[o + 4] := if ready then 1 else 0;
    }

    method LoadWord(o: int) returns (v: int)
      requires 0 <= o && o + 1 < shared.Length
      ensures v == Word(shared[..], o)
    {
      var low: int, high: int := shared[o], shared[o + 1];
      v := low + 256 * high;
    }

    method StoreSentinel(at: int)
      requires Valid() && Readable(S, at)
      modifies shared
      ensures shared[..] == SentinelWritten(S, old(shared[..]), at)
    {
      StoreWord(at, WRAP);
      StoreWord(at + 2, S - at);
      StoreReady(at, true);
    }

    method StoreHeader(start: int, len: int)
      requires Valid() && Readable(S, start)
      modifies shared
      ensures shared[..] == HeaderWritten(old(shared[..]), start, len)
    {
      StoreWord(start, 0);
      StoreReady(start, true);
      StoreWord(start + 2, len);
    }

    /** One turn of the loop of `_channel_gc`. */
    method GcStep(freed: int) returns (turn: GcOutcome)
      requires Valid() && Readable(S, GcOffset(S, tail))
      ensures turn == GcTurn(S, head, tail, freed, shared[..])
    {
      var freeing := tail + 1;
      if freeing == head || freed == S {
        return Stop;
      }
      if freeing >= S {
        freeing := 0;
      }
      if shared[freeing + 4] == 1 {
        return Stop;
      }
      var size := LoadWord(freeing);
      var alloced := LoadWord(freeing + 2);
      turn := Advance(if size != WRAP then freeing + alloced - 1 else S - 1, freed + alloced);
    }

    method Gc(ghost turns: nat)
      requires Valid() && Collectable(Value(), turns)
      modifies this`tail
      ensures Value() == Collected(old(Value()), turns)
    {
      var freed := InitialFreed(S, head, tail);
      ghost var left, m := turns, shared[..];
      ghost var goal := GcLoop(S, head, tail, freed, m, turns);
      assert goal == Collected(Value(), turns).tail;
      while true
        invariant m == shared[..]
        invariant GcStops(S, head, tail, freed, m, left) <==> true
        invariant GcLoop(S, head, tail, freed, m, left) == goal
        decreases left
      {
        GcOneTurn(S, head, tail, freed, m, left);
        var turn := GcStep(freed);
        if turn == Stop {
          return;
        }
        tail, freed, left := turn.tail, turn.freed, left - 1;
      }
    }

    method Allocate(size: int, ghost turns: nat) returns (data: int)
      requires Valid() && AllocateSafe(Value(), size, turns)
      modifies this`head, this`tail, shared
      ensures (Value(), data) == Allocated(old(Value()), size, turns)
    {
      var len := MessageSize(S, size);
      if len == 0 {
        return -1;
      }
      if tail == S {
        Gc(turns);
      }
      var room := FindRoom(S, head, tail, len);
      if room == NoRoom {
        Gc(turns);
        room := FindRoom(S, head, tail, len);
        if room == NoRoom {
          if head > tail {
            var at := head;
            head := 0;
            StoreSentinel(at);
          }
          return -1;
        }
      }
      data := (if room == AtZero then 0 else head) + HEADER;
      Place(len, room);
    }

    method Place(len: int, room: Room)
      requires Valid() && Readable(S, head) && room != NoRoom
      modifies this`head, this`tail, shared
      ensures Value() == PlacedIn(old(Value()), len, room)
    {
      var start, at := if room == AtZero then 0 else head, head;
      if start + len == tail + 1 {
        tail := S;
      }
      head := if start + len >= S then 0 else start + len;
      if room == AtZero {
        StoreSentinel(at);
      }
      StoreHeader(start, len);
    }

    method Send(data: int, size: int)
      requires Valid() && Readable(S, data - HEADER)
      modifies shared
      ensures shared[..] == SetSize(old(shared[..]), data - HEADER, size)
    {
      StoreWord(data - HEADER, size);
    }

    method Receive(ghost turns: nat) returns (data: int, size: int)
      requires Valid() && PollStops(Value(), turns)
      modifies this`next, shared
      ensures (Value(), data, size) == Received(old(Value()), turns)
    {
      ghost var left := turns;
      while true
        invariant PollStops(Value(), left)
        invariant Polled(Value(), left) == Polled(old(Value()), turns)
        decreases left
      {
        if shared[next + 4] == 0 {
          return 0, 0;
        }
        size := LoadWord(next);
        if size == 0 {
          return 0, 0;
        }
        if size != WRAP {
          break;
        }
        var at := next;
        next := 0;
        StoreReady(at, false);
        left := left - 1;
      }
      var alloced := LoadWord(next + 2);
      data := next + HEADER;
      next := if next + alloced >= S then 0 else next + alloced;
    }

    method Free(data: int)
      requires Valid() && Readable(S, data - HEADER)
      requires data - HEADER + AllocedOf(shared[..], data - HEADER) <= S
      requires AllocedOf(shared[..], data - HEADER) % LINE == 0
      modifies shared
      ensures shared[..] == ClearLines(old(shared[..]), data - HEADER, AllocedOf(old(shared[..]), data - HEADER))
    {
      var start := data - HEADER;
      var alloced := LoadWord(start + 2);
      var message := start;
      ghost var m, k, n := shared[..], 0, alloced / LINE;
      while message < start + alloced
        invariant 0 <= k <= n && message == start + LINE * k && alloced == LINE * n
        invariant shared[..] == ClearLines(m, start, LINE * k)
      {
        StoreReady(message, false);
        ClearOneMore(m, start, k);
        message, k := message + LINE, k + 1;
      }
    }
  }

  lemma ClearOneMore(m: Memory, start: int, k: int)
    requires 0 <= start && 0 <= k && start + LINE * (k + 1) <= |m|
    ensures ClearLines(m, start, LINE * (k + 1)) == SetReady(ClearLines(m, start, LINE * k), start + LINE * k, false)
  {
  }
}
