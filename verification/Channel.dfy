/**
 The shared-memory message channel of messaging/include/channel.h: one sender, one receiver, a ring
 of cache lines. The sender owns head and tail, the receiver owns next, and both see the bytes of the
 buffer, where each message starts with a header {size, alloced, ready}. This file gives the code as
 functions on those values and then as two processes whose shared writes interleave freely.
 */
module ChannelCode {

  const LINE := 64                     // CACHELINE_SIZE
  const HEADER := 8                    // sizeof(Message)
  const WRAP := 0xFFFF                 // size field of the sentinel of a wrapped allocation
  const TWO_64 := 0x1_0000_0000_0000_0000

  type Byte = x: int | 0 <= x < 256
  type Memory = seq<Byte>

  /** SHARED_SIZE: whole cache lines, and small enough for the 16-bit header fields. */
  predicate GoodSize(S: int) {
    S % LINE == 0 && LINE <= S < 65536
  }

  function ByteAt(m: Memory, o: int): Byte {
    if 0 <= o < |m| then m[o] else 0
  }

  function SetByte(m: Memory, o: int, b: Byte): (r: Memory)
    ensures |r| == |m|
    ensures forall k :: 0 <= k < |m| && k != o ==> r[k] == m[k]
    ensures 0 <= o < |m| ==> r[o] == b
  {
    if 0 <= o < |m| then m[o := b] else m
  }

  function Word(m: Memory, o: int): int {
    ByteAt(m, o) + 256 * ByteAt(m, o + 1)
  }

  function SetWord(m: Memory, o: int, v: int): (r: Memory)
    ensures |r| == |m|
    ensures forall k :: 0 <= k < |m| && k != o && k != o + 1 ==> r[k] == m[k]
    ensures 0 <= o && o + 1 < |m| && 0 <= v < 65536 ==> Word(r, o) == v
  {
    SetByte(SetByte(m, o, v % 256), o + 1, (v / 256) % 256)
  }

  // Header of the message at offset o.

  function SizeOf(m: Memory, o: int): int {
    Word(m, o)
  }

  function AllocedOf(m: Memory, o: int): int {
    Word(m, o + 2)
  }

  predicate IsReady(m: Memory, o: int) {
    ByteAt(m, o + 4) == 1
  }

  predicate NotReady(m: Memory, o: int) {
    ByteAt(m, o + 4) == 0
  }

  function SetSize(m: Memory, o: int, v: int): Memory {
    SetWord(m, o, v)
  }

  function SetAlloced(m: Memory, o: int, v: int): Memory {
    SetWord(m, o + 2, v)
  }

  function SetReady(m: Memory, o: int, ready: bool): Memory {
    SetByte(m, o + 4, if ready then 1 else 0)
  }

  /** `_channel_message_size`: payload plus header, rounded up to whole lines; 0 if it cannot fit. */
  function MessageSize(S: int, size: int): int {
    var total := size + HEADER;
    if total > S - LINE then 0
    else if total % LINE != 0 then total - total % LINE + LINE
    else total
  }

  // ---- garbage collector ----

  /** Subtraction of two size_t values. */
  function SizeSub(a: int, b: int): int {
    if a >= b then a - b else a - b + TWO_64
  }

  /** The value `freed` starts with. */
  function InitialFreed(S: int, head: int, tail: int): int {
    var f := SizeSub(tail + 1, head);
    var g := if head > tail then SizeSub(S, f) else f;
    if g > S then 0 else g
  }

  datatype GcOutcome = Stop | Advance(tail: int, freed: int)

  /** One turn of the loop of `_channel_gc`. */
  function GcTurn(S: int, head: int, tail: int, freed: int, m: Memory): GcOutcome {
    var freeing := tail + 1;
    if freeing == head || freed == S then Stop
    else
      var at := if freeing >= S then 0 else freeing;
      if IsReady(m, at) then Stop
      else Advance(if SizeOf(m, at) != WRAP then at + AllocedOf(m, at) - 1 else S - 1,
                   freed + AllocedOf(m, at))
  }

  // ---- allocator ----

  datatype Room = AtHead | AtZero | NoRoom

  /** The two tests of `channel_allocate`. */
  function FindRoom(S: int, head: int, tail: int, len: int): Room {
    if (head < tail && len <= tail + 1 - head) || (head > tail && len <= S - head) then AtHead
    else if head > tail && len <= tail + 1 then AtZero
    else NoRoom
  }

  function NewHead(S: int, start: int, len: int): int {
    if start + len >= S then 0 else start + len
  }

  /** SHARED_SIZE marks a buffer that has been filled completely. */
  function NewTail(S: int, tail: int, start: int, len: int): int {
    if start + len == tail + 1 then S else tail
  }

  /** The three writes of a sentinel, in program order. */
  function WriteSentinel(S: int, m: Memory, at: int, k: nat): Memory {
    if k == 0 then SetSize(m, at, WRAP)
    else if k == 1 then SetAlloced(m, at, S - at)
    else SetReady(m, at, true)
  }

  /** The three writes of a fresh message header, in program order. */
  function WriteHeader(m: Memory, start: int, len: int, k: nat): Memory {
    if k == 0 then SetSize(m, start, 0)
    else if k == 1 then SetReady(m, start, true)
    else SetAlloced(m, start, len)
  }

  // ---- receiver ----

  function NewNext(S: int, next: int, alloced: int): int {
    if next + alloced >= S then 0 else next + alloced
  }

  /** `channel_free`: every cache line of the message stops being ready. */
  function ClearLines(m: Memory, start: int, len: int): (r: Memory)
    ensures |r| == |m|
  {
    seq(|m|, i requires 0 <= i < |m| => if start <= i < start + len && (i - start) % LINE == 4 then 0 else m[i])
  }

  function Payload(m: Memory, start: int, size: int): seq<Byte> {
    if 0 <= start + HEADER <= start + HEADER + size <= |m| then m[start + HEADER..start + HEADER + size] else []
  }
}
