/**
 What every reachable state of the channel satisfies. Each part of the invariant mentions only the
 fields it is about, so that a step has to re-establish only the parts it touches.
 */
module ChannelInvariant {
  import opened Options
  import opened ChannelCode
  import opened ChannelModel
  import opened ChannelGeometry

  predicate InUse(c: Chunk) {
    c.stage == Open || c.stage == Sent || c.stage == Taken
  }

  predicate Given(c: Chunk) {
    c.stage == Taken || c.stage.Freeing? || c.stage == Freed
  }

  /** Cache line l of the buffer may carry a ready flag or payload of c. */
  predicate Covers(c: Chunk, l: int) {
    && c.start <= l < c.start + c.len
    && if c.stage.Freeing? then c.start + c.stage.lo <= l < c.start + c.stage.hi
       else InUse(c) && (c.wrap ==> l == c.start)
  }

  ghost predicate Busy(cs: seq<Chunk>, l: int) {
    exists i :: 0 <= i < |cs| && Covers(cs[i], l)
  }

  predicate Quiet(m: Memory, l: int) {
    ByteAt(m, LINE * l + 4) == 0
  }

  /** What the buffer holds for one chunk. While `pending`, its last header write is still to come. */
  predicate Holds(m: Memory, log: Log, c: Chunk, pending: bool) {
    && (c.stage != Raw ==> SizeOf(m, c.Off()) == if c.wrap then WRAP else c.size)
    && (c.stage != Raw && !pending ==> AllocedOf(m, c.Off()) == c.Bytes())
    && (InUse(c) ==> IsReady(m, c.Off()))
    && (c.stage.Freeing? ==> !c.wrap && 0 <= c.stage.lo < c.stage.hi <= c.len)
    && (c.stage.Freeing? && c.stage.lo == 0 ==> IsReady(m, c.Off()))
    && (c.stage == Open ==> c.size == 0)
    && (pending ==> c.stage == Open)
    && (!c.wrap && (c.stage == Raw || c.stage == Open) ==> c.id < |log| && log[c.id] == None)
    && (!c.wrap && (c.stage == Sent || Given(c)) ==> 0 < c.size <= c.Bytes() - HEADER)
    && (!c.wrap && (c.stage == Sent || c.stage == Taken) ==>
          c.id < |log| && log[c.id] == Some(Payload(m, c.Off(), c.size)))
  }

  predicate HoldsAt(m: Memory, log: Log, cs: seq<Chunk>, pending: int, i: int) {
    0 <= i < |cs| ==> Holds(m, log, cs[i], i == pending)
  }

  ghost predicate QuietOrBusy(m: Memory, cs: seq<Chunk>, N: int, l: int) {
    0 <= l < N ==> Busy(cs, l) || Quiet(m, l)
  }

  /** Every header is right, and every line no chunk uses has its ready flag down. */
  ghost predicate Stored(S: int, m: Memory, log: Log, cs: seq<Chunk>, pending: int) {
    && |m| == S
    && (forall i :: HoldsAt(m, log, cs, pending, i))
    && (forall l :: QuietOrBusy(m, cs, S / LINE, l))
  }

  /** Index of the message, among n chunks, whose header still lacks its last write, or -1. */
  function PendingOf(spc: SenderPc, n: int): int {
    if spc.SInit? && spc.written == 2 then n - 1 else -1
  }

  predicate StageOk(c: Chunk, i: int, taken: int, clearing: ReceiverPc, writing: int) {
    && (i < taken <==> Given(c))
    && (c.wrap ==> c.stage != Open)
    && (c.wrap && c.stage == Taken ==> clearing == RClear(c.Off()) && i == taken - 1)
    && (c.stage.Freeing? ==> clearing == RFree(c.Off(), c.stage.lo, c.stage.hi))
    && (c.stage == Raw ==> i >= writing)
  }

  predicate StageAt(cs: seq<Chunk>, taken: int, clearing: ReceiverPc, writing: int, i: int) {
    0 <= i < |cs| ==> StageOk(cs[i], i, taken, clearing, writing)
  }

  ghost predicate Stages(cs: seq<Chunk>, taken: int, clearing: ReceiverPc, writing: int) {
    0 <= taken <= |cs| && forall i :: StageAt(cs, taken, clearing, writing, i)
  }

  /** What the receiver is clearing: a sentinel it has skipped or a message. */
  function ClearingOf(rpc: ReceiverPc): ReceiverPc {
    if rpc.RClear? || rpc.RFree? then rpc else RIdle
  }

  /** Index, among n chunks, from which chunks may still be raw. */
  function WritingOf(spc: SenderPc, n: int): int {
    match spc
    case SWrap(_, _, m) => n - (if m > 0 then 2 else 1)
    case SInit(_, _, k) => if k < 2 then n - 1 else n
    case _ => n
  }

  function IdAfter(c: Chunk): nat {
    if c.wrap then c.id else c.id + 1
  }

  predicate IdBefore(cs: seq<Chunk>, i: int, j: int) {
    0 <= i < j < |cs| ==> IdAfter(cs[i]) <= cs[j].id && (j == i + 1 ==> IdAfter(cs[i]) == cs[j].id)
  }

  /** Messages are numbered in allocation order; `count` is the number of the next one. */
  ghost predicate Numbered(cs: seq<Chunk>, count: int) {
    && (forall i, j :: IdBefore(cs, i, j))
    && (cs != [] ==> IdAfter(cs[|cs| - 1]) == count)
  }

  function NextId(cs: seq<Chunk>, taken: int, count: int): int {
    if 0 <= taken < |cs| then cs[taken].id else count
  }

  function NextOffset(cs: seq<Chunk>, taken: int, head: int): int {
    if 0 <= taken < |cs| then cs[taken].Off() else head
  }

  /** Deliveries so far are the oldest messages, as sent. */
  ghost predicate InOrder(log: Log, delivered: seq<seq<Byte>>) {
    |delivered| <= |log| && forall k :: DeliveredAt(log, delivered, k)
  }

  predicate DeliveredAt(log: Log, delivered: seq<seq<Byte>>, k: int) {
    0 <= k < |delivered| && k < |log| ==> log[k] == Some(delivered[k])
  }

  /** `freed` never makes the collector stop too early or run past the head. */
  predicate FreedOk(r: Ring, freed: int) {
    if r.Full() then freed == if r.head == 0 then 0 else r.S + 1 - r.head
    else
      || freed == r.S - LINE * (r.hi - r.lo)
      || (r.lo > r.base && r.hi < r.base + r.N()
          && (freed + LINE * (r.hi - r.lo) < r.S || freed % LINE == 1 || r.hi == r.lo))
  }

  predicate SentinelOk(m: Memory, S: int, c: Chunk, at: int, k: nat) {
    && c.wrap && c.stage == Raw && c.Off() == at && k < 3
    && (k > 0 ==> SizeOf(m, at) == WRAP)
    && (k > 1 ==> AllocedOf(m, at) == S - at)
  }

  predicate FreshOk(m: Memory, c: Chunk, start: int, len: int, k: nat) {
    && !c.wrap && c.Off() == start && c.Bytes() == len && c.size == 0 && k < 3
    && c.stage == (if k < 2 then Raw else Open)
    && (k > 0 ==> SizeOf(m, start) == 0)
  }

  predicate SenderOk(spc: SenderPc, r: Ring, m: Memory, cs: seq<Chunk>) {
    var n := |cs|;
    match spc
    case SIdle => true
    case SGc(len, _, freed) => WholeLines(r.S, len) && FreedOk(r, freed)
    case SWrap(at, k, msgLen) =>
      if msgLen > 0 then n >= 2 && SentinelOk(m, r.S, cs[n - 2], at, k) && FreshOk(m, cs[n - 1], 0, msgLen, 0)
      else n >= 1 && SentinelOk(m, r.S, cs[n - 1], at, k)
    case SInit(start, len, k) => n >= 1 && FreshOk(m, cs[n - 1], start, len, k)
  }

  predicate FreeingAt(cs: seq<Chunk>, i: int, rpc: ReceiverPc) {
    0 <= i < |cs| && cs[i].stage.Freeing? && rpc == RFree(cs[i].Off(), cs[i].stage.lo, cs[i].stage.hi)
  }

  ghost predicate ReceiverOk(rpc: ReceiverPc, cs: seq<Chunk>, taken: int) {
    match rpc
    case RIdle => true
    case RReady => 0 <= taken < |cs| && InUse(cs[taken])
    case RSkip => 0 <= taken < |cs| && cs[taken].wrap && cs[taken].stage == Sent
    case RClear(at) =>
      0 < taken <= |cs| && cs[taken - 1].wrap && cs[taken - 1].stage == Taken && cs[taken - 1].Off() == at
    case RTake(size) => 0 <= taken < |cs| && !cs[taken].wrap && cs[taken].stage == Sent && cs[taken].size == size
    case RFree(_, _, _) => exists i :: FreeingAt(cs, i, rpc)
  }

  /** What the receiver is doing is about chunks it has been given; it goes on when others change. */
  lemma ReceiverKeeps(rpc: ReceiverPc, cs: seq<Chunk>, ds: seq<Chunk>, taken: int, clearing: ReceiverPc, writing: int)
    requires ReceiverOk(rpc, cs, taken) && rpc.RFree? && Stages(cs, taken, clearing, writing) && taken <= |ds|
    requires forall i :: 0 <= i < taken ==> ds[i] == cs[i]
    ensures ReceiverOk(rpc, ds, taken)
  {
    var i :| FreeingAt(cs, i, rpc);
    assert StageAt(cs, taken, clearing, writing, i);
    assert FreeingAt(ds, i, rpc);
  }

  /**
   The invariant, kept as one proposition: a step re-establishes it as a whole, part by part only in its own
   lemma.
   */
  ghost predicate Inv(s: State) {
    Consistent(s) <==> true
  }

  ghost predicate Consistent(s: State) {
    && Geometry(s.ring, s.chunks)
    && Stored(s.ring.S, s.mem, s.log, s.chunks, PendingOf(s.spc, |s.chunks|))
    && Stages(s.chunks, s.taken, ClearingOf(s.rpc), WritingOf(s.spc, |s.chunks|))
    && s.next == NextOffset(s.chunks, s.taken, s.ring.head)
    && Numbered(s.chunks, |s.log|) && |s.delivered| == NextId(s.chunks, s.taken, |s.log|)
    && InOrder(s.log, s.delivered)
    && SenderOk(s.spc, s.ring, s.mem, s.chunks) && ReceiverOk(s.rpc, s.chunks, s.taken)
  }

  lemma InitInv(s: State)
    requires Init(s)
    ensures Inv(s)
  {
    forall l ensures QuietOrBusy(s.mem, s.chunks, s.ring.S / LINE, l) {
      if 0 <= l < s.ring.S / LINE { assert NotReady(s.mem, LINE * l); }
    }
  }

  // ---- framing ----

  predicate SameIn(m: Memory, m': Memory, a: int, n: int) {
    |m| == |m'| && forall k :: 0 <= k < |m| && a <= k < a + n ==> m'[k] == m[k]
  }

  predicate SameOut(m: Memory, m': Memory, a: int, n: int) {
    |m| == |m'| && forall k :: 0 <= k < |m| && !(a <= k < a + n) ==> m'[k] == m[k]
  }

  lemma HoldsFrame(m: Memory, log: Log, m': Memory, log': Log, c: Chunk, p: bool)
    requires Holds(m, log, c, p)
    requires 0 <= c.Off() && 0 < c.len && c.Off() + c.Bytes() <= |m|
    requires SameIn(m, m', c.Off(), c.Bytes())
    requires |log| <= |log'| && (!c.wrap && c.id < |log| ==> log'[c.id] == log[c.id])
    ensures Holds(m', log', c, p)
  {
    if !c.wrap && (c.stage == Sent || c.stage == Taken) {
      assert Payload(m', c.Off(), c.size) == Payload(m, c.Off(), c.size);
    }
  }

  /** A step that only touches chunk j, its own bytes and its own log entry. */
  ghost predicate Touches(cs: seq<Chunk>, m: Memory, log: Log, cs': seq<Chunk>, m': Memory, log': Log, j: int) {
    && 0 <= j < |cs| == |cs'| && cs' == cs[j := cs'[j]]
    && SamePlace(cs[j], cs'[j]) && cs'[j].id == cs[j].id
    && SameOut(m, m', cs[j].Off(), cs[j].Bytes())
    && |log| == |log'| && (forall k :: 0 <= k < |log| && (cs[j].wrap || k != cs[j].id) ==> log'[k] == log[k])
  }

  /** Line l of chunk c is either still its own or quiet. */
  predicate LineOk(c: Chunk, m: Memory, l: int) {
    c.start <= l < c.start + c.len ==> Covers(c, l) || Quiet(m, l)
  }

  lemma TouchStored(S: int, cs: seq<Chunk>, m: Memory, log: Log, p: int, cs': seq<Chunk>, m': Memory, log': Log,
                    p': int, j: int)
    requires Disjoint(cs, S / LINE) && Stored(S, m, log, cs, p) && Numbered(cs, |log|)
    requires Touches(cs, m, log, cs', m', log', j)
    requires p == p' || (p in {j, -1} && p' in {j, -1})
    requires Holds(m', log', cs'[j], j == p')
    requires forall l :: LineOk(cs'[j], m', l)
    ensures Stored(S, m', log', cs', p')
  {
    forall i ensures HoldsAt(m', log', cs', p', i) {
      if 0 <= i < |cs| && i != j { TouchHolds(S, cs, m, log, p, cs', m', log', j, i); }
    }
    forall l ensures QuietOrBusy(m', cs', S / LINE, l) {
      if 0 <= l < S / LINE {
        assert LineOk(cs'[j], m', l);
        TouchLine(S, cs, m, log, p, cs', m', log', j, l);
      }
    }
  }

  lemma TouchHolds(S: int, cs: seq<Chunk>, m: Memory, log: Log, p: int, cs': seq<Chunk>, m': Memory, log': Log,
                   j: int, i: int)
    requires Disjoint(cs, S / LINE) && Stored(S, m, log, cs, p) && Numbered(cs, |log|)
    requires Touches(cs, m, log, cs', m', log', j)
    requires 0 <= i < |cs| && i != j
    ensures Holds(m', log', cs'[i], i == p)
  {
    var c := cs[i];
    assert HoldsAt(m, log, cs, p, i) && InBuffer(cs, S / LINE, i) && InBuffer(cs, S / LINE, j) && ApartAt(cs, i, j);
    assert IdBefore(cs, i, j) && IdBefore(cs, j, i);
    HoldsFrame(m, log, m', log', c, i == p);
  }

  lemma TouchLine(S: int, cs: seq<Chunk>, m: Memory, log: Log, p: int, cs': seq<Chunk>, m': Memory, log': Log, j: int,
                  l: int)
    requires Disjoint(cs, S / LINE) && Stored(S, m, log, cs, p)
    requires Touches(cs, m, log, cs', m', log', j)
    requires 0 <= l < S / LINE && LineOk(cs'[j], m', l)
    ensures Busy(cs', l) || Quiet(m', l)
  {
    var c := cs[j];
    assert QuietOrBusy(m, cs, S / LINE, l);
    if c.start <= l < c.start + c.len {
      assert Covers(cs'[j], l) ==> Busy(cs', l);
    } else if Busy(cs, l) {
      var i :| 0 <= i < |cs| && Covers(cs[i], l);
      assert InBuffer(cs, S / LINE, i);
      assert i != j && cs'[i] == cs[i];
    }
  }

  /** A line inside a chunk that covers nothing is quiet. */
  lemma IdleQuiet(S: int, m: Memory, log: Log, cs: seq<Chunk>, p: int, i: int, l: int)
    requires Disjoint(cs, S / LINE) && Stored(S, m, log, cs, p) && 0 <= i < |cs| && !Covers(cs[i], l)
    requires cs[i].start <= l < cs[i].start + cs[i].len
    ensures Quiet(m, l)
  {
    assert InBuffer(cs, S / LINE, i) && QuietOrBusy(m, cs, S / LINE, l);
    forall k | 0 <= k < |cs| ensures !Covers(cs[k], l) {
      assert InBuffer(cs, S / LINE, k) && ApartAt(cs, i, k);
    }
  }

  lemma HeadQuiet(r: Ring, m: Memory, log: Log, cs: seq<Chunk>, p: int)
    requires Geometry(r, cs) && Stored(r.S, m, log, cs, p) && !r.Full()
    ensures Quiet(m, r.head / LINE)
  {
    var l := r.head / LINE;
    assert QuietOrBusy(m, cs, r.S / LINE, l);
    forall k | 0 <= k < |cs| ensures !Covers(cs[k], l) {
      HeadApart(r, cs, k);
      assert PlacedAt(r, cs, k);
    }
  }

  /** Numbers and positions do not change when a chunk only changes its stage. */
  lemma TouchNumbered(cs: seq<Chunk>, m: Memory, log: Log, cs': seq<Chunk>, m': Memory, log': Log, j: int, taken: int,
                      head: int)
    requires Touches(cs, m, log, cs', m', log', j) && Numbered(cs, |log|)
    ensures Numbered(cs', |log'|)
    ensures NextId(cs', taken, |log'|) == NextId(cs, taken, |log|)
    ensures NextOffset(cs', taken, head) == NextOffset(cs, taken, head)
  {
    forall i, k ensures IdBefore(cs', i, k) { assert IdBefore(cs, i, k); }
  }

  /** Log entries of messages already delivered do not change. */
  lemma TouchInOrder(cs: seq<Chunk>, m: Memory, log: Log, cs': seq<Chunk>, m': Memory, log': Log, j: int,
                     delivered: seq<seq<Byte>>)
    requires Touches(cs, m, log, cs', m', log', j) && InOrder(log, delivered)
    requires cs[j].wrap || cs[j].id >= |delivered| || log' == log
    ensures InOrder(log', delivered)
  {
    forall k ensures DeliveredAt(log', delivered, k) { assert DeliveredAt(log, delivered, k); }
  }
}
