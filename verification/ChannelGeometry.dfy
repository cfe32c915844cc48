/** Where chunks lie: the tiling of the ring, and how each of the sender's moves keeps it. */
module ChannelGeometry {
  import opened ChannelCode
  import opened ChannelModel

  /** Cache line of the buffer that shows position v. */
  function Phys(r: Ring, v: int): int {
    if v < r.base + r.N() then v - r.base else v - r.base - r.N()
  }

  predicate Placed(r: Ring, c: Chunk) {
    && 1 <= c.len && r.lo <= c.pos && c.pos + c.len <= r.hi
    && (c.pos + c.len <= r.base + r.N() || c.pos >= r.base + r.N())
    && c.start == Phys(r, c.pos) && 0 <= c.start && c.start + c.len <= r.N()
    && (if c.wrap then c.start > 0 && c.start + c.len == r.N() && r.lo > r.base else c.len < r.N())
  }

  predicate EndsBefore(cs: seq<Chunk>, i: int, j: int) {
    0 <= i < j < |cs| ==> cs[i].pos + cs[i].len <= cs[j].pos && (j == i + 1 ==> cs[i].pos + cs[i].len == cs[j].pos)
  }

  /** The chunks lie end to end from lo to hi. */
  ghost predicate Tiled(cs: seq<Chunk>, lo: int, hi: int) {
    && (if cs == [] then lo == hi else cs[0].pos == lo && cs[|cs| - 1].pos + cs[|cs| - 1].len == hi)
    && (forall i, j :: EndsBefore(cs, i, j))
  }

  /** head and tail are the two ends of the occupied stretch [lo, hi). */
  predicate Ends(r: Ring) {
    && GoodSize(r.S)
    && r.base <= r.lo < r.base + r.N() && r.lo <= r.hi <= r.lo + r.N()
    && r.head == LINE * Phys(r, r.hi)
    && r.tail == (if r.Full() then r.S else if r.lo == r.base then r.S - 1 else LINE * (r.lo - r.base) - 1)
  }

  predicate PlacedAt(r: Ring, cs: seq<Chunk>, i: int) {
    0 <= i < |cs| ==> Placed(r, cs[i])
  }

  ghost predicate AllPlaced(r: Ring, cs: seq<Chunk>) {
    forall i :: PlacedAt(r, cs, i)
  }

  ghost predicate Geometry(r: Ring, cs: seq<Chunk>) {
    Ends(r) && Tiled(cs, r.lo, r.hi) && AllPlaced(r, cs)
  }

  predicate Apart(a: int, l: int, b: int, m: int) {
    a + l <= b || b + m <= a
  }

  /** Two pieces of the window that do not overlap as positions do not overlap in the buffer. */
  lemma PhysApart(r: Ring, p: int, l: int, q: int, m: int)
    requires r.base <= p < r.base + 2 * r.N() && 0 <= l && 0 <= m && p + l <= q && q + m <= p + r.N()
    requires q < r.base + 2 * r.N() && q + m <= r.base + 2 * r.N()
    requires p + l <= r.base + r.N() || p >= r.base + r.N()
    requires q + m <= r.base + r.N() || q >= r.base + r.N()
    ensures Apart(Phys(r, p), l, Phys(r, q), m)
  {
  }

  predicate ApartAt(cs: seq<Chunk>, i: int, j: int) {
    0 <= i < |cs| && 0 <= j < |cs| && i != j ==> Apart(cs[i].start, cs[i].len, cs[j].start, cs[j].len)
  }

  predicate InBuffer(cs: seq<Chunk>, N: int, i: int) {
    0 <= i < |cs| ==> 0 <= cs[i].start && 1 <= cs[i].len && cs[i].start + cs[i].len <= N
  }

  /** Chunks stay inside the buffer and share no cache line. */
  ghost predicate Disjoint(cs: seq<Chunk>, N: int) {
    (forall i :: InBuffer(cs, N, i)) && (forall i, j :: ApartAt(cs, i, j))
  }

  lemma GeometryDisjoint(r: Ring, cs: seq<Chunk>)
    requires Geometry(r, cs)
    ensures Disjoint(cs, r.N())
  {
    forall i ensures InBuffer(cs, r.N(), i) {
      assert PlacedAt(r, cs, i);
    }
    forall i, j ensures ApartAt(cs, i, j) {
      if 0 <= i < |cs| && 0 <= j < |cs| && i != j {
        var a, b := if i < j then i else j, if i < j then j else i;
        assert PlacedAt(r, cs, a) && PlacedAt(r, cs, b) && EndsBefore(cs, a, b);
        PhysApart(r, cs[a].pos, cs[a].len, cs[b].pos, cs[b].len);
      }
    }
  }

  /** A free line at the head belongs to no chunk. */
  lemma HeadApart(r: Ring, cs: seq<Chunk>, i: int)
    requires Geometry(r, cs) && !r.Full() && 0 <= i < |cs|
    ensures Apart(cs[i].start, cs[i].len, r.head / LINE, 1)
  {
    assert PlacedAt(r, cs, i);
    PhysApart(r, cs[i].pos, cs[i].len, r.hi, 1);
  }

  /** The end of a chunk is the start of the next one, or the head. */
  lemma NextStart(r: Ring, cs: seq<Chunk>, i: int)
    requires Geometry(r, cs) && 0 <= i < |cs|
    ensures NewNext(r.S, cs[i].Off(), cs[i].Bytes()) == if i + 1 < |cs| then cs[i + 1].Off() else r.head
  {
    assert PlacedAt(r, cs, i) && PlacedAt(r, cs, i + 1) && EndsBefore(cs, i, i + 1);
  }

  /** Nothing before the chunk at offset 0 reaches the second lap. */
  lemma {:induction false} NoZeroNoEnd(r: Ring, cs: seq<Chunk>, i: nat)
    requires Geometry(r, cs) && i < |cs|
    requires forall k :: 0 <= k <= i ==> cs[k].start != 0
    ensures cs[i].pos + cs[i].len <= r.base + r.N()
  {
    assert PlacedAt(r, cs, i);
    if i > 0 {
      NoZeroNoEnd(r, cs, i - 1);
      assert EndsBefore(cs, i - 1, i);
    }
  }

  lemma {:induction false} ZeroBetween(r: Ring, cs: seq<Chunk>, i: nat)
    requires Geometry(r, cs) && r.Full() && i < |cs|
    requires forall k :: 0 <= k < i ==> cs[k].start != 0
    ensures i + IndexAtZero(cs[i..]) < |cs|
    ensures cs[i + IndexAtZero(cs[i..])].start == 0
    decreases |cs| - i
  {
    if cs[i].start != 0 {
      assert PlacedAt(r, cs, 0);
      if i + 1 == |cs| {
        NoZeroNoEnd(r, cs, i);
        assert false;
      }
      assert cs[i..][1..] == cs[i + 1..];
      ZeroBetween(r, cs, i + 1);
    }
  }

  /** A full buffer has a message at offset 0, the first of the second lap unless the first lap starts there. */
  lemma ZeroChunk(r: Ring, cs: seq<Chunk>)
    requires Geometry(r, cs) && r.Full()
    ensures var k := IndexAtZero(cs);
            && k < |cs| && cs[k].start == 0 && !cs[k].wrap
            && cs[k].pos == (if r.lo == r.base then r.base else r.base + r.N())
  {
    assert cs[0..] == cs;
    ZeroBetween(r, cs, 0);
    var k := IndexAtZero(cs);
    assert PlacedAt(r, cs, k) && PlacedAt(r, cs, 0) && EndsBefore(cs, 0, k);
  }

  // ---- the sender's moves ----

  predicate SamePlace(c: Chunk, d: Chunk) {
    c.pos == d.pos && c.start == d.start && c.len == d.len && c.wrap == d.wrap
  }

  lemma SamePlaceGeometry(r: Ring, cs: seq<Chunk>, j: int, d: Chunk)
    requires Geometry(r, cs) && 0 <= j < |cs| && SamePlace(cs[j], d)
    ensures Geometry(r, cs[j := d])
  {
    var ds := cs[j := d];
    forall i ensures PlacedAt(r, ds, i) { assert PlacedAt(r, cs, i); }
    forall i, k ensures EndsBefore(ds, i, k) { assert EndsBefore(cs, i, k); }
  }

  /** A chunk put at hi keeps the tiling. */
  lemma ExtendTiles(cs: seq<Chunk>, lo: int, hi: int, c: Chunk)
    requires Tiled(cs, lo, hi) && (forall i :: 0 <= i < |cs| ==> cs[i].pos + cs[i].len <= hi)
    requires c.pos == hi && c.len > 0
    ensures Tiled(cs + [c], lo, hi + c.len)
  {
    forall i, j ensures EndsBefore(cs + [c], i, j) { assert EndsBefore(cs, i, j); }
  }

  /** Old chunks stay where they are when only the head moves on. */
  lemma Extend(r: Ring, cs: seq<Chunk>, c: Chunk, t: Ring)
    requires Geometry(r, cs) && Ends(t) && Placed(t, c)
    requires c.pos == r.hi && t.hi == r.hi + c.len && t.lo == r.lo && t.base == r.base && t.S == r.S
    ensures Geometry(t, cs + [c])
  {
    forall i | 0 <= i < |cs| ensures cs[i].pos + cs[i].len <= r.hi { assert PlacedAt(r, cs, i); }
    ExtendTiles(cs, r.lo, r.hi, c);
    forall i ensures PlacedAt(t, cs + [c], i) { assert PlacedAt(r, cs, i); }
  }

  predicate WholeLines(S: int, len: int) {
    len == LINE * (len / LINE) && LINE <= len <= S - LINE
  }

  lemma RoomAtHead(r: Ring, len: int, id: nat)
    requires Ends(r) && r.tail != r.S && WholeLines(r.S, len)
    requires FindRoom(r.S, r.head, r.tail, len) == AtHead
    ensures Ends(RingAtHead(r, len)) && Placed(RingAtHead(r, len), Message(r.hi, r.head, len, id))
  {
  }

  lemma RoomAtZero(r: Ring, len: int, id: nat)
    requires Ends(r) && r.tail != r.S && WholeLines(r.S, len)
    requires FindRoom(r.S, r.head, r.tail, len) == AtZero
    ensures Ends(RingAtZero(r, len)) && Placed(RingAtZero(r, len), Message(RingGivenUp(r).hi, 0, len, id))
  {
  }

  lemma RoomToGiveUp(r: Ring, id: nat)
    requires Ends(r) && r.tail != r.S && r.head > r.tail
    ensures Ends(RingGivenUp(r)) && Placed(RingGivenUp(r), Sentinel(r, id))
  {
  }

  lemma AtHeadGeometry(r: Ring, cs: seq<Chunk>, len: int, id: nat)
    requires Geometry(r, cs) && r.tail != r.S && WholeLines(r.S, len)
    requires FindRoom(r.S, r.head, r.tail, len) == AtHead
    ensures Geometry(RingAtHead(r, len), cs + [Message(r.hi, r.head, len, id)])
  {
    RoomAtHead(r, len, id);
    Extend(r, cs, Message(r.hi, r.head, len, id), RingAtHead(r, len));
  }

  lemma GivenUpGeometry(r: Ring, cs: seq<Chunk>, id: nat)
    requires Geometry(r, cs) && r.tail != r.S && r.head > r.tail
    ensures Geometry(RingGivenUp(r), cs + [Sentinel(r, id)])
  {
    RoomToGiveUp(r, id);
    Extend(r, cs, Sentinel(r, id), RingGivenUp(r));
  }

  lemma AtZeroGeometry(r: Ring, cs: seq<Chunk>, len: int, id: nat)
    requires Geometry(r, cs) && r.tail != r.S && WholeLines(r.S, len)
    requires FindRoom(r.S, r.head, r.tail, len) == AtZero
    ensures Geometry(RingAtZero(r, len), cs + [Sentinel(r, id)] + [Message(RingGivenUp(r).hi, 0, len, id)])
  {
    GivenUpGeometry(r, cs, id);
    RoomAtZero(r, len, id);
    Extend(RingGivenUp(r), cs + [Sentinel(r, id)], Message(RingGivenUp(r).hi, 0, len, id), RingAtZero(r, len));
  }

  /** Where the collector leaves tail when it has passed c. */
  function TailAfter(c: Chunk): int {
    c.Off() + c.Bytes() - 1
  }

  lemma DropEnds(r: Ring, cs: seq<Chunk>, n: nat)
    requires Ends(r) && 0 < n <= |cs| && Placed(r, cs[n - 1])
    ensures Ends(RingDropped(r, cs, n).(tail := TailAfter(cs[n - 1])))
    ensures !RingDropped(r, cs, n).Full()
  {
  }

  lemma DropPlaced(r: Ring, cs: seq<Chunk>, n: nat, d: Chunk)
    requires Ends(r) && 0 < n <= |cs| && Placed(r, cs[n - 1]) && Placed(r, d)
    requires cs[n - 1].pos + cs[n - 1].len <= d.pos
    ensures Placed(RingDropped(r, cs, n), d)
  {
  }

  lemma DropTiled(cs: seq<Chunk>, lo: int, hi: int, n: nat)
    requires Tiled(cs, lo, hi) && 0 < n <= |cs|
    ensures Tiled(cs[n..], cs[n - 1].pos + cs[n - 1].len, hi)
  {
    assert EndsBefore(cs, n - 1, n);
    forall i, j ensures EndsBefore(cs[n..], i, j) { assert EndsBefore(cs, n + i, n + j); }
  }

  lemma DropGeometry(r: Ring, cs: seq<Chunk>, n: nat)
    requires Geometry(r, cs) && 0 < n <= |cs|
    ensures Geometry(RingDropped(r, cs, n).(tail := TailAfter(cs[n - 1])), cs[n..])
  {
    var t := RingDropped(r, cs, n).(tail := TailAfter(cs[n - 1]));
    assert PlacedAt(r, cs, n - 1);
    DropEnds(r, cs, n);
    DropTiled(cs, r.lo, r.hi, n);
    forall i ensures PlacedAt(t, cs[n..], i) {
      if 0 <= i < |cs[n..]| {
        assert PlacedAt(r, cs, n + i) && EndsBefore(cs, n - 1, n + i);
        DropPlaced(r, cs, n, cs[n + i]);
      }
    }
  }
}
