/**
 `BufferCache` and `File` of sys/fs on values: a pool of free blocks with its counter, and files that
 hold live and orphaned blocks. The block size is b.
 */
module FileModel {
  import opened FileBlocks
  import opened Options

  const WORD: nat := 0x1_0000_0000_0000_0000

  datatype Cache = Cache(mem: seq<Byte>, blocks: seq<int>, free: int)

  datatype File = File(live: seq<int>, orphans: seq<int>, size: nat)

  datatype Result = Done(n: nat) | NoSpace

  // ---- buffer_cache.cpp ----

  /** The loop of the constructor. */
  function Carve(from: int, end: int, b: nat): seq<int>
    requires b > 0
    decreases end - from
  {
    if from < end then [from] + Carve(from + b, end, b) else []
  }

  /** The constructor of server `id` of `servers`. */
  function NewCache(mem: seq<Byte>, servers: nat, id: nat, b: nat): Cache
    requires b > 0 && servers > 0 && b * servers > 0
  {
    var part := |mem| / servers;
    Cache(mem, Carve(id * part, (id + 1) * part, b), |mem| / (b * servers))
  }

  function Get(c: Cache, n: nat): (seq<int>, Cache)
    requires c.free <= |c.blocks|
  {
    if c.free < n then ([], c) else (c.blocks[..n], c.(blocks := c.blocks[n..], free := c.free - n))
  }

  function Put(c: Cache, blocks: seq<int>): Cache {
    c.(blocks := blocks + c.blocks, free := c.free + |blocks|)
  }

  // ---- file.cpp ----

  /** How many blocks n bytes take. */
  function Ceil(b: nat, n: nat): nat
    requires b > 0
  {
    Quot(b, n) + if Rem(b, n) != 0 then 1 else 0
  }

  /** The file has the blocks its size takes. */
  ghost predicate Covered(b: nat, f: File) {
    b > 0 && |f.live| == Ceil(b, f.size)
  }

  ghost predicate Sane(b: nat, c: Cache, f: File) {
    Covered(b, f) && c.free == |c.blocks| && InMemory(b, |c.mem|, f.live) && InMemory(b, |c.mem|, c.blocks)
  }

  function Shrink(b: nat, f: File, n: nat): File
    requires b > 0 && Ceil(b, n) <= |f.live|
  {
    f.(live := f.live[..Ceil(b, n)], orphans := f.orphans + f.live[Ceil(b, n)..])
  }

  function Grow(b: nat, c: Cache, f: File, n: nat): (bool, Cache, File)
    requires b > 0 && |f.live| <= Ceil(b, n) && c.free <= |c.blocks|
  {
    var need := Ceil(b, n) - |f.live|;
    var (got, rest) := Get(c, need);
    if |got| != need then (false, c, f) else (true, rest, f.(live := f.live + got))
  }

  function Write(b: nat, c: Cache, f: File, data: seq<Byte>, offset: nat): (Result, Cache, File)
    requires Sane(b, c, f)
  {
    if data == [] then (Done(0), c, f)
    else
      var n := offset + |data|;
      CeilCovers(b, f.size, n);
      var (ok, c', f') := if f.size < n then Grow(b, c, f, n) else (true, c, f);
      if !ok then (NoSpace, c, f.(size := n))
      else
        GrowCovers(b, c, f, n);
        (Done(|data|), c'.(mem := WriteBytes(b, c'.mem, f'.live, offset, data)),
            f'.(size := if f.size < n then n else f.size))
  }

  function Truncate(b: nat, c: Cache, f: File, n: nat): (Result, Cache, File)
    requires Sane(b, c, f)
  {
    CeilCovers(b, f.size, n);
    CeilCovers(b, n, f.size);
    if f.size < n then
      var (ok, c', f') := Grow(b, c, f, n);
      if !ok then (NoSpace, c, f) else (Done(0), c', f'.(size := n))
    else if f.size > n then (Done(0), c, Shrink(b, f, n).(size := n))
    else (Done(0), c, f)
  }

  function ReadCount(size: nat, offset: nat, count: nat): nat {
    if offset < size then Min(count, size - offset) else 0
  }

  /** The same with the 64-bit sum the code compares with the size. */
  function MachineReadCount(size: nat, offset: nat, count: nat): nat {
    if offset < size then (if Wrap(offset + count) > size then size - offset else count) else 0
  }

  /** The code clamps the count exactly when that sum does not wrap around. */
  lemma ReadCountExact(size: nat, offset: nat, count: nat)
    requires size < WORD && offset < WORD && count < WORD
    ensures MachineReadCount(size, offset, count) == ReadCount(size, offset, count)
            <==> offset >= size || offset + count < WORD
  {
    WrapIs(offset + count);
  }

  function Read(b: nat, c: Cache, f: File, offset: nat, count: nat): seq<Byte>
    requires Sane(b, c, f)
  {
    CeilCovers(b, f.size, f.size);
    if offset < f.size then ReadBytes(b, c.mem, f.live, offset, ReadCount(f.size, offset, count)) else []
  }

  // ---- with 64-bit sums ----

  /** `read` with the count it computes; None: its loop goes past the last block of the file. */
  function MachineRead(b: nat, c: Cache, f: File, offset: nat, count: nat): Option<seq<Byte>>
    requires Sane(b, c, f)
  {
    var n := MachineReadCount(f.size, offset, count);
    if n == 0 then Some([])
    else if offset + n > Span(b, |f.live|) then None
    else Some(ReadBytes(b, c.mem, f.live, offset, n))
  }

  /** `write` when n is what it computes as the new size; None as for reading. */
  function WriteAs(b: nat, c: Cache, f: File, data: seq<Byte>, offset: nat, n: nat): Option<(Result, Cache, File)>
    requires Sane(b, c, f)
  {
    CeilCovers(b, f.size, n);
    var (ok, c', f') := if f.size < n then Grow(b, c, f, n) else (true, c, f);
    if !ok then Some((NoSpace, c, f.(size := n)))
    else if offset + |data| > Span(b, |f'.live|) then None
    else
      GrowCovers(b, c, f, n);
      Some((Done(|data|), c'.(mem := WriteBytes(b, c'.mem, f'.live, offset, data)),
          f'.(size := if f.size < n then n else f.size)))
  }

  function Wrap(n: nat): nat {
    n % WORD
  }

  lemma WrapIs(n: nat)
    requires n < WORD + WORD
    ensures Wrap(n) == if n < WORD then n else n - WORD
  {
  }

  function MachineWrite(b: nat, c: Cache, f: File, data: seq<Byte>, offset: nat): Option<(Result, Cache, File)>
    requires Sane(b, c, f)
  {
    if data == [] then Some((Done(0), c, f)) else WriteAs(b, c, f, data, offset, Wrap(offset + |data|))
  }

  /** The 64-bit code does what the unbounded write does. */
  ghost predicate MachineAgrees(b: nat, c: Cache, f: File, data: seq<Byte>, offset: nat)
    requires Sane(b, c, f)
  {
    MachineWrite(b, c, f, data, offset) == Some(Write(b, c, f, data, offset))
  }

  /** All blocks the file could ever have are fewer than 2^64 bytes. */
  ghost predicate Addressable(b: nat, c: Cache, f: File) {
    b > 0 && Span(b, |f.live| + |c.blocks|) < WORD
  }

  /** A read inside the file whose end wraps around goes past the last block; every other read is as it should be. */
  lemma MachineReadExact(b: nat, c: Cache, f: File, offset: nat, count: nat)
    requires Sane(b, c, f) && Addressable(b, c, f) && offset < WORD && count < WORD
    ensures MachineRead(b, c, f, offset, count)
         == if offset < f.size && offset + count >= WORD then None else Some(Read(b, c, f, offset, count))
  {
    CeilCovers(b, f.size, f.size);
    Scaled(|f.live|, |f.live| + |c.blocks|, b);
    ReadCountExact(f.size, offset, count);
    WrapIs(offset + count);
  }

  lemma WriteAsIs(b: nat, c: Cache, f: File, data: seq<Byte>, offset: nat)
    requires Sane(b, c, f) && data != []
    ensures WriteAs(b, c, f, data, offset, offset + |data|) == Some(Write(b, c, f, data, offset))
  {
    var n := offset + |data|;
    CeilCovers(b, f.size, n);
    GrowCovers(b, c, f, n);
  }

  /** The blocks of the file end before an offset that cannot be addressed. */
  lemma WriteAsWrapped(b: nat, c: Cache, f: File, data: seq<Byte>, offset: nat, n: nat)
    requires Sane(b, c, f) && Addressable(b, c, f) && offset + |data| >= WORD
    ensures var r := WriteAs(b, c, f, data, offset, n); r.None? || r.value == (NoSpace, c, f.(size := n))
  {
    CeilCovers(b, f.size, n);
    Scaled(|f.live|, |f.live| + |c.blocks|, b);
    if f.size < n && Ceil(b, n) <= |f.live| + |c.blocks| { Scaled(Ceil(b, n), |f.live| + |c.blocks|, b); }
  }

  /** A write that goes past the addressable end finds no space. */
  lemma WritePastEnd(b: nat, c: Cache, f: File, data: seq<Byte>, offset: nat)
    requires Sane(b, c, f) && Addressable(b, c, f) && data != [] && offset + |data| >= WORD
    ensures Write(b, c, f, data, offset) == (NoSpace, c, f.(size := offset + |data|))
  {
    WriteAsIs(b, c, f, data, offset);
    WriteAsWrapped(b, c, f, data, offset, offset + |data|);
  }

  /**
   A write does what it should exactly when its end does not wrap around. Otherwise it fails for want of
   blocks, recording a size below its own offset, or it goes past the last block.
   */
  lemma MachineWriteExact(b: nat, c: Cache, f: File, data: seq<Byte>, offset: nat)
    requires Sane(b, c, f) && Addressable(b, c, f) && offset < WORD && |data| < WORD
    ensures MachineAgrees(b, c, f, data, offset) <==> offset + |data| < WORD
    ensures offset + |data| >= WORD ==>
              var r := MachineWrite(b, c, f, data, offset);
              r.None? || (r.value == (NoSpace, c, f.(size := offset + |data| - WORD)) && r.value.2.size < offset)
  {
    if data != [] {
      WrapIs(offset + |data|);
      if offset + |data| < WORD {
        WriteAsIs(b, c, f, data, offset);
      } else {
        WriteAsWrapped(b, c, f, data, offset, offset + |data| - WORD);
        WritePastEnd(b, c, f, data, offset);
      }
    }
  }

  /** Two bytes in one block: a read at 1 of as many bytes as a size_t can count goes past the block. */
  lemma WrappedRead(mem: seq<Byte>)
    requires |mem| == 2
    ensures var c, f := Cache(mem, [], 0), File([0], [], 2);
            Sane(2, c, f) && MachineRead(2, c, f, 1, WORD - 1) == None && |Read(2, c, f, 1, WORD - 1)| == 1
  {
    var c, f := Cache(mem, [], 0), File([0], [], 2);
    assert Ceil(2, 2) == 1;
    MachineReadExact(2, c, f, 1, WORD - 1);
  }

  /** The same file: a write that starts at the last byte a size_t can name goes past the block. */
  lemma WrappedWrite(mem: seq<Byte>, x: Byte, y: Byte, offset: nat)
    requires |mem| == 2 && offset == WORD - 1
    ensures var c, f := Cache(mem, [], 0), File([0], [], 2);
            Sane(2, c, f) && MachineWrite(2, c, f, [x, y], offset) == None
                && Write(2, c, f, [x, y], offset).0 == NoSpace
  {
    var c, f := Cache(mem, [], 0), File([0], [], 2);
    assert Ceil(2, 2) == 1 && Span(2, 1) == 2;
    assert Addressable(2, c, f);
    WrapIs(offset + 2);
    assert WriteAs(2, c, f, [x, y], offset, 1) == None;
    WritePastEnd(2, c, f, [x, y], offset);
  }

  function Destroy(c: Cache, f: File): Cache {
    Put(Put(c, f.live), f.orphans)
  }

  lemma CeilCovers(b: nat, m: nat, n: nat)
    requires b > 0
    ensures m <= n ==> Ceil(b, m) <= Ceil(b, n)
    ensures n <= Span(b, Ceil(b, n)) && (n > 0 ==> Ceil(b, n) > 0 && Span(b, Ceil(b, n) - 1) < n)
  {
    Located(b, n);
    if m <= n {
      Located(b, m);
      SameBlock(b, Quot(b, n), Rem(b, n), Quot(b, m), Rem(b, m));
    }
  }

  lemma GrowCovers(b: nat, c: Cache, f: File, n: nat)
    requires Sane(b, c, f)
    ensures f.size < n ==> |f.live| <= Ceil(b, n)
    ensures f.size < n && Grow(b, c, f, n).0 ==>
              var (_, c', f') := Grow(b, c, f, n);
              |f'.live| == Ceil(b, n) && n <= Span(b, |f'.live|) && InMemory(b, |c'.mem|, f'.live) && c'.mem == c.mem
    ensures f.size >= n ==> n <= Span(b, |f.live|)
  {
    CeilCovers(b, f.size, n);
    CeilCovers(b, n, f.size);
  }

  // ---- one file against a flat sequence of bytes ----

  /** What a reader of the file sees. */
  ghost function Contents(b: nat, c: Cache, f: File): (s: seq<Byte>)
    requires Sane(b, c, f)
    ensures |s| == f.size
  {
    CeilCovers(b, f.size, f.size);
    Flat(b, c.mem, f.live)[..f.size]
  }

  /** Extend s by whatever was in the new blocks, then write. */
  function FlatWrite(s: seq<Byte>, data: seq<Byte>, offset: nat, filler: seq<Byte>): seq<Byte>
    requires data != [] && offset + |data| <= |s| + |filler|
  {
    Splice(s + filler, offset, data)
  }

  function FlatRead(s: seq<Byte>, offset: nat, count: nat): seq<Byte> {
    if offset < |s| then s[offset..Min(offset + count, |s|)] else []
  }

  lemma ReadRefines(b: nat, c: Cache, f: File, offset: nat, count: nat)
    requires Sane(b, c, f)
    ensures Read(b, c, f, offset, count) == FlatRead(Contents(b, c, f), offset, count)
  {
    CeilCovers(b, f.size, f.size);
    if offset < f.size {
      var n := ReadCount(f.size, offset, count);
      ReadBytesFlat(b, c.mem, f.live, offset, n);
      var s := Flat(b, c.mem, f.live);
      assert s[..f.size][offset..offset + n] == s[offset..offset + n];
    }
  }

  /** Growing keeps the bytes there are. */
  lemma GrowKeeps(b: nat, c: Cache, f: File, n: nat) returns (filler: seq<Byte>)
    requires Sane(b, c, f) && f.size < n && Ceil(b, n) - |f.live| <= c.free
    ensures |f.live| <= Ceil(b, n) && Grow(b, c, f, n).0
    ensures var (_, c', f') := Grow(b, c, f, n);
            && Sane(b, c', f'.(size := n)) && |filler| == n - f.size
            && Contents(b, c', f'.(size := n)) == Contents(b, c, f) + filler
  {
    GrowCovers(b, c, f, n);
    CeilCovers(b, f.size, f.size);
    var (_, c', f') := Grow(b, c, f, n);
    var got := c.blocks[..Ceil(b, n) - |f.live|];
    FlatAppend(b, c.mem, f.live, got);
    filler := LongerPrefix(Flat(b, c.mem, f.live), Flat(b, c.mem, got), Flat(b, c.mem, f'.live), f.size, n);
  }

  lemma LongerPrefix(s: seq<Byte>, t: seq<Byte>, all: seq<Byte>, m: nat, n: nat) returns (filler: seq<Byte>)
    requires all == s + t && m <= |s| && m <= n <= |all|
    ensures |filler| == n - m && all[..n] == s[..m] + filler
  {
    filler := all[m..n];
  }

  /** A write that needs no block or gets them. */
  predicate WriteFits(b: nat, c: Cache, f: File, data: seq<Byte>, offset: nat)
    requires b > 0
  {
    data == [] || offset + |data| <= f.size || Ceil(b, offset + |data|) - |f.live| <= c.free
  }

  /** With fewer than 2^64 bytes in blocks, the end of a write that fits does not wrap around. */
  lemma FittingDoesNotWrap(b: nat, c: Cache, f: File, data: seq<Byte>, offset: nat)
    requires Sane(b, c, f) && Addressable(b, c, f) && WriteFits(b, c, f, data, offset)
    ensures MachineAgrees(b, c, f, data, offset)
  {
    if data == [] {
      return;
    }
    var n := offset + |data|;
    CeilCovers(b, f.size, f.size);
    CeilCovers(b, n, n);
    Scaled(|f.live|, |f.live| + |c.blocks|, b);
    if f.size < n { Scaled(Ceil(b, n), |f.live| + |c.blocks|, b); }
    MachineWriteExact(b, c, f, data, offset);
  }

  /** A write that gets its blocks acts on the flat contents; the 64-bit code does the same. */
  lemma WriteRefines(b: nat, c: Cache, f: File, data: seq<Byte>, offset: nat) returns (filler: seq<Byte>)
    requires Sane(b, c, f) && data != [] && WriteFits(b, c, f, data, offset)
    requires Apart(b, f.live + c.blocks)
    ensures var (r, c', f') := Write(b, c, f, data, offset);
            && r == Done(|data|) && Sane(b, c', f')
            && |filler| == (if f.size < offset + |data| then offset + |data| - f.size else 0)
            && Contents(b, c', f') == FlatWrite(Contents(b, c, f), data, offset, filler)
    ensures Addressable(b, c, f) ==> MachineAgrees(b, c, f, data, offset)
  {
    if Addressable(b, c, f) { FittingDoesNotWrap(b, c, f, data, offset); }
    var n := offset + |data|;
    GrowCovers(b, c, f, n);
    var (c1, f1) := (c, f);
    filler := [];
    if f.size < n {
      filler := GrowKeeps(b, c, f, n);
      var (_, c2, f2) := Grow(b, c, f, n);
      c1, f1 := c2, f2.(size := n);
      ApartPrefix(b, f.live, c.blocks, Ceil(b, n) - |f.live|);
    } else {
      assert Contents(b, c, f) + [] == Contents(b, c, f);
      ApartPrefix(b, f.live, c.blocks, 0);
    }
    CeilCovers(b, f1.size, f1.size);
    WriteBytesFlat(b, c1.mem, f1.live, offset, data);
    SplicePrefix(Flat(b, c1.mem, f1.live), offset, data, f1.size);
  }

  lemma SplicePrefix(s: seq<Byte>, at: int, data: seq<Byte>, n: int)
    requires 0 <= at && at + |data| <= n <= |s|
    ensures Splice(s, at, data)[..n] == Splice(s[..n], at, data)
  {
  }

  lemma ApartPrefix(b: nat, s: seq<int>, t: seq<int>, n: nat)
    requires Apart(b, s + t) && n <= |t|
    ensures Apart(b, s + t[..n]) && Apart(b, s)
  {
    var all := s + t;
    forall i, j | 0 <= i < |s| + n && 0 <= j < |s| + n && i != j ensures Disjoint(b, (s + t[..n])[i], (s + t[..n])[j]) {
      assert Disjoint(b, all[i], all[j]);
    }
    forall i, j | 0 <= i < |s| && 0 <= j < |s| && i != j ensures Disjoint(b, s[i], s[j]) {
      assert Disjoint(b, all[i], all[j]);
    }
  }

  /** `write` records the new size even when it gets no blocks: the file stays covered exactly when the write fits. */
  lemma WriteExact(b: nat, c: Cache, f: File, data: seq<Byte>, offset: nat)
    requires Sane(b, c, f) && Apart(b, f.live + c.blocks)
    ensures Covered(b, Write(b, c, f, data, offset).2) <==> WriteFits(b, c, f, data, offset)
    ensures Write(b, c, f, data, offset).0 == NoSpace <==> !WriteFits(b, c, f, data, offset)
    ensures !WriteFits(b, c, f, data, offset)
            ==> Write(b, c, f, data, offset) == (NoSpace, c, f.(size := offset + |data|))
  {
    var n := offset + |data|;
    CeilCovers(b, f.size, n);
    if WriteFits(b, c, f, data, offset) && data != [] {
      var filler := WriteRefines(b, c, f, data, offset);
    }
  }

  /** A block of zeros written past the end of the pool: the size grows, the blocks do not. */
  lemma FailedWriteUncovers(b: nat, mem: seq<Byte>)
    requires b > 0
    ensures var c, f := Cache(mem, [], 0), File([], [], 0);
            Sane(b, c, f) && Write(b, c, f, [0], 0) == (NoSpace, c, File([], [], 1)) && !Covered(b, File([], [], 1))
  {
    CeilCovers(b, 1, 1);
    CeilCovers(b, 0, 0);
  }

  lemma TruncateRefines(b: nat, c: Cache, f: File, n: nat) returns (filler: seq<Byte>)
    requires Sane(b, c, f)
    ensures var (r, c', f') := Truncate(b, c, f, n);
            && Sane(b, c', f') && (r == NoSpace <==> f.size < n && Ceil(b, n) - |f.live| > c.free)
            && (r == NoSpace ==> c' == c && f' == f)
            && (r != NoSpace ==> |filler| == (if f.size < n then n - f.size else 0)
                                 && Contents(b, c', f') == (Contents(b, c, f) + filler)[..n])
  {
    filler := [];
    CeilCovers(b, f.size, n);
    CeilCovers(b, n, f.size);
    var s := Contents(b, c, f);
    assert s + [] == s;
    if f.size < n {
      if Ceil(b, n) - |f.live| <= c.free {
        filler := GrowKeeps(b, c, f, n);
        assert (s + filler)[..n] == s + filler;
      }
    } else if f.size > n {
      var k := Ceil(b, n);
      var kept, cut := f.live[..k], f.live[k..];
      assert f.live == kept + cut;
      FlatAppend(b, c.mem, kept, cut);
      assert Flat(b, c.mem, f.live)[..f.size][..n] == Flat(b, c.mem, kept)[..n];
    } else {
      assert s[..n] == s;
    }
  }

  // ---- the partition of a server ----

  lemma {:induction false} CarveIs(from: int, n: nat, b: nat)
    requires b > 0
    ensures |Carve(from, from + n, b)| == Ceil(b, n)
    ensures forall i :: 0 <= i < |Carve(from, from + n, b)| ==> Carve(from, from + n, b)[i] == from + Span(b, i)
    decreases n
  {
    if n > 0 {
      var rest, all := Carve(from + b, from + n, b), Carve(from, from + n, b);
      assert all == [from] + rest && Span(b, 0) == 0;
      if n > b {
        CarveIs(from + b, n - b, b);
        assert from + b + (n - b) == from + n;
        assert Quot(b, n) == 1 + Quot(b, n - b) && Rem(b, n) == Rem(b, n - b);
        forall i | 0 < i < |all| ensures all[i] == from + Span(b, i) { assert all[i] == rest[i - 1]; }
      } else {
        assert rest == [];
        CeilOfOne(b, n);
      }
    }
  }

  lemma CeilOfOne(b: nat, n: nat)
    requires 0 < n <= b
    ensures Ceil(b, n) == 1
  {
    if n == b { assert Quot(b, 0) == 0 && Rem(b, 0) == 0; }
  }

  /** The free counter starts out as the number of blocks exactly when blocks divide the partition. */
  lemma CounterExact(mem: seq<Byte>, servers: nat, id: nat, b: nat)
    requires b > 0 && servers > 0 && b * servers > 0
    ensures var c := NewCache(mem, servers, id, b);
            c.free == |c.blocks| <==> |mem| / servers % b == 0
  {
    var part := |mem| / servers;
    Next(id, part);
    CarveIs(id * part, part, b);
    QuotIsDivision(b, part);
    NestedDivision(|mem|, servers, b);
  }

  /** Five bytes in blocks of two: three blocks, the last of them beyond the partition, but two by the counter. */
  lemma CounterOff(mem: seq<Byte>)
    requires |mem| == 5
    ensures var c := NewCache(mem, 1, 0, 2);
            c.blocks == [0, 2, 4] && c.free == 2
  {
    assert Carve(4, 5, 2) == [4];
  }

  lemma Next(id: nat, part: nat)
    ensures (id + 1) * part == id * part + part
  {
  }

  lemma Divided(m: nat, s: nat)
    requires s > 0
    ensures m == m / s * s + m % s && 0 <= m % s < s && 0 <= m / s
  {
  }

  lemma NestedDivision(m: nat, s: nat, b: nat)
    requires b > 0 && s > 0 && b * s > 0
    ensures m / s / b == m / (b * s)
  {
    var p := m / s;
    var q, r := p / b, p % b;
    Divided(m, s);
    Divided(p, b);
    Spread(q, b, r, s);
    NestedRest(m % s, r, s, b);
    DivisionUnique(b * s, m, q, r * s + m % s);
  }

  lemma Spread(q: nat, b: nat, r: nat, s: nat)
    ensures (q * b + r) * s == q * (b * s) + r * s
  {
    assert (q * b) * s == q * (b * s);
  }

  lemma NestedRest(t: nat, r: nat, s: nat, b: nat)
    requires t < s && r < b
    ensures 0 <= r * s + t < b * s
  {
    Product(0, r, s);
    Product(r + 1, b, s);
    Next(r, s);
  }

  /** When they do divide it, the blocks lie inside the partition and do not overlap. */
  lemma PartitionApart(mem: seq<Byte>, servers: nat, id: nat, b: nat)
    requires b > 0 && servers > 0 && b * servers > 0 && id < servers && |mem| / servers % b == 0
    ensures var c := NewCache(mem, servers, id, b);
            Apart(b, c.blocks) && InMemory(b, |mem|, c.blocks) && c.free == |c.blocks|
  {
    var part := |mem| / servers;
    CounterExact(mem, servers, id, b);
    Next(id, part);
    PartitionEnds(|mem|, servers, id);
    QuotIsDivision(b, part);
    CarvedApart(id * part, part, b, |mem|);
  }

  /** The blocks lie in [from, end) and hold every byte of it. */
  ghost predicate Tiles(b: nat, from: int, end: int, blocks: seq<int>) {
    && (forall i :: 0 <= i < |blocks| ==> from <= blocks[i] <= end - b)
    && (forall k :: from <= k < end ==> InSome(b, blocks, k))
  }

  ghost predicate InSome(b: nat, blocks: seq<int>, k: int) {
    exists i :: 0 <= i < |blocks| && blocks[i] <= k < blocks[i] + b
  }

  /** When blocks divide the partition, those of server id are exactly the bytes id * part to (id + 1) * part. */
  lemma PartitionTiled(mem: seq<Byte>, servers: nat, id: nat, b: nat)
    requires b > 0 && servers > 0 && b * servers > 0 && |mem| / servers % b == 0
    ensures var part := |mem| / servers;
            Tiles(b, id * part, (id + 1) * part, NewCache(mem, servers, id, b).blocks)
  {
    var part := |mem| / servers;
    Next(id, part);
    QuotIsDivision(b, part);
    CarvedTiles(id * part, part, b);
  }

  lemma CarvedTiles(from: int, part: nat, b: nat)
    requires b > 0 && Rem(b, part) == 0
    ensures Tiles(b, from, from + part, Carve(from, from + part, b))
  {
    var all := Carve(from, from + part, b);
    CarveIs(from, part, b);
    Located(b, part);
    forall i | 0 <= i < |all| ensures from <= all[i] <= from + part - b { Scaled(i + 1, |all|, b); }
    forall k | from <= k < from + part ensures InSome(b, all, k) {
      Located(b, k - from);
      Within(b, k - from, |all|);
      assert all[Quot(b, k - from)] <= k < all[Quot(b, k - from)] + b;
    }
  }

  /** No block of xs overlaps a block of ys. */
  ghost predicate AllDisjoint(b: nat, xs: seq<int>, ys: seq<int>) {
    forall i, j :: 0 <= i < |xs| && 0 <= j < |ys| ==> Disjoint(b, xs[i], ys[j])
  }

  /** Then no two servers share a byte. */
  lemma ServersApart(mem: seq<Byte>, servers: nat, id: nat, other: nat, b: nat)
    requires b > 0 && servers > 0 && b * servers > 0 && |mem| / servers % b == 0 && id < other
    ensures AllDisjoint(b, NewCache(mem, servers, id, b).blocks, NewCache(mem, servers, other, b).blocks)
  {
    PartitionTiled(mem, servers, id, b);
    PartitionTiled(mem, servers, other, b);
    Product(id + 1, other, |mem| / servers);
  }

  /** Neighbouring servers are apart exactly when blocks divide the partition; otherwise the last block runs over. */
  lemma NeighboursExact(mem: seq<Byte>, servers: nat, id: nat, b: nat)
    requires b > 0 && servers > 0 && b * servers > 0
    ensures AllDisjoint(b, NewCache(mem, servers, id, b).blocks, NewCache(mem, servers, id + 1, b).blocks)
       <==> |mem| / servers % b == 0
  {
    var part := |mem| / servers;
    if part % b == 0 {
      ServersApart(mem, servers, id, id + 1, b);
    } else {
      Next(id, part);
      Next(id + 1, part);
      QuotIsDivision(b, part);
      CarveIs(id * part, part, b);
      CarveIs(id * part + part, part, b);
      Located(b, part);
      var xs, ys := NewCache(mem, servers, id, b).blocks, NewCache(mem, servers, id + 1, b).blocks;
      assert !Disjoint(b, xs[|xs| - 1], ys[0]);
    }
  }

  lemma CarvedApart(from: int, part: nat, b: nat, m: int)
    requires b > 0 && Rem(b, part) == 0 && 0 <= from && from + part <= m
    ensures var all := Carve(from, from + part, b); Apart(b, all) && InMemory(b, m, all)
  {
    var all := Carve(from, from + part, b);
    CarveIs(from, part, b);
    SpacedApart(all, from, b);
    Located(b, part);
    SpacedInside(all, from, b, m);
  }

  lemma SpacedInside(all: seq<int>, from: int, b: nat, m: int)
    requires b > 0 && forall i :: 0 <= i < |all| ==> all[i] == from + Span(b, i)
    requires 0 <= from && from + Span(b, |all|) <= m
    ensures InMemory(b, m, all)
  {
    forall i | 0 <= i < |all| ensures 0 <= all[i] <= m - b { Scaled(i + 1, |all|, b); }
  }

  lemma SpacedApart(all: seq<int>, from: int, b: nat)
    requires b > 0 && forall i :: 0 <= i < |all| ==> all[i] == from + Span(b, i)
    ensures Apart(b, all)
  {
    forall i, j | 0 <= i < |all| && 0 <= j < |all| && i != j ensures Disjoint(b, all[i], all[j]) {
      SameBlock(b, i, 0, j, 0);
      SameBlock(b, j, 0, i, 0);
    }
  }

  lemma PartitionEnds(m: nat, servers: nat, id: nat)
    requires servers > 0 && id < servers
    ensures 0 <= id * (m / servers) && id * (m / servers) + m / servers <= m
  {
    var part := m / servers;
    Divided(m, servers);
    Product(id + 1, servers, part);
    Product(0, id, part);
    Next(id, part);
  }
}
