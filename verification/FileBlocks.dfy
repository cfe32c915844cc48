/**
 A file of sys/fs is a list of blocks of a shared memory. This module relates the chunk-by-chunk
 copying of `File::read` and `File::write` to the flat sequence of bytes the blocks make up.
 */
module FileBlocks {

  type Byte = bv8

  // ---- positions, block by block ----

  /** n * b */
  function Span(b: nat, n: nat): nat {
    if n == 0 then 0 else b + Span(b, n - 1)
  }

  /** k / b: the block byte k is in. */
  function Quot(b: nat, k: nat): nat
    requires b > 0
  {
    if k < b then 0 else 1 + Quot(b, k - b)
  }

  /** k % b, which for a power of two is k & (b - 1): the place in the block. */
  function Rem(b: nat, k: nat): nat
    requires b > 0
  {
    if k < b then k else Rem(b, k - b)
  }

  lemma {:induction false} Located(b: nat, k: nat)
    requires b > 0
    ensures Rem(b, k) < b && k == Span(b, Quot(b, k)) + Rem(b, k)
  {
    if k >= b {
      Located(b, k - b);
    }
  }

  lemma {:induction false} Locate(b: nat, j: nat, r: nat)
    requires r < b
    ensures Quot(b, Span(b, j) + r) == j && Rem(b, Span(b, j) + r) == r
  {
    if j > 0 {
      Locate(b, j - 1, r);
    }
  }

  lemma {:induction false} Distribute(m: nat, n: nat, b: nat)
    ensures Span(b, m + n) == Span(b, m) + Span(b, n)
  {
    if n > 0 {
      Distribute(m, n - 1, b);
    }
  }

  lemma Scaled(m: nat, n: nat, b: nat)
    requires m <= n
    ensures Span(b, m) <= Span(b, n)
  {
    Distribute(m, n - m, b);
  }

  lemma Within(b: nat, k: nat, n: nat)
    requires b > 0 && k < Span(b, n)
    ensures Quot(b, k) < n
  {
    Located(b, k);
    if n <= Quot(b, k) {
      Scaled(n, Quot(b, k), b);
      assert false;
    }
  }

  /** Two positions are as far apart as their places, block for block. */
  lemma SameBlock(b: nat, j: nat, o: nat, q: nat, r: nat)
    requires o < b && r < b
    ensures q < j ==> Span(b, q) + r < Span(b, j)
    ensures q > j ==> Span(b, q) + r >= Span(b, j) + b
  {
    if q < j { Scaled(q + 1, j, b); }
    if q > j { Scaled(j + 1, q, b); }
  }

  lemma {:induction false} SpanIsProduct(b: nat, n: nat)
    ensures Span(b, n) == n * b
  {
    if n > 0 {
      SpanIsProduct(b, n - 1);
    }
  }

  lemma QuotIsDivision(b: nat, k: nat)
    requires b > 0
    ensures Quot(b, k) == k / b && Rem(b, k) == k % b
  {
    Located(b, k);
    SpanIsProduct(b, Quot(b, k));
    DivisionUnique(b, k, Quot(b, k), Rem(b, k));
  }

  lemma DivisionUnique(b: nat, k: nat, q: nat, r: nat)
    requires b > 0 && k == q * b + r && r < b
    ensures k / b == q && k % b == r
  {
    var p := k / b;
    assert k == p * b + k % b;
    if p < q {
      Product(p + 1, q, b);
      assert false;
    }
    if q < p {
      Product(q + 1, p, b);
      assert false;
    }
  }

  lemma Product(m: nat, n: nat, b: nat)
    requires m <= n
    ensures m * b <= n * b
  {
  }

  // ---- blocks as one sequence ----

  ghost predicate InMemory(b: nat, size: int, blocks: seq<int>) {
    forall i :: 0 <= i < |blocks| ==> 0 <= blocks[i] <= size - b
  }

  predicate Disjoint(b: nat, x: int, y: int) {
    x + b <= y || y + b <= x
  }

  ghost predicate Apart(b: nat, blocks: seq<int>) {
    forall i, j :: 0 <= i < |blocks| && 0 <= j < |blocks| && i != j ==> Disjoint(b, blocks[i], blocks[j])
  }

  /** Byte k of the file. */
  ghost function ByteOf(b: nat, mem: seq<Byte>, blocks: seq<int>, k: nat): Byte
    requires b > 0 && InMemory(b, |mem|, blocks) && k < Span(b, |blocks|)
  {
    Located(b, k);
    Within(b, k, |blocks|);
    mem[blocks[Quot(b, k)] + Rem(b, k)]
  }

  /** The bytes of the blocks, one block after the other. */
  ghost function Flat(b: nat, mem: seq<Byte>, blocks: seq<int>): (r: seq<Byte>)
    requires b > 0 && InMemory(b, |mem|, blocks)
    ensures |r| == Span(b, |blocks|)
  {
    seq(Span(b, |blocks|), k requires 0 <= k < Span(b, |blocks|) => ByteOf(b, mem, blocks, k))
  }

  /** `memcpy` of data to position `at`. */
  function Splice(s: seq<Byte>, at: int, data: seq<Byte>): (r: seq<Byte>)
    requires 0 <= at && at + |data| <= |s|
    ensures |r| == |s|
  {
    seq(|s|, k requires 0 <= k < |s| => if at <= k < at + |data| then data[k - at] else s[k])
  }

  /** Writing outside the blocks does not show. */
  lemma FlatElsewhere(b: nat, mem: seq<Byte>, blocks: seq<int>, at: int, data: seq<Byte>)
    requires b > 0 && InMemory(b, |mem|, blocks) && 0 <= at && at + |data| <= |mem|
    requires forall i :: 0 <= i < |blocks| ==> blocks[i] + b <= at || at + |data| <= blocks[i]
    ensures Flat(b, Splice(mem, at, data), blocks) == Flat(b, mem, blocks)
  {
    forall k | 0 <= k < Span(b, |blocks|) ensures ByteOf(b, Splice(mem, at, data), blocks, k)
        == ByteOf(b, mem, blocks, k) {
      Located(b, k);
      Within(b, k, |blocks|);
    }
  }

  /** Writing inside block j, at position `at` of the file, seen at byte k. */
  lemma StoreAt(b: nat, mem: seq<Byte>, blocks: seq<int>, j: nat, o: nat, data: seq<Byte>, at: nat, k: nat)
    requires b > 0 && InMemory(b, |mem|, blocks) && Apart(b, blocks) && j < |blocks| && o < b && o + |data| <= b
    requires at == Span(b, j) + o && k < Span(b, |blocks|)
    ensures ByteOf(b, Splice(mem, blocks[j] + o, data), blocks, k) == if at <= k < at + |data|
            then data[k - at] else ByteOf(b, mem, blocks, k)
  {
    Located(b, k);
    Within(b, k, |blocks|);
    var q, r := Quot(b, k), Rem(b, k);
    SameBlock(b, j, o, q, r);
    if q != j { assert Disjoint(b, blocks[q], blocks[j]); }
  }

  lemma FlatStore(b: nat, mem: seq<Byte>, blocks: seq<int>, j: nat, o: nat, data: seq<Byte>, at: nat)
    requires b > 0 && InMemory(b, |mem|, blocks) && Apart(b, blocks) && j < |blocks| && o < b && o + |data| <= b
    requires at == Span(b, j) + o
    ensures at + |data| <= Span(b, |blocks|)
    ensures Flat(b, Splice(mem, blocks[j] + o, data), blocks) == Splice(Flat(b, mem, blocks), at, data)
  {
    Scaled(j + 1, |blocks|, b);
    var f, f' := Splice(Flat(b, mem, blocks), at, data), Flat(b, Splice(mem, blocks[j] + o, data), blocks);
    forall k | 0 <= k < |f| ensures f'[k] == f[k] { StoreAt(b, mem, blocks, j, o, data, at, k); }
  }

  lemma LoadAt(b: nat, mem: seq<Byte>, blocks: seq<int>, j: nat, r: nat, k: int)
    requires b > 0 && InMemory(b, |mem|, blocks) && j < |blocks| && r < b && k == Span(b, j) + r
    ensures 0 <= k < Span(b, |blocks|) && ByteOf(b, mem, blocks, k) == mem[blocks[j] + r]
  {
    Scaled(0, j, b);
    Scaled(j + 1, |blocks|, b);
    Distribute(j, 1, b);
    Locate(b, j, r);
  }

  /** Reading inside block j, at position `at` of the file. */
  lemma FlatLoad(b: nat, mem: seq<Byte>, blocks: seq<int>, j: nat, o: nat, n: nat, at: int)
    requires b > 0 && InMemory(b, |mem|, blocks) && j < |blocks| && o + n <= b && at == Span(b, j) + o
    ensures 0 <= at && at + n <= Span(b, |blocks|)
    ensures Flat(b, mem, blocks)[at..at + n] == mem[blocks[j] + o..blocks[j] + o + n]
  {
    Scaled(0, j, b);
    Scaled(j + 1, |blocks|, b);
    Distribute(j, 1, b);
    var x, y := Flat(b, mem, blocks)[at..at + n], mem[blocks[j] + o..blocks[j] + o + n];
    forall k | 0 <= k < n ensures x[k] == y[k] { LoadAt(b, mem, blocks, j, o + k, at + k); }
  }

  lemma AppendAt(b: nat, mem: seq<Byte>, blocks: seq<int>, more: seq<int>, k: nat)
    requires b > 0 && InMemory(b, |mem|, blocks) && InMemory(b, |mem|, more) && k < Span(b, |blocks|) + Span(b, |more|)
    ensures InMemory(b, |mem|, blocks + more) && k < Span(b, |blocks + more|)
    ensures ByteOf(b, mem, blocks + more, k) == if k < Span(b, |blocks|)
            then ByteOf(b, mem, blocks, k) else ByteOf(b, mem, more, k - Span(b, |blocks|))
  {
    Distribute(|blocks|, |more|, b);
    Located(b, k);
    Within(b, k, |blocks + more|);
    if k < Span(b, |blocks|) {
      Within(b, k, |blocks|);
    } else {
      LocatedBehind(b, |blocks|, |more|, k);
    }
  }

  /** Where a byte behind the first m blocks is. */
  lemma LocatedBehind(b: nat, m: nat, n: nat, k: nat)
    requires b > 0 && Span(b, m) <= k < Span(b, m) + Span(b, n)
    ensures var j := k - Span(b, m);
            Quot(b, j) < n && Rem(b, j) < b && Quot(b, k) == m + Quot(b, j) && Rem(b, k) == Rem(b, j)
  {
    var j := k - Span(b, m);
    Located(b, j);
    Within(b, j, n);
    Distribute(m, Quot(b, j), b);
    Locate(b, m + Quot(b, j), Rem(b, j));
  }

  lemma FlatAppend(b: nat, mem: seq<Byte>, blocks: seq<int>, more: seq<int>)
    requires b > 0 && InMemory(b, |mem|, blocks) && InMemory(b, |mem|, more)
    ensures InMemory(b, |mem|, blocks + more)
            && Flat(b, mem, blocks + more) == Flat(b, mem, blocks) + Flat(b, mem, more)
  {
    Distribute(|blocks|, |more|, b);
    var f, g := Flat(b, mem, blocks) + Flat(b, mem, more), Flat(b, mem, blocks + more);
    forall k | 0 <= k < |f| ensures f[k] == g[k] { AppendAt(b, mem, blocks, more, k); }
  }

  // ---- chunks ----

  function Min(x: int, y: int): int {
    if x < y then x else y
  }

  /** Where byte `offset` of the file is. */
  function ChunkAt(b: nat, blocks: seq<int>, offset: nat): int
    requires b > 0 && offset < Span(b, |blocks|)
  {
    Located(b, offset);
    Within(b, offset, |blocks|);
    blocks[Quot(b, offset)] + Rem(b, offset)
  }

  /** How many of `count` bytes lie in the same block. */
  function ChunkLength(b: nat, offset: nat, count: nat): (n: nat)
    requires b > 0
    ensures n <= count && (count > 0 ==> n > 0)
  {
    Located(b, offset);
    Min(b - Rem(b, offset), count)
  }

  lemma ChunkInMemory(b: nat, size: int, blocks: seq<int>, offset: nat, count: nat)
    requires b > 0 && InMemory(b, size, blocks) && offset < Span(b, |blocks|)
    ensures 0 <= ChunkAt(b, blocks, offset) <= size - ChunkLength(b, offset, count)
  {
    Located(b, offset);
    Within(b, offset, |blocks|);
  }

  /** Writing one chunk. */
  lemma ChunkStore(b: nat, mem: seq<Byte>, blocks: seq<int>, offset: nat, data: seq<Byte>, at: int)
    requires b > 0 && InMemory(b, |mem|, blocks) && Apart(b, blocks) && offset + |data| <= Span(b, |blocks|)
    requires offset < Span(b, |blocks|)
    requires at == ChunkAt(b, blocks, offset) && ChunkLength(b, offset, |data|) == |data| && 0 <= at
             && at + |data| <= |mem|
    ensures Flat(b, Splice(mem, at, data), blocks) == Splice(Flat(b, mem, blocks), offset, data)
  {
    Located(b, offset);
    Within(b, offset, |blocks|);
    FlatStore(b, mem, blocks, Quot(b, offset), Rem(b, offset), data, offset);
  }

  /** Reading one chunk. */
  lemma ChunkLoad(b: nat, mem: seq<Byte>, blocks: seq<int>, offset: nat, n: nat, at: int)
    requires b > 0 && InMemory(b, |mem|, blocks) && offset + n <= Span(b, |blocks|) && offset < Span(b, |blocks|)
    requires at == ChunkAt(b, blocks, offset) && ChunkLength(b, offset, n) == n && 0 <= at && at + n <= |mem|
    ensures Flat(b, mem, blocks)[offset..offset + n] == mem[at..at + n]
  {
    Located(b, offset);
    Within(b, offset, |blocks|);
    FlatLoad(b, mem, blocks, Quot(b, offset), Rem(b, offset), n, offset);
  }

  lemma ChunkAgain(b: nat, offset: nat, count: nat)
    requires b > 0
    ensures ChunkLength(b, offset, ChunkLength(b, offset, count)) == ChunkLength(b, offset, count)
  {
  }

  /** The loop of `File::write`: up to the end of a block at a time. */
  function WriteBytes(b: nat, mem: seq<Byte>, blocks: seq<int>, offset: nat, data: seq<Byte>): (r: seq<Byte>)
    requires b > 0 && InMemory(b, |mem|, blocks) && offset + |data| <= Span(b, |blocks|)
    ensures |r| == |mem|
    decreases |data|
  {
    if data == [] then mem
    else
      var n := ChunkLength(b, offset, |data|);
      ChunkInMemory(b, |mem|, blocks, offset, |data|);
      WriteBytes(b, Splice(mem, ChunkAt(b, blocks, offset), data[..n]), blocks, offset + n, data[n..])
  }

  lemma SpliceOnce(s: seq<Byte>, s': seq<Byte>, s'': seq<Byte>, at: int, data: seq<Byte>, n: int)
    requires 0 <= at && at + |data| <= |s| && 0 <= n <= |data|
    requires s' == Splice(s, at, data[..n]) && s'' == Splice(s', at + n, data[n..])
    ensures s'' == Splice(s, at, data)
  {
  }

  /** The chunks together write the data where it belongs, and nothing else in the file. */
  lemma {:induction false} WriteBytesFlat(b: nat, mem: seq<Byte>, blocks: seq<int>, offset: nat, data: seq<Byte>)
    requires b > 0 && InMemory(b, |mem|, blocks) && Apart(b, blocks) && offset + |data| <= Span(b, |blocks|)
    ensures Flat(b, WriteBytes(b, mem, blocks, offset, data), blocks) == Splice(Flat(b, mem, blocks), offset, data)
    decreases |data|
  {
    if data != [] {
      var n, at := ChunkLength(b, offset, |data|), ChunkAt(b, blocks, offset);
      ChunkInMemory(b, |mem|, blocks, offset, |data|);
      ChunkAgain(b, offset, |data|);
      ChunkStore(b, mem, blocks, offset, data[..n], at);
      var mem' := Splice(mem, at, data[..n]);
      WriteBytesFlat(b, mem', blocks, offset + n, data[n..]);
      SpliceOnce(Flat(b, mem, blocks), Flat(b, mem', blocks), Flat(b, WriteBytes(b, mem, blocks, offset, data), blocks),
          offset, data, n);
    }
  }

  /** They change no block that is not one of the file's. */
  lemma {:induction false} WriteBytesElsewhere(b: nat, mem: seq<Byte>, blocks: seq<int>, offset: nat, data: seq<Byte>,
                                               others: seq<int>)
    requires b > 0 && InMemory(b, |mem|, blocks) && InMemory(b, |mem|, others) && offset + |data| <= Span(b, |blocks|)
    requires forall i, j :: 0 <= i < |blocks| && 0 <= j < |others| ==> Disjoint(b, blocks[i], others[j])
    ensures Flat(b, WriteBytes(b, mem, blocks, offset, data), others) == Flat(b, mem, others)
    decreases |data|
  {
    if data != [] {
      var n, at := ChunkLength(b, offset, |data|), ChunkAt(b, blocks, offset);
      ChunkInMemory(b, |mem|, blocks, offset, |data|);
      ChunkElsewhere(b, mem, blocks, offset, data[..n], at, others);
      WriteBytesElsewhere(b, Splice(mem, at, data[..n]), blocks, offset + n, data[n..], others);
    }
  }

  lemma ChunkElsewhere(b: nat, mem: seq<Byte>, blocks: seq<int>, offset: nat, data: seq<Byte>, at: int,
                       others: seq<int>)
    requires b > 0 && InMemory(b, |mem|, blocks) && InMemory(b, |mem|, others) && offset < Span(b, |blocks|)
    requires forall i, j :: 0 <= i < |blocks| && 0 <= j < |others| ==> Disjoint(b, blocks[i], others[j])
    requires at == ChunkAt(b, blocks, offset) && |data| <= ChunkLength(b, offset, |data|) && 0 <= at
             && at + |data| <= |mem|
    ensures Flat(b, Splice(mem, at, data), others) == Flat(b, mem, others)
  {
    Located(b, offset);
    Within(b, offset, |blocks|);
    forall j | 0 <= j < |others| ensures others[j] + b <= at || at + |data| <= others[j] {
      assert Disjoint(b, blocks[Quot(b, offset)], others[j]);
    }
    FlatElsewhere(b, mem, others, at, data);
  }

  /** The loop of `File::read`. */
  function ReadBytes(b: nat, mem: seq<Byte>, blocks: seq<int>, offset: nat, count: nat): (r: seq<Byte>)
    requires b > 0 && InMemory(b, |mem|, blocks) && offset + count <= Span(b, |blocks|)
    ensures |r| == count
    decreases count
  {
    if count == 0 then []
    else
      var n, at := ChunkLength(b, offset, count), ChunkAt(b, blocks, offset);
      ChunkInMemory(b, |mem|, blocks, offset, count);
      mem[at..at + n] + ReadBytes(b, mem, blocks, offset + n, count - n)
  }

  lemma SliceJoin(s: seq<Byte>, at: int, n: int, count: int, head: seq<Byte>, tail: seq<Byte>, all: seq<Byte>)
    requires 0 <= at && 0 <= n <= count && at + count <= |s|
    requires head == s[at..at + n] && tail == s[at + n..at + count] && all == head + tail
    ensures all == s[at..at + count]
  {
  }

  /** One turn of the loop reads one slice of the flat contents. */
  lemma ReadChunk(b: nat, mem: seq<Byte>, blocks: seq<int>, offset: nat, count: nat) returns (n: nat, head: seq<Byte>)
    requires b > 0 && InMemory(b, |mem|, blocks) && offset + count <= Span(b, |blocks|) && count > 0
    ensures 0 < n <= count && head == Flat(b, mem, blocks)[offset..offset + n]
    ensures ReadBytes(b, mem, blocks, offset, count) == head + ReadBytes(b, mem, blocks, offset + n, count - n)
  {
    var at := ChunkAt(b, blocks, offset);
    n := ChunkLength(b, offset, count);
    ChunkInMemory(b, |mem|, blocks, offset, count);
    ChunkAgain(b, offset, count);
    ChunkLoad(b, mem, blocks, offset, n, at);
    head := mem[at..at + n];
  }

  lemma {:induction false} ReadBytesFlat(b: nat, mem: seq<Byte>, blocks: seq<int>, offset: nat, count: nat)
    requires b > 0 && InMemory(b, |mem|, blocks) && offset + count <= Span(b, |blocks|)
    ensures ReadBytes(b, mem, blocks, offset, count) == Flat(b, mem, blocks)[offset..offset + count]
    decreases count
  {
    if count > 0 {
      var n, head := ReadChunk(b, mem, blocks, offset, count);
      var f, offset', count' := Flat(b, mem, blocks), offset + n, count - n;
      ReadBytesFlat(b, mem, blocks, offset', count');
      var rest := ReadBytes(b, mem, blocks, offset', count');
      assert offset' + count' == offset + count;
      SliceJoin(f, offset, n, count, head, rest, head + rest);
    }
  }
}
