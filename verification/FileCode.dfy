/**
 The classes of sys/fs/buffer_cache.cpp and sys/fs/file.cpp with their fields and loops, proved to do
 what the functions of `FileModel` say.
 */
module FileCode {
  import opened FileBlocks
  import opened Options
  import M = FileModel

  /** What is still to be read comes after what has been read. */
  ghost predicate Reading(b: nat, mem: seq<Byte>, blocks: seq<int>, offset: nat, count: nat, buf: seq<Byte>,
                          all: seq<Byte>) {
    (b > 0 && InMemory(b, |mem|, blocks) && offset + count <= Span(b, |blocks|)
        && all == buf + ReadBytes(b, mem, blocks, offset, count)) <==> true
  }

  lemma ReadStep(b: nat, mem: seq<Byte>, blocks: seq<int>, offset: nat, count: nat, at: int, n: int, buf: seq<Byte>,
                 all: seq<Byte>,
                 offset': nat, count': nat, buf': seq<Byte>)
    requires Reading(b, mem, blocks, offset, count, buf, all) && 0 < count
    requires at == ChunkAt(b, blocks, offset) && n == ChunkLength(b, offset, count) && 0 <= at && at + n <= |mem|
    requires offset' == offset + n && count' == count - n && buf' == buf + mem[at..at + n]
    ensures Reading(b, mem, blocks, offset', count', buf', all)
  {
    Regroup(buf, mem[at..at + n], ReadBytes(b, mem, blocks, offset', count'));
  }

  lemma Regroup(x: seq<Byte>, y: seq<Byte>, z: seq<Byte>)
    ensures x + y + z == x + (y + z)
  {
  }

  /** What is still to be written leads to the same memory. */
  ghost predicate Writing(b: nat, mem: seq<Byte>, blocks: seq<int>, offset: nat, data: seq<Byte>, final: seq<Byte>) {
    (b > 0 && InMemory(b, |mem|, blocks) && offset + |data| <= Span(b, |blocks|)
        && final == WriteBytes(b, mem, blocks, offset, data)) <==> true
  }

  lemma WriteStep(b: nat, mem: seq<Byte>, blocks: seq<int>, offset: nat, data: seq<Byte>, at: int, n: int,
                  final: seq<Byte>,
                  mem': seq<Byte>, offset': nat, data': seq<Byte>)
    requires Writing(b, mem, blocks, offset, data, final) && data != []
    requires at == ChunkAt(b, blocks, offset) && n == ChunkLength(b, offset, |data|) && 0 <= at && at + n <= |mem|
    requires mem' == Splice(mem, at, data[..n]) && offset' == offset + n && data' == data[n..]
    ensures Writing(b, mem', blocks, offset', data', final)
  {
  }

  /** `memcpy` */
  method CopyIn(memory: array<Byte>, at: int, data: seq<Byte>)
    requires 0 <= at && at + |data| <= memory.Length
    modifies memory
    ensures memory[..] == Splice(old(memory[..]), at, data)
  {
    var i := 0;
    ghost var was := memory[..];
    while i < |data|
      invariant 0 <= i <= |data| && memory[..] == Splice(was, at, data[..i])
    {
      memory[at + i] := data[i];
      i := i + 1;
    }
    assert data[..|data|] == data;
  }

  class BufferCache {
    const b: nat
    const memory: array<Byte>
    var blocks: seq<int>
    var free: int

    function View(): M.Cache
      reads this, memory
    {
      M.Cache(memory[..], blocks, free)
    }

    /** Carve the partition of server `id` into blocks. */
    constructor (memory: array<Byte>, servers: nat, id: nat, b: nat)
      requires b > 0 && servers > 0 && b * servers > 0
      ensures this.memory == memory && this.b == b
      ensures View() == M.NewCache(memory[..], servers, id, b)
    {
      this.memory, this.b := memory, b;
      free := memory.Length / (b * servers);
      var partition := memory.Length / servers;
      var start, end := id * partition, (id + 1) * partition;
      var offset, carved := start, [];
      while offset < end
        invariant carved + M.Carve(offset, end, b) == M.Carve(start, end, b)
        decreases end - offset
      {
        assert carved + M.Carve(offset, end, b) == carved + [offset] + M.Carve(offset + b, end, b);
        carved, offset := carved + [offset], offset + b;
      }
      blocks := carved;
    }

    method Get(n: nat) returns (got: seq<int>)
      requires free <= |blocks|
      modifies this
      ensures (got, View()) == M.Get(old(View()), n)
    {
      if free < n {
        return [];
      }
      got := blocks[..n];
      blocks := blocks[n..];
      free := free - n;
    }

    method Put(given: seq<int>)
      modifies this
      ensures View() == M.Put(old(View()), given)
    {
      free := free + |given|;
      blocks := given + blocks;
    }
  }

  class File {
    const cache: BufferCache
    var live: seq<int>
    var orphans: seq<int>
    var size: nat

    constructor (cache: BufferCache)
      ensures this.cache == cache && View() == M.File([], [], 0)
    {
      this.cache, live, orphans, size := cache, [], [], 0;
    }

    function View(): M.File
      reads this
    {
      M.File(live, orphans, size)
    }

    ghost predicate Valid()
      reads this, cache, cache.memory
    {
      M.Sane(cache.b, cache.View(), View())
    }

    /** How many blocks n bytes take. */
    method BlocksFor(n: nat) returns (nr: nat)
      requires cache.b > 0
      ensures nr == M.Ceil(cache.b, n)
    {
      QuotIsDivision(cache.b, n);
      nr := n / cache.b;
      if n % cache.b != 0 {
        nr := nr + 1;
      }
    }

    method Shrink(n: nat)
      requires cache.b > 0 && M.Ceil(cache.b, n) <= |live|
      modifies this
      ensures View() == M.Shrink(cache.b, old(View()), n)
    {
      var nr := BlocksFor(n);
      if |live| - nr == 0 {
        return;
      }
      var cut := live[nr..];
      live := live[..nr];
      orphans := orphans + cut;
    }

    method Grow(n: nat) returns (ok: bool)
      requires cache.b > 0 && |live| <= M.Ceil(cache.b, n) && cache.free <= |cache.blocks|
      modifies this, cache
      ensures (ok, cache.View(), View()) == M.Grow(cache.b, old(cache.View()), old(View()), n)
    {
      var nr := BlocksFor(n);
      var need := nr - |live|;
      if need == 0 {
        assert cache.free >= 0 ==> cache.blocks[..0] == [] && cache.blocks[0..] == cache.blocks;
        assert live + [] == live;
        return true;
      }
      var got := cache.Get(need);
      if |got| != need {
        return false;
      }
      live := live + got;
      ok := true;
    }

    /** Where byte `offset` of the file is, and how many of `count` bytes are in the same block. */
    method Chunk(offset: nat, count: nat) returns (at: int, n: nat)
      requires cache.b > 0 && InMemory(cache.b, cache.memory.Length, live) && 0 < count
      requires offset + count <= Span(cache.b, |live|)
      ensures 0 < n <= count && 0 <= at && at + n <= cache.memory.Length
      ensures at == ChunkAt(cache.b, live, offset) && n == ChunkLength(cache.b, offset, count)
    {
      Located(cache.b, offset);
      Within(cache.b, offset, |live|);
      QuotIsDivision(cache.b, offset);
      var o := offset % cache.b;
      n := Min(cache.b - o, count);
      at := live[offset / cache.b] + o;
    }

    /** One turn of the loop of `read`. */
    method TakeChunk(offset: nat, left: nat, buf0: seq<Byte>, ghost all: seq<Byte>) returns (n: nat, buf: seq<Byte>)
      requires Reading(cache.b, cache.memory[..], live, offset, left, buf0, all) && 0 < left
      ensures 0 < n <= left && |buf| == |buf0| + n
      ensures Reading(cache.b, cache.memory[..], live, offset + n, left - n, buf, all)
    {
      var at;
      at, n := Chunk(offset, left);
      ghost var mem := cache.memory[..];
      assert cache.memory[at..at + n] == mem[at..at + n];
      buf := buf0 + cache.memory[at..at + n];
      ReadStep(cache.b, mem, live, offset, left, at, n, buf0, all, offset + n, left - n, buf);
    }

    /** The copying loop of `read`. */
    method CopyOut(offset0: nat, count: nat) returns (buf: seq<Byte>)
      requires cache.b > 0 && InMemory(cache.b, cache.memory.Length, live) && offset0 + count <= Span(cache.b, |live|)
      ensures buf == ReadBytes(cache.b, cache.memory[..], live, offset0, count)
    {
      var offset: nat, left: nat, n: nat := offset0, count, 0;
      ghost var all := ReadBytes(cache.b, cache.memory[..], live, offset0, count);
      buf := [];
      assert [] + all == all;
      while |buf| < count
        invariant left == count - |buf| && Reading(cache.b, cache.memory[..], live, offset, left, buf, all)
        decreases left
      {
        n, buf := TakeChunk(offset, left, buf, all);
        offset, left := offset + n, left - n;
      }
    }

    /** None: the copying loop would index past the block list. */
    method Read(offset: nat, count: nat) returns (r: Option<seq<Byte>>)
      requires Valid()
      ensures r == M.MachineRead(cache.b, cache.View(), View(), offset, count)
    {
      if offset >= size {
        return Some([]);
      }
      var n := if M.Wrap(offset + count) > size then size - offset else count;
      if n == 0 {
        return Some([]);
      }
      var past := PastEnd(offset + n);
      if past {
        return None;
      }
      var buf := CopyOut(offset, n);
      r := Some(buf);
    }

    /** Whether a loop up to `end` would index past the block list. */
    method PastEnd(end: nat) returns (past: bool)
      requires cache.b > 0
      ensures past <==> end > Span(cache.b, |live|)
    {
      SpanIsProduct(cache.b, |live|);
      past := end > |live| * cache.b;
    }

    /** One turn of the loop of `write`. */
    method PutChunk(data: seq<Byte>, offset: nat, done: nat, ghost final: seq<Byte>) returns (n: nat)
      requires done < |data| && Writing(cache.b, cache.memory[..], live, offset, data[done..], final)
      modifies cache.memory
      ensures 0 < n <= |data| - done && Writing(cache.b, cache.memory[..], live, offset + n, data[done + n..], final)
    {
      var at;
      at, n := Chunk(offset, |data| - done);
      ghost var mem, left := cache.memory[..], data[done..];
      assert left[..n] == data[done..done + n] && left[n..] == data[done + n..];
      CopyIn(cache.memory, at, data[done..done + n]);
      WriteStep(cache.b, mem, live, offset, left, at, n, final, cache.memory[..], offset + n, data[done + n..]);
    }

    /** The copying loop of `write`. */
    method CopyAll(data: seq<Byte>, offset0: nat)
      requires cache.b > 0 && InMemory(cache.b, cache.memory.Length, live) && offset0 + |data| <= Span(cache.b, |live|)
      modifies cache.memory
      ensures cache.memory[..] == WriteBytes(cache.b, old(cache.memory[..]), live, offset0, data)
    {
      var offset: nat, done: nat, n: nat := offset0, 0, 0;
      ghost var final := WriteBytes(cache.b, cache.memory[..], live, offset0, data);
      assert data[0..] == data;
      while done < |data|
        invariant done <= |data| && Writing(cache.b, cache.memory[..], live, offset, data[done..], final)
      {
        n := PutChunk(data, offset, done, final);
        offset, done := offset + n, done + n;
      }
    }

    /** None as for `Read`. */
    method Write(data: seq<Byte>, offset: nat) returns (r: Option<M.Result>)
      requires Valid()
      modifies this, cache, cache.memory
      ensures M.MachineWrite(cache.b, old(cache.View()), old(View()), data, offset)
           == if r.None? then None else Some((r.value, cache.View(), View()))
    {
      if data == [] {
        return Some(M.Done(0));
      }
      var n := M.Wrap(offset + |data|);
      M.CeilCovers(cache.b, size, n);
      M.GrowCovers(cache.b, cache.View(), View(), n);
      if size < n {
        var ok := Grow(n);
        size := n;
        if !ok {
          return Some(M.NoSpace);
        }
      }
      var past := PastEnd(offset + |data|);
      if past {
        return None;
      }
      CopyAll(data, offset);
      r := Some(M.Done(|data|));
    }

    method Truncate(n: nat) returns (r: M.Result)
      requires Valid()
      modifies this, cache
      ensures (r, cache.View(), View()) == M.Truncate(cache.b, old(cache.View()), old(View()), n)
    {
      M.CeilCovers(cache.b, size, n);
      M.CeilCovers(cache.b, n, size);
      if size < n {
        var ok := Grow(n);
        if !ok {
          return M.NoSpace;
        }
      } else if size > n {
        Shrink(n);
      }
      size := n;
      r := M.Done(0);
    }

    /** The destructor. */
    method Close()
      modifies this, cache
      ensures cache.View() == M.Destroy(old(cache.View()), old(View()))
      ensures live == [] && orphans == []
    {
      cache.Put(live);
      live := [];
      cache.Put(orphans);
      orphans := [];
    }
  }
}
