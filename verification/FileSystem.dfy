/**
 Any number of files over one pool of blocks, as a transition system. In every run each block of the
 partition is in exactly one place, and every file behaves as a flat sequence of bytes.
 */
module FileSystem {
  import opened FileBlocks
  import opened FileModel
  import opened Options
  import opened Runs

  datatype Slot = Free | Open(file: File)

  datatype Fs = Fs(b: nat, cache: Cache, files: seq<Slot>)

  datatype Action =
    | Create
    | WriteTo(i: nat, data: seq<Byte>, offset: nat)
    | TruncateTo(i: nat, n: nat)
    | Delete(i: nat)

  predicate IsOpen(s: Fs, i: nat) {
    i < |s.files| && s.files[i].Open?
  }

  // ---- where the blocks are ----

  function Count(s: seq<int>, x: int): nat {
    multiset(s)[x]
  }

  lemma CountAppend(s: seq<int>, t: seq<int>, x: int)
    ensures Count(s + t, x) == Count(s, x) + Count(t, x)
  {
  }

  lemma CountSplit(s: seq<int>, n: nat, x: int)
    requires n <= |s|
    ensures Count(s, x) == Count(s[..n], x) + Count(s[n..], x)
  {
    assert s == s[..n] + s[n..];
  }

  /** How often a file holds block x. */
  function Held(f: Slot, x: int): nat {
    if f.Free? then 0 else Count(f.file.live, x) + Count(f.file.orphans, x)
  }

  function AllHeld(files: seq<Slot>, x: int): nat {
    if files == [] then 0 else AllHeld(files[..|files| - 1], x) + Held(files[|files| - 1], x)
  }

  /** How often block x occurs in the pool, the live blocks and the orphans together. */
  function Places(s: Fs, x: int): nat {
    Count(s.cache.blocks, x) + AllHeld(s.files, x)
  }

  /** The blocks of the partition are each in one place, and no other block is anywhere. */
  ghost predicate Conserved(all: seq<int>, s: Fs) {
    forall x :: Places(s, x) == if x in all then 1 else 0
  }

  ghost predicate CoveredAt(b: nat, files: seq<Slot>, i: nat) {
    i < |files| && files[i].Open? ==> Covered(b, files[i].file)
  }

  /** `all` are the blocks of the partition. */
  ghost predicate Inv(all: seq<int>, s: Fs) {
    && s.b > 0 && InMemory(s.b, |s.cache.mem|, all) && Apart(s.b, all)
    && Conserved(all, s) && s.cache.free == |s.cache.blocks|
    && forall i: nat :: CoveredAt(s.b, s.files, i)
  }

  lemma {:induction false} HeldUpdate(files: seq<Slot>, i: nat, f: Slot, x: int)
    requires i < |files|
    ensures AllHeld(files[i := f], x) + Held(files[i], x) == AllHeld(files, x) + Held(f, x)
  {
    var n := |files| - 1;
    if i == n {
      assert files[i := f][..n] == files[..n];
    } else {
      HeldUpdate(files[..n], i, f, x);
      assert files[i := f][..n] == files[..n][i := f];
    }
  }

  lemma {:induction false} HeldPart(files: seq<Slot>, i: nat, x: int)
    requires i < |files|
    ensures Held(files[i], x) <= AllHeld(files, x)
  {
    if i < |files| - 1 {
      HeldPart(files[..|files| - 1], i, x);
    }
  }

  lemma HeldPair(files: seq<Slot>, i: nat, j: nat, x: int)
    requires i < |files| && j < |files| && i != j
    ensures Held(files[i], x) + Held(files[j], x) <= AllHeld(files, x)
  {
    HeldUpdate(files, i, Free, x);
    HeldPart(files[i := Free], j, x);
  }

  /** Blocks drawn from the partition, each at most once, do not overlap. */
  lemma DrawnApart(b: nat, size: int, all: seq<int>, s: seq<int>)
    requires b > 0 && Apart(b, all) && InMemory(b, size, all)
    requires forall x :: Count(s, x) <= if x in all then 1 else 0
    ensures Apart(b, s) && InMemory(b, size, s)
  {
    forall i | 0 <= i < |s| ensures s[i] in all { assert s[i] in multiset(s) && Count(s, s[i]) >= 1; }
    forall i, j | 0 <= i < |s| && 0 <= j < |s| && i != j ensures Disjoint(b, s[i], s[j]) {
      if s[i] == s[j] {
        Twice(s, i, j);
        assert false;
      }
      var k, l :| 0 <= k < |all| && 0 <= l < |all| && all[k] == s[i] && all[l] == s[j];
      assert Disjoint(b, all[k], all[l]);
    }
  }

  lemma Twice(s: seq<int>, i: nat, j: nat)
    requires i < |s| && j < |s| && i != j && s[i] == s[j]
    ensures Count(s, s[i]) >= 2
  {
    var k, l := if i < j then i else j, if i < j then j else i;
    CountSplit(s, l, s[k]);
    assert s[..l][k] in multiset(s[..l]) && s[l..][0] in multiset(s[l..]);
  }

  /** The live blocks of a file and the pool lie in memory and do not overlap. */
  lemma FileApart(all: seq<int>, s: Fs, i: nat)
    requires Inv(all, s) && IsOpen(s, i)
    ensures Apart(s.b, s.files[i].file.live + s.cache.blocks) && Sane(s.b, s.cache, s.files[i].file)
  {
    var f := s.files[i].file;
    var drawn := f.live + s.cache.blocks;
    forall x ensures Count(drawn, x) <= if x in all then 1 else 0 {
      CountAppend(f.live, s.cache.blocks, x);
      HeldPart(s.files, i, x);
      assert Places(s, x) <= 1;
    }
    DrawnApart(s.b, |s.cache.mem|, all, drawn);
    forall k | 0 <= k < |f.live| ensures 0 <= f.live[k] <= |s.cache.mem| - s.b { assert drawn[k] == f.live[k]; }
    forall k | 0 <= k < |s.cache.blocks| ensures 0 <= s.cache.blocks[k] <= |s.cache.mem| - s.b {
      assert drawn[|f.live| + k] == s.cache.blocks[k];
    }
    assert CoveredAt(s.b, s.files, i);
  }

  /** The live blocks of a file and the pool do not overlap with the live blocks of another file. */
  lemma FilesApart(all: seq<int>, s: Fs, i: nat, j: nat)
    requires Inv(all, s) && IsOpen(s, i) && IsOpen(s, j) && i != j
    ensures Apart(s.b, s.files[i].file.live + s.cache.blocks + s.files[j].file.live)
  {
    var f, g := s.files[i].file, s.files[j].file;
    var drawn := f.live + s.cache.blocks + g.live;
    forall x ensures Count(drawn, x) <= if x in all then 1 else 0 {
      CountAppend(f.live + s.cache.blocks, g.live, x);
      CountAppend(f.live, s.cache.blocks, x);
      HeldPair(s.files, i, j, x);
      assert Places(s, x) <= 1;
    }
    DrawnApart(s.b, |s.cache.mem|, all, drawn);
  }

  // ---- steps ----

  ghost predicate Usable(s: Fs, i: nat) {
    IsOpen(s, i) && Sane(s.b, s.cache, s.files[i].file)
  }

  function Update(s: Fs, i: nat, c: Cache, f: Slot): Fs
    requires i < |s.files|
  {
    s.(cache := c, files := s.files[i := f])
  }

  ghost function Step(s: Fs, a: Action): Fs {
    match a
    case Create => s.(files := s.files + [Open(File([], [], 0))])
    case WriteTo(i, data, offset) =>
      if !Usable(s, i) then s
      else
        var (_, c, f) := Write(s.b, s.cache, s.files[i].file, data, offset);
        Update(s, i, c, Open(f))
    case TruncateTo(i, n) =>
      if !Usable(s, i) then s else var (_, c, f) := Truncate(s.b, s.cache, s.files[i].file, n); Update(s, i, c, Open(f))
    case Delete(i) =>
      if !Usable(s, i) then s else Update(s, i, Destroy(s.cache, s.files[i].file), Free)
  }

  /** The file is open, and a write gets the blocks it needs. */
  predicate Enabled(s: Fs, a: Action) {
    match a
    case Create => true
    case WriteTo(i, data, offset) => IsOpen(s, i) && s.b > 0 && WriteFits(s.b, s.cache, s.files[i].file, data, offset)
    case TruncateTo(i, n) => IsOpen(s, i)
    case Delete(i) => IsOpen(s, i)
  }

  ghost function Server(): System<Fs, Action> {
    System((s, a) => Enabled(s, a), (s, a) => Step(s, a))
  }

  // ---- conservation ----

  lemma UpdateInv(all: seq<int>, s: Fs, i: nat, c: Cache, f: Slot)
    requires Inv(all, s) && i < |s.files| && |c.mem| == |s.cache.mem| && c.free == |c.blocks|
    requires f.Open? ==> Covered(s.b, f.file)
    requires forall x :: Count(c.blocks, x) + Held(f, x) == Count(s.cache.blocks, x) + Held(s.files[i], x)
    ensures Inv(all, Update(s, i, c, f))
  {
    var t := Update(s, i, c, f);
    forall x ensures Places(t, x) == if x in all then 1 else 0 {
      HeldUpdate(s.files, i, f, x);
      assert Places(s, x) == if x in all then 1 else 0;
    }
    forall k: nat ensures CoveredAt(t.b, t.files, k) { assert CoveredAt(s.b, s.files, k); }
  }

  lemma GrowCounts(b: nat, c: Cache, f: File, n: nat, x: int)
    requires b > 0 && |f.live| <= Ceil(b, n) && c.free == |c.blocks|
    ensures var (_, c', f') := Grow(b, c, f, n);
            && Count(c'.blocks, x) + Count(f'.live, x) == Count(c.blocks, x) + Count(f.live, x)
            && f'.orphans == f.orphans && c'.free == |c'.blocks| && c'.mem == c.mem
  {
    var need := Ceil(b, n) - |f.live|;
    if need <= c.free {
      CountSplit(c.blocks, need, x);
      CountAppend(f.live, c.blocks[..need], x);
    }
  }

  lemma WriteCounts(b: nat, c: Cache, f: File, data: seq<Byte>, offset: nat, x: int)
    requires Sane(b, c, f)
    ensures var (_, c', f') := Write(b, c, f, data, offset);
            && Count(c'.blocks, x) + Held(Open(f'), x) == Count(c.blocks, x) + Held(Open(f), x)
            && c'.free == |c'.blocks| && |c'.mem| == |c.mem|
  {
    var n := offset + |data|;
    CeilCovers(b, f.size, n);
    if data != [] && f.size < n {
      GrowCounts(b, c, f, n, x);
    }
  }

  lemma WriteInv(all: seq<int>, s: Fs, i: nat, data: seq<Byte>, offset: nat)
    requires Inv(all, s) && Enabled(s, WriteTo(i, data, offset))
    ensures Inv(all, Step(s, WriteTo(i, data, offset)))
  {
    FileApart(all, s, i);
    var f := s.files[i].file;
    WriteExact(s.b, s.cache, f, data, offset);
    var (_, c, g) := Write(s.b, s.cache, f, data, offset);
    forall x ensures Count(c.blocks, x) + Held(Open(g), x) == Count(s.cache.blocks, x) + Held(s.files[i], x) {
      WriteCounts(s.b, s.cache, f, data, offset, x);
    }
    WriteCounts(s.b, s.cache, f, data, offset, 0);
    UpdateInv(all, s, i, c, Open(g));
  }

  lemma TruncateInv(all: seq<int>, s: Fs, i: nat, n: nat)
    requires Inv(all, s) && IsOpen(s, i)
    ensures Inv(all, Step(s, TruncateTo(i, n)))
  {
    FileApart(all, s, i);
    var f := s.files[i].file;
    CeilCovers(s.b, f.size, n);
    CeilCovers(s.b, n, f.size);
    var (_, c, g) := Truncate(s.b, s.cache, f, n);
    forall x ensures Count(c.blocks, x) + Held(Open(g), x) == Count(s.cache.blocks, x) + Held(s.files[i], x) {
      if f.size < n {
        GrowCounts(s.b, s.cache, f, n, x);
      } else if f.size > n {
        CountSplit(f.live, Ceil(s.b, n), x);
        CountAppend(f.orphans, f.live[Ceil(s.b, n)..], x);
      }
    }
    var filler := TruncateRefines(s.b, s.cache, f, n);
    UpdateInv(all, s, i, c, Open(g));
  }

  lemma DeleteInv(all: seq<int>, s: Fs, i: nat)
    requires Inv(all, s) && IsOpen(s, i)
    ensures Inv(all, Step(s, Delete(i)))
  {
    FileApart(all, s, i);
    var f := s.files[i].file;
    var c := Destroy(s.cache, f);
    forall x ensures Count(c.blocks, x) + Held(Free, x) == Count(s.cache.blocks, x) + Held(s.files[i], x) {
      CountAppend(f.live, s.cache.blocks, x);
      CountAppend(f.orphans, f.live + s.cache.blocks, x);
    }
    UpdateInv(all, s, i, c, Free);
  }

  lemma CreateInv(all: seq<int>, s: Fs)
    requires Inv(all, s)
    ensures Inv(all, Step(s, Create))
  {
    var t := Step(s, Create);
    assert t.files[..|s.files|] == s.files;
    forall x ensures Places(t, x) == if x in all then 1 else 0 {
      assert Count([], x) == 0;
      assert Places(s, x) == if x in all then 1 else 0;
    }
    CeilCovers(s.b, 0, 0);
    forall k: nat ensures CoveredAt(t.b, t.files, k) { assert CoveredAt(s.b, s.files, k); }
  }

  lemma StepInv(all: seq<int>, s: Fs, a: Action)
    requires Inv(all, s) && Enabled(s, a)
    ensures Inv(all, Step(s, a))
  {
    match a
    case Create => CreateInv(all, s);
    case WriteTo(i, data, offset) => WriteInv(all, s, i, data, offset);
    case TruncateTo(i, n) => TruncateInv(all, s, i, n);
    case Delete(i) => DeleteInv(all, s, i);
  }

  /** In every run each block is in exactly one place, and the counter is right. */
  lemma BlocksConserved(all: seq<int>, s: Fs, acts: seq<Action>)
    requires Inv(all, s) && IsRun(Server(), s, acts)
    ensures Inv(all, After(Server(), s, acts))
  {
    forall s, a | Inv(all, s) && Enabled(s, a) ensures Inv(all, Step(s, a)) { StepInv(all, s, a); }
    Invariant(Server(), s => Inv(all, s), s, acts);
  }

  /** A fresh server whose partition is divided by the block size starts out right. */
  lemma FreshInv(mem: seq<Byte>, servers: nat, id: nat, b: nat)
    requires b > 0 && servers > 0 && b * servers > 0 && id < servers && |mem| / servers % b == 0
    ensures var c := NewCache(mem, servers, id, b); Inv(c.blocks, Fs(b, c, []))
  {
    PartitionApart(mem, servers, id, b);
    var c := NewCache(mem, servers, id, b);
    forall x ensures Count(c.blocks, x) == if x in c.blocks then 1 else 0 { OnceIn(b, c.blocks, x); }
  }

  /** No block of the partition occurs twice in it. */
  lemma OnceIn(b: nat, all: seq<int>, x: int)
    requires b > 0 && Apart(b, all)
    ensures Count(all, x) == if x in all then 1 else 0
  {
    if i :| 0 <= i < |all| && all[i] == x {
      assert all == all[..i] + [x] + all[i + 1..];
      forall k | 0 <= k < |all| && k != i ensures all[k] != x { assert Disjoint(b, all[i], all[k]); }
    }
  }

  // ---- every file is a flat sequence of bytes ----

  datatype FlatSlot = NoFile | Bytes(s: seq<Byte>)

  datatype FlatAction =
    | FlatCreate
    | FlatWriteTo(i: nat, data: seq<Byte>, offset: nat, filler: seq<Byte>)
    | FlatTruncateTo(i: nat, n: nat, filler: seq<Byte>)
    | FlatDelete(i: nat)
    | FlatNothing

  /** What a file system of flat byte sequences does; a filler stands for bytes nobody wrote. */
  function FlatStep(s: seq<FlatSlot>, a: FlatAction): seq<FlatSlot> {
    match a
    case FlatCreate => s + [Bytes([])]
    case FlatWriteTo(i, data, offset, filler) =>
      if i < |s| && s[i].Bytes? && data != [] && offset + |data| <= |s[i].s| + |filler|
      then s[i := Bytes(FlatWrite(s[i].s, data, offset, filler))] else s
    case FlatTruncateTo(i, n, filler) =>
      if i < |s| && s[i].Bytes? && n <= |s[i].s| + |filler| then s[i := Bytes((s[i].s + filler)[..n])] else s
    case FlatDelete(i) => if i < |s| then s[i := NoFile] else s
    case FlatNothing => s
  }

  function FlatAfter(s: seq<FlatSlot>, acts: seq<FlatAction>): seq<FlatSlot>
    decreases acts
  {
    if acts == [] then s else FlatAfter(FlatStep(s, acts[0]), acts[1..])
  }

  /** The flat step does what the action asks, with filler only for the part that is new. */
  predicate Answers(s: Fs, v: seq<FlatSlot>, a: Action, fa: FlatAction) {
    match a
    case Create => fa == FlatCreate
    case WriteTo(i, data, offset) =>
      if data == [] then fa == FlatNothing
      else fa.FlatWriteTo? && fa.i == i && fa.data == data && fa.offset == offset && i < |v| && v[i].Bytes?
           && |fa.filler| == if |v[i].s| < offset + |data| then offset + |data| - |v[i].s| else 0
    case TruncateTo(i, n) =>
      if IsOpen(s, i) && s.b > 0 && s.files[i].file.size < n && Ceil(s.b, n) - |s.files[i].file.live| > s.cache.free
      then fa == FlatNothing
      else fa.FlatTruncateTo? && fa.i == i && fa.n == n && i < |v| && v[i].Bytes?
           && |fa.filler| == if |v[i].s| < n then n - |v[i].s| else 0
    case Delete(i) => fa == FlatDelete(i)
  }

  ghost predicate AnswersAll(s: Fs, v: seq<FlatSlot>, acts: seq<Action>, fas: seq<FlatAction>)
    decreases acts
  {
    && |acts| == |fas| && (acts != [] ==> Answers(s, v, acts[0], fas[0]))
    && (acts != [] ==> AnswersAll(Step(s, acts[0]), FlatStep(v, fas[0]), acts[1..], fas[1..]))
  }

  ghost function SlotView(all: seq<int>, s: Fs, i: nat): FlatSlot
    requires Inv(all, s) && i < |s.files|
  {
    if s.files[i].Free? then NoFile
    else
      FileApart(all, s, i);
      Bytes(Contents(s.b, s.cache, s.files[i].file))
  }

  ghost function View(all: seq<int>, s: Fs): seq<FlatSlot>
    requires Inv(all, s)
  {
    seq(|s.files|, i requires 0 <= i < |s.files| => SlotView(all, s, i))
  }

  lemma ApartThree(b: nat, x: seq<int>, y: seq<int>, z: seq<int>, n: nat)
    requires Apart(b, x + y + z) && n <= |y|
    ensures forall k, l :: 0 <= k < |x + y[..n]| && 0 <= l < |z| ==> Disjoint(b, (x + y[..n])[k], z[l])
  {
    var all := x + y + z;
    forall k, l | 0 <= k < |x + y[..n]| && 0 <= l < |z| ensures Disjoint(b, (x + y[..n])[k], z[l]) {
      assert Disjoint(b, all[k], all[|x| + |y| + l]);
    }
  }

  /** A write changes no block of a file that is apart from this one and from the pool. */
  lemma WriteElsewhere(b: nat, c: Cache, f: File, data: seq<Byte>, offset: nat, others: seq<int>)
    requires Sane(b, c, f) && InMemory(b, |c.mem|, others) && Apart(b, f.live + c.blocks + others)
    ensures var c' := Write(b, c, f, data, offset).1;
            |c'.mem| == |c.mem| && Flat(b, c'.mem, others) == Flat(b, c.mem, others)
  {
    var n := offset + |data|;
    GrowCovers(b, c, f, n);
    CeilCovers(b, f.size, n);
    var need := if f.size < n then Ceil(b, n) - |f.live| else 0;
    if data != [] && need <= c.free {
      ApartThree(b, f.live, c.blocks, others, need);
      assert need == 0 ==> f.live + c.blocks[..need] == f.live;
      WriteBytesElsewhere(b, c.mem, f.live + c.blocks[..need], offset, data, others);
    }
  }

  /** The other files see nothing of a write. */
  lemma Isolated(all: seq<int>, s: Fs, i: nat, data: seq<Byte>, offset: nat, j: nat)
    requires Inv(all, s) && Enabled(s, WriteTo(i, data, offset)) && j < |s.files| && j != i
    ensures Inv(all, Step(s, WriteTo(i, data, offset)))
    ensures SlotView(all, Step(s, WriteTo(i, data, offset)), j) == SlotView(all, s, j)
  {
    StepInv(all, s, WriteTo(i, data, offset));
    FileApart(all, s, i);
    if s.files[j].Open? {
      FileApart(all, s, j);
      FilesApart(all, s, i, j);
      WriteElsewhere(s.b, s.cache, s.files[i].file, data, offset, s.files[j].file.live);
    }
  }

  /** The file itself sees the write. */
  lemma Written(all: seq<int>, s: Fs, i: nat, data: seq<Byte>, offset: nat) returns (filler: seq<Byte>)
    requires Inv(all, s) && Enabled(s, WriteTo(i, data, offset)) && data != []
    ensures Inv(all, Step(s, WriteTo(i, data, offset)))
    ensures var f := s.files[i].file; |filler| == if f.size < offset + |data| then offset + |data| - f.size else 0
    ensures SlotView(all, s, i).Bytes? && |SlotView(all, s, i).s| == s.files[i].file.size
    ensures SlotView(all, Step(s, WriteTo(i, data, offset)), i)
            == Bytes(FlatWrite(SlotView(all, s, i).s, data, offset, filler))
  {
    FileApart(all, s, i);
    StepInv(all, s, WriteTo(i, data, offset));
    filler := WriteRefines(s.b, s.cache, s.files[i].file, data, offset);
  }

  lemma WriteStep(all: seq<int>, s: Fs, i: nat, data: seq<Byte>, offset: nat) returns (fa: FlatAction)
    requires Inv(all, s) && Enabled(s, WriteTo(i, data, offset)) && data != []
    ensures var t := Step(s, WriteTo(i, data, offset));
            Inv(all, t) && Answers(s, View(all, s), WriteTo(i, data, offset), fa)
                && View(all, t) == FlatStep(View(all, s), fa)
  {
    var filler := Written(all, s, i, data, offset);
    var t := Step(s, WriteTo(i, data, offset));
    fa := FlatWriteTo(i, data, offset, filler);
    FileApart(all, s, i);
    forall j: nat | j < |s.files| && j != i ensures SlotView(all, t, j) == SlotView(all, s, j) {
      Isolated(all, s, i, data, offset, j);
    }
    OneChanged(all, s, t, i);
  }

  lemma OneChanged(all: seq<int>, s: Fs, t: Fs, i: nat)
    requires Inv(all, s) && Inv(all, t) && i < |s.files| == |t.files|
    requires forall j: nat :: j < |s.files| && j != i ==> SlotView(all, t, j) == SlotView(all, s, j)
    ensures View(all, t) == View(all, s)[i := SlotView(all, t, i)]
  {
  }

  /** Writing nothing changes nothing. */
  lemma NothingWritten(s: Fs, i: nat, offset: nat)
    ensures Step(s, WriteTo(i, [], offset)) == s
  {
    if Usable(s, i) { assert s.files[i := s.files[i]] == s.files; }
  }

  lemma TruncateStep(all: seq<int>, s: Fs, i: nat, n: nat) returns (fa: FlatAction)
    requires Inv(all, s) && IsOpen(s, i)
    ensures var t := Step(s, TruncateTo(i, n));
            Inv(all, t) && Answers(s, View(all, s), TruncateTo(i, n), fa) && View(all, t) == FlatStep(View(all, s), fa)
  {
    FileApart(all, s, i);
    StepInv(all, s, TruncateTo(i, n));
    var filler := TruncateRefines(s.b, s.cache, s.files[i].file, n);
    var f := s.files[i].file;
    if f.size < n && Ceil(s.b, n) - |f.live| > s.cache.free {
      fa := FlatNothing;
      assert s.files[i := s.files[i]] == s.files;
    } else {
      fa := FlatTruncateTo(i, n, filler);
      OthersStay(all, s, i, Truncate(s.b, s.cache, f, n).1, Open(Truncate(s.b, s.cache, f, n).2));
    }
  }

  /** What happens to one file without touching memory leaves the others as they are. */
  lemma OthersStay(all: seq<int>, s: Fs, i: nat, c: Cache, f: Slot)
    requires Inv(all, s) && i < |s.files| && c.mem == s.cache.mem && Inv(all, Update(s, i, c, f))
    ensures View(all, Update(s, i, c, f)) == View(all, s)[i := SlotView(all, Update(s, i, c, f), i)]
  {
    var t := Update(s, i, c, f);
    forall j | 0 <= j < |s.files| && j != i ensures SlotView(all, t, j) == SlotView(all, s, j) {
      if s.files[j].Open? {
        FileApart(all, s, j);
        FileApart(all, t, j);
      }
    }
  }

  lemma StepRefines(all: seq<int>, s: Fs, a: Action) returns (fa: FlatAction)
    requires Inv(all, s) && Enabled(s, a)
    ensures Inv(all, Step(s, a)) && Answers(s, View(all, s), a, fa)
            && View(all, Step(s, a)) == FlatStep(View(all, s), fa)
  {
    StepInv(all, s, a);
    match a
    case Create =>
      fa := FlatCreate;
      var t := Step(s, a);
      forall j | 0 <= j < |t.files| ensures SlotView(all, t, j) == FlatStep(View(all, s), fa)[j] {
        if j < |s.files| && s.files[j].Open? {
          FileApart(all, s, j);
          FileApart(all, t, j);
        }
      }
    case WriteTo(i, data, offset) =>
      if data == [] {
        NothingWritten(s, i, offset);
        fa := FlatNothing;
      } else {
        fa := WriteStep(all, s, i, data, offset);
      }
    case TruncateTo(i, n) => fa := TruncateStep(all, s, i, n);
    case Delete(i) =>
      fa := FlatDelete(i);
      FileApart(all, s, i);
      OthersStay(all, s, i, Destroy(s.cache, s.files[i].file), Free);
  }

  /** Every run of the file system is a run of flat files: same actions, same contents. */
  lemma {:induction false} RunRefines(all: seq<int>, s: Fs, acts: seq<Action>) returns (fas: seq<FlatAction>)
    requires Inv(all, s) && IsRun(Server(), s, acts)
    ensures Inv(all, After(Server(), s, acts)) && AnswersAll(s, View(all, s), acts, fas)
    ensures View(all, After(Server(), s, acts)) == FlatAfter(View(all, s), fas)
    decreases acts
  {
    fas := [];
    if acts != [] {
      var fa := StepRefines(all, s, acts[0]);
      var rest := RunRefines(all, Step(s, acts[0]), acts[1..]);
      fas := [fa] + rest;
      assert fas[1..] == rest;
    }
  }

  /** A read after any run returns what a read of the flat file returns after the answering flat run. */
  lemma ReadAfterRun(all: seq<int>, s: Fs, acts: seq<Action>, i: nat, offset: nat, count: nat)
    returns (fas: seq<FlatAction>)
    requires Inv(all, s) && IsRun(Server(), s, acts) && IsOpen(After(Server(), s, acts), i)
    ensures AnswersAll(s, View(all, s), acts, fas)
    ensures var t, v := After(Server(), s, acts), FlatAfter(View(all, s), fas);
            && Sane(t.b, t.cache, t.files[i].file) && i < |v| && v[i].Bytes?
            && Read(t.b, t.cache, t.files[i].file, offset, count) == FlatRead(v[i].s, offset, count)
  {
    fas := RunRefines(all, s, acts);
    var t := After(Server(), s, acts);
    FileApart(all, t, i);
    ReadRefines(t.b, t.cache, t.files[i].file, offset, count);
    assert View(all, t)[i] == SlotView(all, t, i);
  }

  /** In a partition of fewer than 2^64 bytes the writes of a run are what the 64-bit code does. */
  lemma WritesDoNotWrap(all: seq<int>, s: Fs, i: nat, data: seq<Byte>, offset: nat)
    requires Inv(all, s) && Enabled(s, WriteTo(i, data, offset)) && Span(s.b, |all|) < WORD
    ensures Sane(s.b, s.cache, s.files[i].file)
    ensures MachineAgrees(s.b, s.cache, s.files[i].file, data, offset)
  {
    FileApart(all, s, i);
    var f := s.files[i].file;
    NoMoreBlocks(all, s, i);
    Scaled(|f.live| + |s.cache.blocks|, |all|, s.b);
    FittingDoesNotWrap(s.b, s.cache, f, data, offset);
  }

  /** A file and the pool together have no more blocks than the partition. */
  lemma NoMoreBlocks(all: seq<int>, s: Fs, i: nat)
    requires Inv(all, s) && IsOpen(s, i)
    ensures |s.files[i].file.live| + |s.cache.blocks| <= |all|
  {
    var live, free := multiset(s.files[i].file.live), multiset(s.cache.blocks);
    forall x ensures (live + free)[x] <= multiset(all)[x] {
      HeldPart(s.files, i, x);
      assert Places(s, x) == if x in all then 1 else 0;
      assert x in all ==> x in multiset(all);
    }
    NoMore(live + free, multiset(all));
  }

  lemma NoMore(x: multiset<int>, y: multiset<int>)
    requires x <= y
    ensures |x| <= |y|
  {
    assert y == x + (y - x);
  }
}
