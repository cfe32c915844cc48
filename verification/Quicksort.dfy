/**
 SGLIB_ARRAY_QUICK_SORT of webserver/sglib.h: quicksort in place with an explicit stack of segments
 still to be sorted, kept in two arrays of 64 slots.
 */
module Quicksort {
  import opened Comparators
  import opened Powers

  const SLOTS: nat := 64

  /** The elements at positions lo <= x < hi. */
  datatype Segment = Segment(lo: int, hi: int)

  function Size(g: Segment): int {
    g.hi - g.lo
  }

  // ---- what is known between two steps ----

  /** Some segment holds both positions, so nothing is known about their order yet. */
  ghost predicate Together(segs: seq<Segment>, k: int, x: int, y: int) {
    0 <= k < |segs| && segs[k].lo <= x < segs[k].hi && segs[k].lo <= y < segs[k].hi
  }

  ghost predicate RankedAt<T>(cmp: (T, T) -> int, s: seq<T>, segs: seq<Segment>, x: int, y: int) {
    0 <= x < y < |s| ==> cmp(s[x], s[y]) <= 0 || exists k :: Together(segs, k, x, y)
  }

  /** The first max elements are in order wherever no segment holds both positions. */
  ghost predicate Ranked<T>(cmp: (T, T) -> int, s: seq<T>, max: int, segs: seq<Segment>) {
    forall x, y :: 0 <= x < y < max ==> RankedAt(cmp, s, segs, x, y)
  }

  ghost predicate SegmentAt(max: int, segs: seq<Segment>, k: int) {
    0 <= k < |segs| ==> 0 <= segs[k].lo <= segs[k].hi <= max && Size(segs[k]) <= Halved(max, k)
  }

  ghost predicate ApartAt(segs: seq<Segment>, k: int, l: int) {
    0 <= k < l < |segs| ==> segs[k].hi <= segs[l].lo || segs[l].hi <= segs[k].lo
  }

  /** Segments do not overlap, and slot k holds at most max / 2^k elements. */
  ghost predicate Tidy(max: int, segs: seq<Segment>) {
    && (forall k :: SegmentAt(max, segs, k))
    && (forall k, l :: ApartAt(segs, k, l))
  }

  /** max / 2^k. */
  function Halved(max: int, k: nat): int {
    if k == 0 then max else Halved(max, k - 1) / 2
  }

  lemma {:induction false} HalvedBelow(max: nat, k: nat, slots: nat)
    requires max <= Power(slots)
    ensures 0 <= Halved(max, k) <= if k <= slots then Power(slots - k) else 1
  {
    if k > 0 {
      HalvedBelow(max, k - 1, slots);
    }
  }

  /** A stack that still has a segment of three elements to split has room for one more. */
  lemma Room(max: nat, size: int, k: nat, slots: nat)
    requires max <= Power(slots) && 3 <= size <= Halved(max, k)
    ensures k + 1 < slots
  {
    HalvedBelow(max, k, slots);
    if slots <= k + 1 {
      assert false;
    }
  }

  /** What remains to be done, for termination. */
  function Weight(segs: seq<Segment>): int {
    if segs == [] then 0 else Weight(segs[..|segs| - 1]) + Size(segs[|segs| - 1]) + 1
  }

  lemma WeightPush(stack: seq<Segment>, g: Segment)
    ensures Weight(stack + [g]) == Weight(stack) + Size(g) + 1
  {
    assert (stack + [g])[..|stack|] == stack;
  }

  lemma {:induction false} WeightNonnegative(max: int, segs: seq<Segment>)
    requires forall k :: SegmentAt(max, segs, k)
    ensures Weight(segs) >= 0
  {
    if segs != [] {
      var rest := segs[..|segs| - 1];
      forall k ensures SegmentAt(max, rest, k) { assert SegmentAt(max, segs, k); }
      WeightNonnegative(max, rest);
      assert SegmentAt(max, segs, |segs| - 1);
    }
  }

  ghost predicate Inside(h: Segment, g: Segment) {
    g.lo <= h.lo <= h.hi <= g.hi
  }

  /** The topmost segment becomes smaller. */
  lemma TidyShrink(max: int, stack: seq<Segment>, g: Segment, h: Segment)
    requires Tidy(max, stack + [g]) && Inside(h, g)
    ensures Tidy(max, stack + [h])
  {
    var segs, segs' := stack + [g], stack + [h];
    forall k ensures SegmentAt(max, segs', k) {
      assert SegmentAt(max, segs, k);
    }
    forall k, l ensures ApartAt(segs', k, l) { assert ApartAt(segs, k, l); }
  }

  /** The topmost segment gives way to two parts, the second at most half of it. */
  lemma TidySplit(max: int, stack: seq<Segment>, g: Segment, big: Segment, small: Segment)
    requires Tidy(max, stack + [g]) && Inside(big, g) && Inside(small, g) && 2 * Size(small) <= Size(g)
    requires big.hi <= small.lo || small.hi <= big.lo
    ensures Tidy(max, stack + [big] + [small])
  {
    var n, segs, segs' := |stack|, stack + [g], stack + [big] + [small];
    forall k ensures SegmentAt(max, segs', k) { SplitAt(max, stack, g, big, small, k); }
    forall k, l ensures ApartAt(segs', k, l) {
      assert ApartAt(segs, k, l) && ApartAt(segs, k, n);
    }
  }

  lemma SplitAt(max: int, stack: seq<Segment>, g: Segment, big: Segment, small: Segment, k: int)
    requires forall l :: SegmentAt(max, stack + [g], l)
    requires Inside(big, g) && Inside(small, g) && 2 * Size(small) <= Size(g)
    ensures SegmentAt(max, stack + [big] + [small], k)
  {
    var n := |stack|;
    assert SegmentAt(max, stack + [g], n);
    if k < n {
      assert SegmentAt(max, stack + [g], k);
    } else if k == n + 1 {
      assert Size(g) <= Halved(max, n) && Halved(max, n + 1) == Halved(max, n) / 2;
    }
  }

  // ---- exchanging and splitting ----

  function Exchanged<T>(s: seq<T>, i: int, j: int): seq<T>
    requires 0 <= i < |s| && 0 <= j < |s|
  {
    s[i := s[j]][j := s[i]]
  }

  /** Exchanging two elements of one segment disturbs nothing that is known. */
  lemma ExchangeRanked<T>(cmp: (T, T) -> int, s: seq<T>, max: int, segs: seq<Segment>, k: int, i: int, j: int)
    requires max <= |s| && Tidy(max, segs) && Ranked(cmp, s, max, segs) && Together(segs, k, i, j) && 0 <= i < max
    requires 0 <= j < max
    ensures Ranked(cmp, Exchanged(s, i, j), max, segs)
  {
    var t := Exchanged(s, i, j);
    forall x, y | 0 <= x < y < max ensures RankedAt(cmp, t, segs, x, y) {
      if x in {i, j} && y in {i, j} {
        assert Together(segs, k, x, y);
      } else if !exists m :: Together(segs, m, x, y) {
        var x' := if x == i then j else if x == j then i else x;
        var y' := if y == i then j else if y == j then i else y;
        assert !Together(segs, k, x, y);
        StaysApart(max, segs, k, i, j, x, y, x', y');
        assert RankedAt(cmp, s, segs, x', y');
      }
    }
  }

  lemma StaysApart(max: int, segs: seq<Segment>, k: int, i: int, j: int, x: int, y: int, x': int, y': int)
    requires Tidy(max, segs) && Together(segs, k, i, j) && x < y && !exists m :: Together(segs, m, x, y)
    requires if x in {i, j} then x' in {i, j} && y' == y && y !in {i, j}
             else x' == x && if y in {i, j} then y' in {i, j} else y' == y
    ensures x' < y' && !exists m :: Together(segs, m, x', y')
  {
    assert !Together(segs, k, x, y);
    forall m ensures !Together(segs, m, x', y') {
      assert !Together(segs, m, x, y);
      assert ApartAt(segs, m, k) && ApartAt(segs, k, m);
    }
  }

  /** Position i holds the pivot: nothing before it is greater, nothing after it is smaller. */
  ghost predicate Pivoted<T>(cmp: (T, T) -> int, s: seq<T>, g: Segment, i: int) {
    && 0 <= g.lo <= i < g.hi <= |s|
    && (forall x :: g.lo <= x < i ==> cmp(s[x], s[i]) <= 0)
    && (forall x :: i < x < g.hi ==> cmp(s[x], s[i]) >= 0)
  }

  /** Once the pivot is in place the two sides can be sorted separately. */
  lemma SplitRanked<T(!new)>(cmp: (T, T) -> int, s: seq<T>, max: int, stack: seq<Segment>, g: Segment, i: int,
                             segs: seq<Segment>)
    requires Comparator(cmp) && max <= |s| && Ranked(cmp, s, max, stack + [g]) && Pivoted(cmp, s, g, i)
    requires forall k :: 0 <= k < |stack| ==> stack[k] in segs
    requires i - g.lo > 1 ==> Segment(g.lo, i) in segs
    requires g.hi - i > 2 ==> Segment(i + 1, g.hi) in segs
    ensures Ranked(cmp, s, max, segs)
  {
    forall x, y | 0 <= x < y < max ensures RankedAt(cmp, s, segs, x, y) {
      assert RankedAt(cmp, s, stack + [g], x, y);
      if cmp(s[x], s[y]) > 0 {
        var k :| Together(stack + [g], k, x, y);
        var h;
        if k < |stack| {
          h := stack[k];
        } else {
          assert CompareAt(cmp, s[x], s[i], s[y]) && CompareAt(cmp, s[y], s[i], s[y]);
          assert CompareAt(cmp, s[x], s[y], s[i]) && CompareAt(cmp, s[i], s[y], s[x]);
          h := if y < i then Segment(g.lo, i) else Segment(i + 1, g.hi);
        }
        var m :| 0 <= m < |segs| && segs[m] == h;
        assert Together(segs, m, x, y);
      }
    }
  }

  // ---- the code ----

  /** Only the first max elements have been moved about. */
  ghost predicate Rearranged<T>(s: seq<T>, t: seq<T>, max: int) {
    |s| == |t| && multiset(s) == multiset(t) && forall x :: 0 <= x < |s| && max <= x ==> s[x] == t[x]
  }

  ghost predicate Known<T>(cmp: (T, T) -> int, s: seq<T>, max: int, segs: seq<Segment>) {
    (0 <= max <= |s| && Tidy(max, segs) && Ranked(cmp, s, max, segs)) <==> true
  }

  method Exchange<T>(a: array<T>, i: int, j: int, ghost cmp: (T, T) -> int, ghost max: int, ghost segs: seq<Segment>,
                     ghost k: int)
    requires Known(cmp, a[..], max, segs) && Together(segs, k, i, j)
    requires 0 <= i < max && 0 <= j < max
    modifies a
    ensures a[..] == Exchanged(old(a[..]), i, j) && Rearranged(old(a[..]), a[..], max) && Known(cmp, a[..], max, segs)
  {
    ExchangeRanked(cmp, a[..], max, segs, k, i, j);
    a[i], a[j] := a[j], a[i];
    assert a[..] == Exchanged(old(a[..]), i, j);
  }

  /** Nothing from lo up to i is greater than the pivot, nothing after j is smaller. */
  ghost predicate Parted<T>(cmp: (T, T) -> int, s: seq<T>, pivot: T, g: Segment, i: int, j: int) {
    && 0 <= g.lo < i <= j + 1 <= g.hi <= |s| && s[g.lo] == pivot
    && (forall x :: g.lo < x < i ==> cmp(s[x], pivot) <= 0)
    && (forall x :: j < x < g.hi ==> cmp(s[x], pivot) >= 0)
  }

  method ScanUp<T>(cmp: (T, T) -> int, a: array<T>, start: int, from: int, j: int, ghost pivot: T, ghost g: Segment)
    returns (i: int)
    requires g.lo == start && Parted(cmp, a[..], pivot, g, from, j)
    ensures Parted(cmp, a[..], pivot, g, i, j) && from <= i && (i <= j ==> cmp(a[i], pivot) > 0)
  {
    i := from;
    while i <= j && cmp(a[i], a[start]) <= 0
      invariant from <= i <= j + 1 && Parted(cmp, a[..], pivot, g, i, j)
    {
      i := i + 1;
    }
  }

  method ScanDown<T>(cmp: (T, T) -> int, a: array<T>, start: int, i: int, from: int, ghost pivot: T, ghost g: Segment)
    returns (j: int)
    requires g.lo == start && Parted(cmp, a[..], pivot, g, i, from)
    ensures Parted(cmp, a[..], pivot, g, i, j) && j <= from && (i <= j ==> cmp(a[j], pivot) < 0)
  {
    j := from;
    while i <= j && cmp(a[j], a[start]) >= 0
      invariant i <= j + 1 && j <= from && Parted(cmp, a[..], pivot, g, i, j)
    {
      j := j - 1;
    }
  }

  /** A greater element at i and a smaller one at j change places. */
  lemma SwapParted<T>(cmp: (T, T) -> int, s: seq<T>, pivot: T, g: Segment, i: int, j: int)
    requires Parted(cmp, s, pivot, g, i, j) && i < j && cmp(s[i], pivot) > 0 && cmp(s[j], pivot) < 0
    ensures var t := Exchanged(s, i, j);
            && Parted(cmp, t, pivot, g, i, j) && Parted(cmp, t, pivot, g, i + 1, j)
                && Parted(cmp, t, pivot, g, i + 1, j - 1)
            && cmp(t[i], pivot) < 0
  {
    var t := Exchanged(s, i, j);
    assert forall x :: 0 <= x < |t| && x != i && x != j ==> t[x] == s[x];
  }

  /** Either i and j have met, and the pivot is there, or the elements between them are still unknown. */
  ghost predicate Between<T>(cmp: (T, T) -> int, s: seq<T>, pivot: T, g: Segment, i: int, j: int) {
    (0 <= g.lo <= i <= j < g.hi <= |s| && if i == j then Pivoted(cmp, s, g, i) else Parted(cmp, s, pivot, g, i, j))
        <==> true
  }

  /** One turn of the loop over _i_ and _j_. The pivot is at `start`. */
  method Approach<T(!new)>(cmp: (T, T) -> int, a: array<T>, start: int, i0: int, j0: int,
                           ghost pivot: T, ghost max: int, ghost segs: seq<Segment>, ghost k: int)
    returns (i: int, j: int)
    requires Comparator(cmp) && Known(cmp, a[..], max, segs)
    requires 0 <= k < |segs| && segs[k].lo == start && i0 < j0 && Between(cmp, a[..], pivot, segs[k], i0, j0)
    modifies a
    ensures Known(cmp, a[..], max, segs) && Rearranged(old(a[..]), a[..], max)
    ensures Between(cmp, a[..], pivot, segs[k], i, j) && start <= i <= j < segs[k].hi
    ensures j - i < j0 - i0 || (j - i == j0 - i0 && cmp(a[i], pivot) <= 0 < old(cmp(a[i0], pivot)))
  {
    assert SegmentAt(max, segs, k);
    ghost var g := segs[k];
    j := j0;
    i := ScanUp(cmp, a, start, i0, j, pivot, g);
    if i <= j {
      j := ScanDown(cmp, a, start, i, j, pivot, g);
    }
    if i > j {
      PivotLast(cmp, a[..], pivot, g, i, j);
      assert Together(segs, k, j, start);
      Exchange(a, j, start, cmp, max, segs, k);
      i := j;
    } else {
      i, j := ExchangeBoth(cmp, a, i, j, pivot, max, segs, k);
    }
  }

  /** A greater element at i and a smaller one at j change places, and the indices move on. */
  method ExchangeBoth<T(!new)>(cmp: (T, T) -> int, a: array<T>, i0: int, j0: int,
                               ghost pivot: T, ghost max: int, ghost segs: seq<Segment>, ghost k: int)
    returns (i: int, j: int)
    requires Comparator(cmp) && Known(cmp, a[..], max, segs) && 0 <= k < |segs| && SegmentAt(max, segs, k)
    requires Parted(cmp, a[..], pivot, segs[k], i0, j0) && i0 < j0 && cmp(a[i0], pivot) > 0 > cmp(a[j0], pivot)
    modifies a
    ensures Known(cmp, a[..], max, segs) && Rearranged(old(a[..]), a[..], max)
    ensures Between(cmp, a[..], pivot, segs[k], i, j) && i0 <= i <= j <= j0
    ensures j - i < j0 - i0 || (i == i0 && j == j0 && cmp(a[i], pivot) <= 0)
  {
    i, j := i0, j0;
    SwapParted(cmp, a[..], pivot, segs[k], i, j);
    assert Together(segs, k, i, j);
    Exchange(a, i, j, cmp, max, segs, k);
    if i + 2 < j {
      i, j := i + 1, j - 1;
    } else if i + 1 < j {
      i := i + 1;
    }
  }

  method Partition<T(!new)>(cmp: (T, T) -> int, a: array<T>, start: int, end: int, ghost max: int,
                            ghost segs: seq<Segment>, ghost k: int)
    returns (i: int)
    requires Comparator(cmp) && Known(cmp, a[..], max, segs)
    requires 0 <= k < |segs| && segs[k] == Segment(start, end) && end - start > 2
    modifies a
    ensures Known(cmp, a[..], max, segs) && Rearranged(old(a[..]), a[..], max)
    ensures Pivoted(cmp, a[..], Segment(start, end), i)
  {
    assert SegmentAt(max, segs, k);
    ghost var pivot := a[start];
    i := start + 1;
    var j := end - 1;
    while i < j
      invariant Known(cmp, a[..], max, segs) && Rearranged(old(a[..]), a[..], max)
      invariant Between(cmp, a[..], pivot, segs[k], i, j) && start <= i <= j < end
      decreases j - i, if cmp(a[i], pivot) > 0 then 1 else 0
    {
      i, j := Approach(cmp, a, start, i, j, pivot, max, segs, k);
    }
  }

  /** When the two indices have crossed, the pivot belongs at j. */
  lemma PivotLast<T(!new)>(cmp: (T, T) -> int, s: seq<T>, pivot: T, g: Segment, i: int, j: int)
    requires Comparator(cmp) && Parted(cmp, s, pivot, g, i, j) && i == j + 1
    ensures Pivoted(cmp, Exchanged(s, j, g.lo), g, j)
  {
    var t := Exchanged(s, j, g.lo);
    assert CompareAt(cmp, pivot, pivot, pivot);
    forall x | g.lo <= x < j ensures cmp(t[x], t[j]) <= 0 {
      assert t[x] == if x == g.lo then s[j] else s[x];
    }
  }

  /** The stack arrays hold these segments. */
  ghost predicate Holds(starts: seq<int>, ends: seq<int>, stack: seq<Segment>) {
    (&& |stack| <= |starts| && |stack| <= |ends|
     && forall k :: 0 <= k < |stack| ==> starts[k] == stack[k].lo && ends[k] == stack[k].hi) <==> true
  }

  /** The stack and the segment to go on with, once the pivot of g is at i. */
  ghost function Next(stack: seq<Segment>, g: Segment, i: int): (seq<Segment>, Segment) {
    var left, right := Segment(g.lo, i), Segment(i + 1, g.hi);
    if i - g.lo > 1 && g.hi - i > 1 then
      if Size(left) < Size(right) then (stack + [right], left) else (stack + [left], right)
    else if i - g.lo > 1 then (stack, left)
    else (stack, right)
  }

  lemma NextKnown<T(!new)>(cmp: (T, T) -> int, s: seq<T>, max: int, stack: seq<Segment>, g: Segment, i: int)
    requires Comparator(cmp) && Known(cmp, s, max, stack + [g]) && Pivoted(cmp, s, g, i) && Size(g) > 2
    ensures var (rest, h) := Next(stack, g, i); Known(cmp, s, max, rest + [h])
  {
    var (rest, h) := Next(stack, g, i);
    var segs := rest + [h];
    if |rest| > |stack| {
      TidySplit(max, stack, g, rest[|stack|], h);
    } else {
      TidyShrink(max, stack, g, h);
    }
    forall k | 0 <= k < |stack| ensures stack[k] in segs { assert segs[k] == stack[k]; }
    assert segs[|rest|] == h && (|rest| > |stack| ==> segs[|stack|] == rest[|stack|]);
    SplitRanked(cmp, s, max, stack, g, i, segs);
  }

  lemma NextWeighs(stack: seq<Segment>, g: Segment, i: int)
    requires g.lo <= i < g.hi && Size(g) > 2
    ensures var (rest, h) := Next(stack, g, i); Size(h) < Size(g) && Weight(rest + [h]) <= Weight(stack + [g])
  {
    var (rest, h) := Next(stack, g, i);
    WeightPush(stack, g);
    WeightPush(rest, h);
    if |rest| > |stack| {
      WeightPush(stack, rest[|stack|]);
    }
  }

  lemma RoomToPush<T>(cmp: (T, T) -> int, s: seq<T>, max: int, stack: seq<Segment>, g: Segment, slots: nat)
    requires Known(cmp, s, max, stack + [g]) && Size(g) > 2 && max <= Power(slots)
    ensures |stack| + 1 < slots
  {
    assert SegmentAt(max, stack + [g], |stack|);
    Room(max, Size(g), |stack|, slots);
  }

  method Push(starts: array<int>, ends: array<int>, stacki: int, lo: int, hi: int, ghost stack: seq<Segment>)
    requires starts != ends && stacki == |stack| < starts.Length && stacki < ends.Length
    requires Holds(starts[..], ends[..], stack)
    modifies starts, ends
    ensures Holds(starts[..], ends[..], stack + [Segment(lo, hi)])
  {
    starts[stacki], ends[stacki] := lo, hi;
  }

  /** One turn of `while (_end_ - _start_ > 2)`: partition, stack the larger part, go on with the smaller. */
  method Narrow<T(!new)>(cmp: (T, T) -> int, a: array<T>, max: int, starts: array<int>, ends: array<int>,
                         start0: int, end0: int, stacki0: int, ghost stack0: seq<Segment>)
    returns (start: int, end: int, stacki: int, ghost stack: seq<Segment>)
    requires Comparator(cmp) && starts.Length == ends.Length && max <= Power(starts.Length) && starts != ends
    requires a as object != starts && a as object != ends
    requires Holds(starts[..], ends[..], stack0) && stacki0 == |stack0| && end0 - start0 > 2
    requires Known(cmp, a[..], max, stack0 + [Segment(start0, end0)])
    modifies a, starts, ends
    ensures Holds(starts[..], ends[..], stack) && stacki == |stack|
    ensures Known(cmp, a[..], max, stack + [Segment(start, end)]) && Rearranged(old(a[..]), a[..], max)
    ensures end - start < end0 - start0
    ensures Weight(stack + [Segment(start, end)]) <= Weight(stack0 + [Segment(start0, end0)])
  {
    start, end, stacki := start0, end0, stacki0;
    ghost var g := Segment(start, end);
    assert |stack0| + 1 < starts.Length by { RoomToPush(cmp, a[..], max, stack0, g, starts.Length); }
    var i := Partition(cmp, a, start, end, max, stack0 + [g], |stack0|);
    NextKnown(cmp, a[..], max, stack0, g, i);
    NextWeighs(stack0, g, i);
    stack := Next(stack0, g, i).0;
    if i - start > 1 && end - i > 1 {
      if i - start < end - i - 1 {
        Push(starts, ends, stacki, i + 1, end, stack0);
        stacki, end := stacki + 1, i;
      } else {
        Push(starts, ends, stacki, start, i, stack0);
        stacki, start := stacki + 1, i + 1;
      }
    } else if i - start > 1 {
      end := i;
    } else {
      start := i + 1;
    }
  }

  /** A segment of fewer than two elements, or of two in order, is done. */
  lemma DropKnown<T(!new)>(cmp: (T, T) -> int, s: seq<T>, max: int, stack: seq<Segment>, g: Segment)
    requires Known(cmp, s, max, stack + [g])
    requires Size(g) < 2 || (Size(g) == 2 && 0 <= g.lo && g.hi <= |s| && cmp(s[g.lo], s[g.hi - 1]) <= 0)
    ensures Known(cmp, s, max, stack)
  {
    var segs := stack + [g];
    forall k ensures SegmentAt(max, stack, k) { assert SegmentAt(max, segs, k); }
    forall k, l ensures ApartAt(stack, k, l) { assert ApartAt(segs, k, l); }
    forall x, y | 0 <= x < y < max ensures RankedAt(cmp, s, stack, x, y) {
      assert RankedAt(cmp, s, segs, x, y);
      if cmp(s[x], s[y]) > 0 {
        var k :| Together(segs, k, x, y);
        assert Together(stack, k, x, y);
      }
    }
  }

  ghost predicate Sorted<T>(cmp: (T, T) -> int, s: seq<T>) {
    forall x, y :: 0 <= x < y < |s| ==> cmp(s[x], s[y]) <= 0
  }

  lemma FirstKnown<T>(cmp: (T, T) -> int, s: seq<T>, max: int)
    requires 0 <= max <= |s|
    ensures Known(cmp, s, max, [Segment(0, max)])
  {
    var segs := [Segment(0, max)];
    forall x, y | 0 <= x < y < max ensures RankedAt(cmp, s, segs, x, y) { assert Together(segs, 0, x, y); }
  }

  lemma EndsSorted<T>(cmp: (T, T) -> int, t: seq<T>, max: int)
    requires Known(cmp, t, max, [])
    ensures Sorted(cmp, t[..max])
  {
    forall x, y | 0 <= x < y < max ensures cmp(t[x], t[y]) <= 0 { assert RankedAt(cmp, t, [], x, y); }
  }

  lemma EndsPermuted<T>(s: seq<T>, t: seq<T>, max: int)
    requires Rearranged(s, t, max) && 0 <= max <= |s|
    ensures multiset(t[..max]) == multiset(s[..max]) && t[max..] == s[max..]
  {
    assert t[max..] == s[max..];
    assert multiset(s) - multiset(s[max..]) == multiset(s[..max]) by { assert s == s[..max] + s[max..]; }
    assert multiset(t) - multiset(t[max..]) == multiset(t[..max]) by { assert t == t[..max] + t[max..]; }
  }

  /** The last two elements of a segment are compared directly. */
  method SortPair<T(!new)>(cmp: (T, T) -> int, a: array<T>, start: int, end: int, ghost max: int,
                           ghost segs: seq<Segment>, ghost k: int)
    requires Comparator(cmp) && Known(cmp, a[..], max, segs)
    requires 0 <= k < |segs| && segs[k] == Segment(start, end) && end - start == 2
    modifies a
    ensures Known(cmp, a[..], max, segs) && Rearranged(old(a[..]), a[..], max)
    ensures 0 <= start && end <= a.Length && cmp(a[start], a[end - 1]) <= 0
  {
    assert SegmentAt(max, segs, k);
    if cmp(a[start], a[end - 1]) > 0 {
      assert CompareAt(cmp, a[end - 1], a[start], a[start]);
      assert Together(segs, k, start, end - 1);
      Exchange(a, start, end - 1, cmp, max, segs, k);
    }
  }

  /** One turn of `while (_stacki_ > 0)`: the topmost segment gives way to smaller ones. */
  method Pop<T(!new)>(cmp: (T, T) -> int, a: array<T>, max: int, starts: array<int>, ends: array<int>, stacki0: int,
                      ghost stack0: seq<Segment>)
    returns (stacki: int, ghost stack: seq<Segment>)
    requires Comparator(cmp) && starts.Length == ends.Length && max <= Power(starts.Length) && starts != ends
    requires a as object != starts && a as object != ends
    requires Holds(starts[..], ends[..], stack0) && stacki0 == |stack0| > 0 && Known(cmp, a[..], max, stack0)
    modifies a, starts, ends
    ensures Holds(starts[..], ends[..], stack) && stacki == |stack|
    ensures Known(cmp, a[..], max, stack) && Rearranged(old(a[..]), a[..], max) && 0 <= Weight(stack) < Weight(stack0)
  {
    stacki := stacki0 - 1;
    var start, end := starts[stacki], ends[stacki];
    stack := stack0[..stacki];
    assert stack0 == stack + [Segment(start, end)];
    while end - start > 2
      invariant Holds(starts[..], ends[..], stack) && stacki == |stack|
      invariant Known(cmp, a[..], max, stack + [Segment(start, end)]) && Rearranged(old(a[..]), a[..], max)
      invariant Weight(stack + [Segment(start, end)]) <= Weight(stack0)
    {
      start, end, stacki, stack := Narrow(cmp, a, max, starts, ends, start, end, stacki, stack);
    }
    ghost var g := Segment(start, end);
    assert SegmentAt(max, stack + [g], |stack|);
    if end - start == 2 {
      SortPair(cmp, a, start, end, max, stack + [g], |stack|);
    }
    DropKnown(cmp, a[..], max, stack, g);
    WeightPush(stack, g);
    WeightNonnegative(max, stack);
  }

  method SortWith<T(!new)>(cmp: (T, T) -> int, a: array<T>, max: int, starts: array<int>, ends: array<int>)
    requires Comparator(cmp) && starts.Length == ends.Length > 0 && max <= Power(starts.Length) && starts != ends
    requires a as object != starts && a as object != ends && 0 <= max <= a.Length
    modifies a, starts, ends
    ensures Known(cmp, a[..], max, []) && Rearranged(old(a[..]), a[..], max)
  {
    starts[0], ends[0] := 0, max;
    var stacki := 1;
    ghost var stack := [Segment(0, max)];
    FirstKnown(cmp, a[..], max);
    while stacki > 0
      invariant Holds(starts[..], ends[..], stack) && stacki == |stack|
      invariant Known(cmp, a[..], max, stack) && Rearranged(old(a[..]), a[..], max)
      decreases Weight(stack)
    {
      stacki, stack := Pop(cmp, a, max, starts, ends, stacki, stack);
    }
    assert stack == [];
  }

  /** The first max elements end up in order, and are the elements that were there. */
  method Sort<T(!new)>(cmp: (T, T) -> int, a: array<T>, max: int)
    requires Comparator(cmp) && 0 <= max <= a.Length && max <= Power(SLOTS)
    modifies a
    ensures Sorted(cmp, a[..max]) && multiset(a[..max]) == multiset(old(a[..max]))
    ensures a[max..] == old(a[max..])
  {
    var starts, ends := new int[SLOTS], new int[SLOTS];
    SortWith(cmp, a, max, starts, ends);
    EndsSorted(cmp, a[..], max);
    EndsPermuted(old(a[..]), a[..], max);
    assert a[..][..max] == a[..max] && old(a[..])[..max] == old(a[..max]);
  }
}
