/**
 SGLIB___BIN_TREE_MAP_ON_ELEMENTS of webserver/sglib.h: a traversal without recursion that keeps the
 path to the current node in arrays of 128 slots. The command run at an element may destroy it.
 */
module TreeWalk {
  import opened RedBlackHeap
  import opened RedBlack
  import opened Powers

  const MAX_TREE_DEEP: nat := 128

  // ---- the recursive orders ----

  /** 0: a node before, 1: between, 2: after its two subtrees. */
  function Visit(order: int, s: Shape): seq<Cell> {
    if s.Leaf? then []
    else if order == 0 then [s.cell] + Visit(order, s.left) + Visit(order, s.right)
    else if order == 1 then Visit(order, s.left) + [s.cell] + Visit(order, s.right)
    else Visit(order, s.left) + Visit(order, s.right) + [s.cell]
  }

  function Max(x: int, y: int): int {
    if x < y then y else x
  }

  function Height(s: Shape): nat {
    if s.Leaf? then 0 else 1 + Max(Height(s.left), Height(s.right))
  }

  // ---- the path ----

  /** One slot of the path: a node, how often it was passed, and its right subtree if still to be entered. */
  datatype Frame = Frame(cell: Cell, pass: int, right: Cell?, rest: Shape)

  ghost function Ahead(frames: seq<Frame>): set<Cell> {
    if frames == [] then {} else Ahead(frames[..|frames| - 1]) + Cells(frames[|frames| - 1].rest)
  }

  /** The node on top can be destroyed without harm to what is still ahead; likewise the others in their turn. */
  ghost predicate Ready(frames: seq<Frame>, all: set<Cell>)
    reads Ahead(frames)
  {
    frames == [] ||
    var rest, f := frames[..|frames| - 1], frames[|frames| - 1];
    && Ready(rest, all) && Owns(f.right, f.rest) && Cells(f.rest) !! Ahead(rest)
    && f.cell in all && Cells(f.rest) <= all && f.cell !in Ahead(rest) && f.cell !in Cells(f.rest)
    && (f.pass == 0 || (f.pass == 1 && f.rest.Leaf?))
  }

  /** What a slot still contributes. */
  function FrameRest(order: int, f: Frame): seq<Cell> {
    if order == 0 then Visit(order, f.rest)
    else if order == 1 then (if f.pass == 0 then [f.cell] else []) + Visit(order, f.rest)
    else Visit(order, f.rest) + [f.cell]
  }

  function FramesRest(order: int, frames: seq<Frame>): seq<Cell> {
    if frames == [] then []
    else FrameRest(order, frames[|frames| - 1]) + FramesRest(order, frames[..|frames| - 1])
  }

  /** Some subtree still ahead reaches too deep. */
  predicate FramesDeep(frames: seq<Frame>) {
    frames != [] && (|frames| + Height(frames[|frames| - 1].rest) >= MAX_TREE_DEEP
        || FramesDeep(frames[..|frames| - 1]))
  }

  predicate Deep(s: Shape, frames: seq<Frame>) {
    |frames| + Height(s) >= MAX_TREE_DEEP || FramesDeep(frames)
  }

  /** The three arrays hold the frames. */
  ghost predicate Stored(path: seq<Cell?>, right: seq<Cell?>, pass: seq<int>, frames: seq<Frame>) {
    (|frames| <= MAX_TREE_DEEP && |path| == |right| == |pass| == MAX_TREE_DEEP
     && (forall k :: 0 <= k < |frames| ==> path[k] == frames[k].cell)
     && forall k :: 0 <= k < |frames| ==> right[k] == frames[k].right && pass[k] == frames[k].pass) <==> true
  }

  function Size(s: Shape): nat {
    if s.Leaf? then 0 else 1 + Size(s.left) + Size(s.right)
  }

  function SizeAhead(frames: seq<Frame>): nat {
    if frames == [] then 0 else Size(frames[|frames| - 1].rest) + SizeAhead(frames[..|frames| - 1])
  }

  /** What is still to come when the subtree s is next. */
  function ToCome(order: int, s: Shape, frames: seq<Frame>): seq<Cell> {
    Visit(order, s) + FramesRest(order, frames)
  }

  lemma Last(frames: seq<Frame>, n: int)
    requires n == |frames| - 1 >= 0
    ensures frames == frames[..n] + [frames[n]]
  {
  }

  lemma Top(frames: seq<Frame>, f: Frame)
    ensures (frames + [f])[..|frames|] == frames
  {
  }

  // ---- the code ----

  ghost predicate Safe(frames: seq<Frame>, all: set<Cell>)
    reads Ahead(frames)
  {
    Ready(frames, all) <==> true
  }

  /** The subtree s is next, and after it what the frames hold. */
  ghost predicate Standing(cn: Cell?, s: Shape, frames: seq<Frame>, all: set<Cell>)
    reads Cells(s), Ahead(frames)
  {
    (Owns(cn, s) && Safe(frames, all) && Cells(s) <= all && Cells(s) !! Ahead(frames)) <==> true
  }

  /** From `s0, frames0` on, exactly `visited` has been visited. */
  ghost predicate Progress(order: int, visited: seq<Cell>, s: Shape, frames: seq<Frame>, s0: Shape,
                           frames0: seq<Frame>) {
    (visited + ToCome(order, s, frames) == ToCome(order, s0, frames0) && (Deep(s, frames) <==> Deep(s0, frames0)))
        <==> true
  }

  /** Whatever is done at an element: its fields are worthless afterwards, but nothing else is touched. */
  method Command(c: Cell, ghost o: Cell?, ghost so: Shape, ghost frames: seq<Frame>, ghost all: set<Cell>)
    requires Owns(o, so) && c !in Cells(so) && Safe(frames, all) && c !in Ahead(frames)
    modifies c
    ensures Owns(o, so) && Safe(frames, all)
  {
    c.left, c.right, c.red := *, *, *;
  }

  /** Fill one slot of the three arrays. */
  method Put(path: array<Cell?>, right: array<Cell?>, pass: array<int>, pathi: int, ghost f: Frame,
             c: Cell, r: Cell?, p: int, ghost frames: seq<Frame>, ghost all: set<Cell>, ghost o: Cell?, ghost so: Shape)
    requires path != right && Stored(path[..], right[..], pass[..], frames) && pathi == |frames| < MAX_TREE_DEEP
    requires f.cell == c && f.right == r && f.pass == p && Owns(o, so) && Safe(frames + [f], all)
    modifies path, right, pass
    ensures Stored(path[..], right[..], pass[..], frames + [f]) && Owns(o, so) && Safe(frames + [f], all)
  {
    path[pathi], right[pathi], pass[pathi] := c, r, p;
  }

  /** One turn of the push-down loop: c goes on the path, and its left subtree is next. */
  method Enter(order: int, c: Cell, path: array<Cell?>, right: array<Cell?>, pass: array<int>, pathi: int,
               ghost s: Shape, ghost frames: seq<Frame>, ghost all: set<Cell>)
    returns (cn: Cell?, visited: seq<Cell>, ghost f: Frame)
    requires path != right && Stored(path[..], right[..], pass[..], frames) && pathi == |frames| < MAX_TREE_DEEP
    requires Standing(c, s, frames, all)
    modifies path, right, pass, c
    ensures s.Branch? && f == Frame(s.cell, 0, f.right, s.right)
    ensures Stored(path[..], right[..], pass[..], frames + [f]) && Standing(cn, s.left, frames + [f], all)
    ensures visited == if order == 0 then [s.cell] else []
  {
    Sides(c, s, L);
    f := Frame(c, 0, c.right, s.right);
    Top(frames, f);
    cn := c.left;
    Put(path, right, pass, pathi, f, c, c.right, 0, frames, all, cn, s.left);
    visited := [];
    if order == 0 {
      visited := [c];
      Command(c, cn, s.left, frames + [f], all);
    }
  }

  /** Entering a node changes neither what is to come nor how deep it reaches. */
  lemma EnterKeeps(order: int, s: Shape, frames: seq<Frame>, f: Frame)
    requires s.Branch? && f == Frame(s.cell, 0, f.right, s.right) && 0 <= order <= 2
    ensures (if order == 0 then [s.cell] else []) + ToCome(order, s.left, frames + [f]) == ToCome(order, s, frames)
    ensures Deep(s.left, frames + [f]) <==> Deep(s, frames)
    ensures Size(s.left) + SizeAhead(frames + [f]) == Size(s) + SizeAhead(frames) - 1
  {
    TopRest(order, frames, f);
    EnterVisits(order, s, f, FramesRest(order, frames));
  }

  /** What one more frame adds. */
  lemma TopRest(order: int, frames: seq<Frame>, f: Frame)
    ensures FramesRest(order, frames + [f]) == FrameRest(order, f) + FramesRest(order, frames)
    ensures FramesDeep(frames + [f]) <==> |frames| + 1 + Height(f.rest) >= MAX_TREE_DEEP || FramesDeep(frames)
    ensures SizeAhead(frames + [f]) == Size(f.rest) + SizeAhead(frames)
  {
    Top(frames, f);
  }

  lemma EnterVisits(order: int, s: Shape, f: Frame, rest: seq<Cell>)
    requires s.Branch? && f == Frame(s.cell, 0, f.right, s.right) && 0 <= order <= 2
    ensures (if order == 0 then [s.cell] else []) + (Visit(order, s.left) + (FrameRest(order, f) + rest))
         == Visit(order, s) + rest
  {
  }

  lemma EnterProgress(order: int, visited: seq<Cell>, s: Shape, frames: seq<Frame>, f: Frame, s0: Shape,
                      frames0: seq<Frame>)
    requires Progress(order, visited, s, frames, s0, frames0)
    requires s.Branch? && f == Frame(s.cell, 0, f.right, s.right) && 0 <= order <= 2
    ensures var now := if order == 0 then [s.cell] else [];
            Progress(order, visited + now, s.left, frames + [f], s0, frames0)
    ensures Size(s.left) + SizeAhead(frames + [f]) == Size(s) + SizeAhead(frames) - 1
  {
    EnterKeeps(order, s, frames, f);
    var now := if order == 0 then [s.cell] else [];
    Chain(visited, now, ToCome(order, s.left, frames + [f]), ToCome(order, s, frames), ToCome(order, s0, frames0));
  }

  lemma Chain<T>(visited: seq<T>, now: seq<T>, later: seq<T>, before: seq<T>, all: seq<T>)
    requires now + later == before && visited + before == all
    ensures visited + now + later == all
  {
    assert visited + now + later == visited + (now + later);
  }

  /** `while(_cn_!=NULL)`: push down to the leftmost innermost element. */
  method Descend(order: int, cn0: Cell, path: array<Cell?>, right: array<Cell?>, pass: array<int>, pathi0: int,
                 ghost s0: Shape, ghost frames0: seq<Frame>, ghost all: set<Cell>)
    returns (ok: bool, pathi: int, visited: seq<Cell>, ghost frames: seq<Frame>)
    requires 0 <= order <= 2 && path != right
    requires Stored(path[..], right[..], pass[..], frames0) && pathi0 == |frames0| < MAX_TREE_DEEP
    requires Standing(cn0, s0, frames0, all)
    modifies path, right, pass, all
    ensures !ok ==> Deep(s0, frames0)
    ensures ok ==> Stored(path[..], right[..], pass[..], frames) && pathi == |frames|
    ensures ok ==> |frames0| < pathi < MAX_TREE_DEEP
    ensures ok ==> Standing(null, Leaf, frames, all) && Progress(order, visited, Leaf, frames, s0, frames0)
    ensures ok ==> SizeAhead(frames) < Size(s0) + SizeAhead(frames0)
  {
    ghost var s := s0;
    var cn: Cell? := cn0;
    pathi, visited, frames := pathi0, [], frames0;
    assert [] + ToCome(order, s, frames) == ToCome(order, s0, frames0);
    RepColour(cn, s);
    while cn != null
      invariant Stored(path[..], right[..], pass[..], frames) && pathi0 <= pathi == |frames| < MAX_TREE_DEEP
      invariant Standing(cn, s, frames, all) && (pathi == pathi0 ==> cn == cn0)
      invariant Progress(order, visited, s, frames, s0, frames0)
      invariant Size(s) + SizeAhead(frames) + pathi == Size(s0) + SizeAhead(frames0) + pathi0
      decreases s
    {
      RepColour(cn, s);
      ghost var f;
      var now;
      cn, now, f := Enter(order, cn, path, right, pass, pathi, s, frames, all);
      EnterProgress(order, visited, s, frames, f, s0, frames0);
      if pathi + 1 >= MAX_TREE_DEEP {
        assert Deep(s, frames);
        return false, pathi + 1, visited + now, frames;
      }
      visited, pathi, s, frames := visited + now, pathi + 1, s.left, frames + [f];
    }
    RepColour(cn, s);
    ok := true;
  }

  /** Whether the command runs when the node of f is passed on the way up. */
  predicate RunsAt(order: int, pass: int, right: Cell?) {
    (order == 1 && pass == 0) || (order == 2 && (pass == 1 || right == null))
  }

  /** One turn of the do loop, up to its test. */
  method Pass(order: int, path: array<Cell?>, right: array<Cell?>, pass: array<int>, pathi: int,
              ghost rest: seq<Frame>, ghost f: Frame, ghost all: set<Cell>)
    returns (visited: seq<Cell>)
    requires path != right && Stored(path[..], right[..], pass[..], rest + [f]) && pathi == |rest|
             && Safe(rest + [f], all)
    modifies pass, all
    ensures Stored(path[..], right[..], pass[..], rest + [Passed(f)]) && Stored(path[..], right[..], pass[..], rest)
    ensures pathi < right.Length && right[pathi] == f.right && Safe(rest, all) && (f.right == null <==> f.rest.Leaf?)
    ensures Standing(f.right, f.rest, rest, all) && f.cell in all && f.cell !in Ahead(rest)
    ensures f.pass == 0 || (f.pass == 1 && f.rest.Leaf?)
    ensures visited == Now(order, f)
  {
    Top(rest, f);
    assert (rest + [f])[pathi] == f;
    visited := [];
    if RunsAt(order, pass[pathi], right[pathi]) {
      visited := [path[pathi]];
      Command(path[pathi], f.right, f.rest, rest, all);
    }
    pass[pathi] := pass[pathi] + 1;
    RepColour(f.right, f.rest);
  }

  lemma Pushed(order: int, rest: seq<Frame>, f: Frame)
    ensures FramesRest(order, rest + [f]) == FrameRest(order, f) + FramesRest(order, rest)
    ensures FramesDeep(rest + [f]) <==> (|rest| + 1 + Height(f.rest) >= MAX_TREE_DEEP || FramesDeep(rest))
    ensures SizeAhead(rest + [f]) == Size(f.rest) + SizeAhead(rest)
  {
    Top(rest, f);
  }

  function Now(order: int, f: Frame): seq<Cell> {
    if RunsAt(order, f.pass, f.right) then [f.cell] else []
  }

  function Passed(f: Frame): Frame {
    f.(pass := f.pass + 1)
  }

  function Turned(f: Frame): Frame {
    f.(pass := 1, right := null, rest := Leaf)
  }

  /** What a frame contributes comes out when it is passed, in its right subtree, or when it is passed again. */
  lemma FramePasses(order: int, f: Frame)
    requires 0 <= order <= 2 && (f.pass == 0 || (f.pass == 1 && f.rest.Leaf?)) && (f.right == null <==> f.rest.Leaf?)
    ensures f.right == null ==> FrameRest(order, f) == Now(order, f)
    ensures f.right != null ==>
              FrameRest(order, f) == Now(order, f) + Visit(order, f.rest) + FrameRest(order, Turned(f))
  {
    assert Visit(order, Leaf) == [];
  }

  /** A node without a right subtree ahead is left for good. */
  lemma PopProgress(order: int, visited: seq<Cell>, rest: seq<Frame>, f: Frame, frames0: seq<Frame>)
    requires Progress(order, visited, Leaf, rest + [f], Leaf, frames0)
    requires 0 <= order <= 2 && (f.pass == 0 || f.pass == 1) && f.right == null && f.rest.Leaf?
    requires |rest| + 1 < MAX_TREE_DEEP
    ensures Progress(order, visited + Now(order, f), Leaf, rest, Leaf, frames0)
            && SizeAhead(rest) == SizeAhead(rest + [f])
  {
    Pushed(order, rest, f);
    FramePasses(order, f);
    Same(order, rest);
    Same(order, rest + [f]);
    Chain(visited, Now(order, f), ToCome(order, Leaf, rest), ToCome(order, Leaf, rest + [f]),
        ToCome(order, Leaf, frames0));
  }

  lemma Same(order: int, frames: seq<Frame>)
    ensures ToCome(order, Leaf, frames) == FramesRest(order, frames)
    ensures |frames| < MAX_TREE_DEEP ==> (Deep(Leaf, frames) <==> FramesDeep(frames))
  {
    assert [] + FramesRest(order, frames) == FramesRest(order, frames);
  }

  /** A right subtree is entered, and its node stays on the path. */
  lemma TurnProgress(order: int, visited: seq<Cell>, rest: seq<Frame>, f: Frame, frames0: seq<Frame>)
    requires Progress(order, visited, Leaf, rest + [f], Leaf, frames0)
    requires 0 <= order <= 2 && f.pass == 0 && f.right != null && f.rest.Branch? && |rest| + 1 < MAX_TREE_DEEP
    ensures Progress(order, visited + Now(order, f), f.rest, rest + [Turned(f)], Leaf, frames0)
    ensures Size(f.rest) + SizeAhead(rest + [Turned(f)]) == SizeAhead(rest + [f])
  {
    Pushed(order, rest, f);
    Pushed(order, rest, Turned(f));
    FramePasses(order, f);
    Same(order, rest + [f]);
    Regroup(Now(order, f), Visit(order, f.rest), FrameRest(order, Turned(f)), FramesRest(order, rest));
    Chain(visited, Now(order, f), ToCome(order, f.rest, rest + [Turned(f)]), ToCome(order, Leaf, rest + [f]),
        ToCome(order, Leaf, frames0));
  }

  lemma Regroup<T>(a: seq<T>, b: seq<T>, c: seq<T>, d: seq<T>)
    ensures a + b + c + d == a + (b + (c + d))
  {
  }

  /** The node of f has just been passed and could be left for its right subtree. */
  ghost predicate Halted(path: seq<Cell?>, right: seq<Cell?>, pass: seq<int>, pathi: int, rest: seq<Frame>, f: Frame,
                         all: set<Cell>) {
    (&& Stored(path, right, pass, rest + [Passed(f)]) && 0 <= pathi == |rest| < |right| && right[pathi] == f.right
     && f.cell in all && f.cell !in Ahead(rest) && (f.right != null ==> f.pass == 0)) <==> true
  }

  method PassOnce(order: int, path: array<Cell?>, right: array<Cell?>, pass: array<int>, pathi: int,
                  visited0: seq<Cell>,
                  ghost rest: seq<Frame>, ghost f: Frame, ghost frames0: seq<Frame>, ghost all: set<Cell>)
    returns (visited: seq<Cell>)
    requires 0 <= order <= 2 && path != right && Stored(path[..], right[..], pass[..], rest + [f])
    requires pathi == |rest| < MAX_TREE_DEEP - 1
    requires Safe(rest + [f], all) && Progress(order, visited0, Leaf, rest + [f], Leaf, frames0)
    modifies pass, all
    ensures pathi < right.Length && right[pathi] == f.right
    ensures Stored(path[..], right[..], pass[..], rest) && Halted(path[..], right[..], pass[..], pathi, rest, f, all)
    ensures Safe(rest, all) && Standing(f.right, f.rest, rest, all)
    ensures f.right != null ==> Progress(order, visited, f.rest, rest + [Turned(f)], Leaf, frames0)
    ensures f.right != null ==> Size(f.rest) + SizeAhead(rest + [Turned(f)]) == SizeAhead(rest + [f])
    ensures f.right == null ==> Progress(order, visited, Leaf, rest, Leaf, frames0)
    ensures f.right == null ==> SizeAhead(rest) == SizeAhead(rest + [f])
  {
    var now := Pass(order, path, right, pass, pathi, rest, f, all);
    if f.right == null {
      PopProgress(order, visited0, rest, f, frames0);
    } else {
      TurnProgress(order, visited0, rest, f, frames0);
    }
    visited := visited0 + now;
  }

  /** The do loop: up to a node whose right subtree is still ahead, or to the root. */
  method PassUp(order: int, path: array<Cell?>, right: array<Cell?>, pass: array<int>, pathi0: int,
                ghost frames0: seq<Frame>, ghost all: set<Cell>)
    returns (pathi: int, visited: seq<Cell>, ghost rest: seq<Frame>, ghost f: Frame)
    requires 0 <= order <= 2 && path != right
    requires Stored(path[..], right[..], pass[..], frames0) && 0 < pathi0 == |frames0| < MAX_TREE_DEEP
             && Safe(frames0, all)
    modifies pass, all
    ensures 0 <= pathi < pathi0 && Halted(path[..], right[..], pass[..], pathi, rest, f, all)
    ensures Standing(f.right, f.rest, rest, all) && (pathi == 0 || f.right != null)
    ensures f.right != null ==> Progress(order, visited, f.rest, rest + [Turned(f)], Leaf, frames0)
    ensures f.right != null ==> Size(f.rest) + SizeAhead(rest + [Turned(f)]) <= SizeAhead(frames0)
    ensures f.right == null ==> Progress(order, visited, Leaf, rest, Leaf, frames0)
  {
    ghost var frames := frames0;
    pathi, visited := pathi0, [];
    Same(order, frames0);
    while true
      invariant Stored(path[..], right[..], pass[..], frames) && 0 < pathi == |frames| <= pathi0 && Safe(frames, all)
      invariant Progress(order, visited, Leaf, frames, Leaf, frames0) && SizeAhead(frames) <= SizeAhead(frames0)
      decreases pathi
    {
      pathi := pathi - 1;
      Last(frames, pathi);
      rest, f := frames[..pathi], frames[pathi];
      visited := PassOnce(order, path, right, pass, pathi, visited, rest, f, frames0, all);
      if pathi == 0 || right[pathi] != null {
        return;
      }
      frames := rest;
    }
  }

  /** The way up, and the step into the right subtree it ends with. */
  method Climb(order: int, path: array<Cell?>, right: array<Cell?>, pass: array<int>, pathi0: int,
               ghost frames0: seq<Frame>, ghost all: set<Cell>)
    returns (cn: Cell?, pathi: int, visited: seq<Cell>, ghost s: Shape, ghost frames: seq<Frame>)
    requires 0 <= order <= 2 && path != right
    requires Stored(path[..], right[..], pass[..], frames0) && 0 < pathi0 == |frames0| < MAX_TREE_DEEP
             && Safe(frames0, all)
    modifies right, pass, all
    ensures cn != null ==> Stored(path[..], right[..], pass[..], frames) && pathi == |frames| < MAX_TREE_DEEP
    ensures cn != null ==> Standing(cn, s, frames, all)
    ensures cn != null ==> Progress(order, visited, s, frames, Leaf, frames0)
    ensures cn != null ==> Size(s) + SizeAhead(frames) <= SizeAhead(frames0)
    ensures cn == null ==> Progress(order, visited, Leaf, [], Leaf, frames0)
  {
    ghost var rest, f;
    pathi, visited, rest, f := PassUp(order, path, right, pass, pathi0, frames0, all);
    cn := right[pathi];
    ClearRight(path, right, pass, pathi, rest, f, all);
    s, frames := f.rest, rest + [Turned(f)];
    pathi := pathi + 1;
  }

  /** The right subtree is taken off the path. */
  method ClearRight(path: array<Cell?>, right: array<Cell?>, pass: array<int>, pathi: int, ghost rest: seq<Frame>,
                    ghost f: Frame, ghost all: set<Cell>)
    requires path != right && Halted(path[..], right[..], pass[..], pathi, rest, f, all)
    requires Standing(f.right, f.rest, rest, all)
    modifies right
    ensures f.pass == 0 ==> Stored(path[..], right[..], pass[..], rest + [Turned(f)])
    ensures f.pass == 0 ==> Standing(f.right, f.rest, rest + [Turned(f)], all)
  {
    ghost var g := Passed(f);
    assert (rest + [g])[pathi] == g;
    right[pathi] := null;
    Top(rest, Turned(f));
  }

  /** Progress composes. */
  lemma ProgressThen(order: int, v: seq<Cell>, s: Shape, frames: seq<Frame>, w: seq<Cell>, s': Shape,
                     frames': seq<Frame>, s0: Shape, frames0: seq<Frame>)
    requires Progress(order, v, s, frames, s0, frames0) && Progress(order, w, s', frames', s, frames)
    ensures Progress(order, v + w, s', frames', s0, frames0)
  {
    Chain(v, w, ToCome(order, s', frames'), ToCome(order, s, frames), ToCome(order, s0, frames0));
  }

  /**
   The whole traversal: it stops at the assertion exactly on trees of 128 levels or more, and otherwise
   runs the command on every element once, in the recursive order, although each run destroys its element.
   */
  method MapOnElements(tree: Cell?, order: int, ghost s: Shape) returns (ok: bool, visited: seq<Cell>)
    requires Owns(tree, s) && 0 <= order <= 2
    modifies Cells(s)
    ensures ok <==> Height(s) < MAX_TREE_DEEP
    ensures ok ==> visited == Visit(order, s)
  {
    var path, right := new Cell?[MAX_TREE_DEEP], new Cell?[MAX_TREE_DEEP];
    var pass := new int[MAX_TREE_DEEP];
    var cn, pathi := tree, 0;
    ghost var sc, frames: seq<Frame> := s, [];
    visited := [];
    Start(tree, order, s);
    RepColour(tree, s);
    while cn != null
      invariant cn != null ==> Stored(path[..], right[..], pass[..], frames) && pathi == |frames| < MAX_TREE_DEEP
      invariant cn != null ==> Standing(cn, sc, frames, Cells(s)) && Progress(order, visited, sc, frames, s, [])
      invariant cn == null ==> Progress(order, visited, Leaf, [], s, [])
      decreases if cn != null then Size(sc) + SizeAhead(frames) + 1 else 0
    {
      var now;
      ghost var frames';
      ok, pathi, now, frames' := Descend(order, cn, path, right, pass, pathi, sc, frames, Cells(s));
      if !ok {
        Finish(order, visited, sc, frames, s);
        return;
      }
      ProgressThen(order, visited, sc, frames, now, Leaf, frames', s, []);
      visited := visited + now;
      cn, pathi, now, sc, frames := Climb(order, path, right, pass, pathi, frames', Cells(s));
      if cn == null {
        ProgressThen(order, visited, Leaf, frames', now, Leaf, [], s, []);
      } else {
        ProgressThen(order, visited, Leaf, frames', now, sc, frames, s, []);
      }
      visited := visited + now;
    }
    Finish(order, visited, Leaf, [], s);
    ok := true;
  }

  lemma Start(tree: Cell?, order: int, s: Shape)
    requires Owns(tree, s)
    ensures Standing(tree, s, [], Cells(s)) && Progress(order, [], s, [], s, [])
    ensures s.Leaf? ==> Progress(order, [], Leaf, [], s, [])
  {
    assert [] + ToCome(order, s, []) == ToCome(order, s, []);
  }

  lemma Finish(order: int, visited: seq<Cell>, sc: Shape, frames: seq<Frame>, s: Shape)
    requires Progress(order, visited, sc, frames, s, [])
    ensures Deep(sc, frames) <==> Height(s) >= MAX_TREE_DEEP
    ensures sc == Leaf && frames == [] ==> visited == Visit(order, s)
  {
    assert ToCome(order, s, []) == Visit(order, s);
  }

  // ---- on a red-black tree ----

  /** Inorder is the order of the tree. */
  lemma {:induction false} InOrderIsInOrder(s: Shape)
    ensures |Visit(1, s)| == |InOrder(Erase(s))|
    ensures forall k :: 0 <= k < |Visit(1, s)| ==> Visit(1, s)[k].addr == InOrder(Erase(s))[k]
  {
    if s.Branch? {
      InOrderIsInOrder(s.left);
      InOrderIsInOrder(s.right);
    }
  }

  /** At most every other node on a path is red. */
  lemma {:induction false} HeightBelow(s: Shape)
    requires Sound(Erase(s))
    ensures Height(s) <= 2 * BlackHeight(Erase(s)) + if IsRed(Erase(s)) then 1 else 0
  {
    if s.Branch? {
      HeightBelow(s.left);
      HeightBelow(s.right);
    }
  }

  /** A tree of that black height is at least full. */
  lemma {:induction false} SizeAbove(s: Shape)
    requires Balanced(Erase(s))
    ensures Power(BlackHeight(Erase(s))) <= Size(s) + 1
  {
    if s.Branch? {
      SizeAbove(s.left);
      SizeAbove(s.right);
    }
  }

  /** No red-black tree of fewer than 2^63 nodes is too deep. */
  lemma RedBlackFits(s: Shape)
    requires RedBlackTree(Erase(s)) && Size(s) < Power(63)
    ensures Height(s) < MAX_TREE_DEEP
  {
    HeightBelow(s);
    SizeAbove(s);
    var h := BlackHeight(Erase(s));
    if h > 63 {
      PowerGrows(63, h);
      assert false;
    }
  }
}
