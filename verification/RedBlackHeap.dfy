/**
 The red-black macros of webserver/sglib.h as they are: pointers relinked and colour bits flipped in
 place. Each routine is proved to turn the tree it is given into the tree the value-level function
 of `RedBlack` computes, using no other cells.
 */
module RedBlackHeap {
  import opened RedBlack

  /** A user structure with its two links and its colour bit. `addr` is its address. */
  class Cell {
    const addr: int
    var left: Cell?
    var right: Cell?
    var red: bool

    constructor (addr: int)
      ensures this.addr == addr && left == null && right == null && !red
    {
      this.addr, left, right, red := addr, null, null, false;
    }
  }

  /** The cells of a tree, in their positions. */
  datatype Shape = Leaf | Branch(cell: Cell, red: bool, left: Shape, right: Shape)

  ghost function Cells(s: Shape): set<Cell> {
    if s.Leaf? then {} else {s.cell} + Cells(s.left) + Cells(s.right)
  }

  ghost function Erase(s: Shape): Tree<int> {
    if s.Leaf? then Nil else Node(s.red, Erase(s.left), s.cell.addr, Erase(s.right))
  }

  lemma {:induction false} Live(s: Shape)
    ensures forall c :: c in Cells(s) ==> allocated(c)
  {
    if s.Branch? {
      Live(s.left);
      Live(s.right);
    }
  }

  /** root is the top of a proper tree of shape s: no cell occurs twice. */
  ghost predicate Rep(root: Cell?, s: Shape)
    reads Cells(s)
  {
    match s
    case Leaf => root == null
    case Branch(c, red, l, r) =>
      && root == c && c.red == red && Rep(c.left, l) && Rep(c.right, r)
      && c !in Cells(l) && c !in Cells(r) && Cells(l) !! Cells(r)
  }

  /** `Rep`, as one proposition. */
  ghost predicate Owns(root: Cell?, s: Shape)
    reads Cells(s)
  {
    Rep(root, s) <==> true
  }

  ghost function NearShape(s: Shape, d: Side): Shape
    requires s.Branch?
  {
    if d == L then s.left else s.right
  }

  ghost function FarShape(s: Shape, d: Side): Shape
    requires s.Branch?
  {
    if d == L then s.right else s.left
  }

  ghost function MakeShape(d: Side, c: Cell, red: bool, near: Shape, far: Shape): Shape {
    if d == L then Branch(c, red, near, far) else Branch(c, red, far, near)
  }

  function NearOf(c: Cell, d: Side): Cell?
    reads c
  {
    if d == L then c.left else c.right
  }

  function FarOf(c: Cell, d: Side): Cell?
    reads c
  {
    if d == L then c.right else c.left
  }

  /**
   Set both links and the colour of one cell, and with them the tree below it. Three other trees the
   caller may still need, o1, o2 and o3, are not touched.
   */
  method Link(c: Cell, d: Side, near: Cell?, far: Cell?, red: bool, ghost sn: Shape, ghost sf: Shape,
              ghost o1: Cell? := null, ghost s1: Shape := Leaf, ghost o2: Cell? := null, ghost s2: Shape := Leaf,
              ghost o3: Cell? := null, ghost s3: Shape := Leaf)
    requires Owns(near, sn) && Owns(far, sf) && Owns(o1, s1) && Owns(o2, s2) && Owns(o3, s3)
    requires c !in Cells(sn) && c !in Cells(sf) && Cells(sn) !! Cells(sf)
    requires c !in Cells(s1) && c !in Cells(s2) && c !in Cells(s3)
    modifies c
    ensures Owns(c, MakeShape(d, c, red, sn, sf)) && Cells(MakeShape(d, c, red, sn, sf)) == {c} + Cells(sn) + Cells(sf)
    ensures Owns(o1, s1) && Owns(o2, s2) && Owns(o3, s3)
  {
    if d == L {
      c.left, c.right, c.red := near, far, red;
    } else {
      c.left, c.right, c.red := far, near, red;
    }
    assert Owns(near, sn) && Owns(far, sf);
  }

  predicate RedCell(c: Cell?)
    reads c
  {
    c != null && c.red
  }

  /** Rep and Erase seen from one side. */
  lemma Sides(root: Cell?, s: Shape, d: Side)
    requires Owns(root, s) && s.Branch?
    ensures root == s.cell && root.red == s.red
    ensures Owns(NearOf(root, d), NearShape(s, d)) && Owns(FarOf(root, d), FarShape(s, d))
    ensures root !in Cells(NearShape(s, d)) && root !in Cells(FarShape(s, d))
    ensures Cells(NearShape(s, d)) !! Cells(FarShape(s, d))
    ensures Cells(s) == {root} + Cells(NearShape(s, d)) + Cells(FarShape(s, d))
    ensures Erase(s) == Make(d, s.red, Erase(NearShape(s, d)), root.addr, Erase(FarShape(s, d)))
  {
  }

  lemma RepColour(root: Cell?, s: Shape)
    requires Owns(root, s)
    ensures RedCell(root) <==> IsRed(Erase(s))
    ensures root == null <==> s.Leaf?
    ensures root == null <==> Erase(s).Nil?
  {
  }

  lemma EraseMake(d: Side, c: Cell, red: bool, near: Shape, far: Shape)
    ensures Erase(MakeShape(d, c, red, near, far)) == Make(d, red, Erase(near), c.addr, Erase(far))
  {
  }

  // ---- relinking ----

  /** Set the colour bit of the top cell. */
  method Paint(t: Cell, red: bool, ghost s: Shape, ghost o: Cell? := null, ghost so: Shape := Leaf)
    requires Owns(t, s) && Owns(o, so) && t !in Cells(so)
    modifies t
    ensures Owns(o, so)
    ensures s.Branch? && Owns(t, s.(red := red)) && Cells(s.(red := red)) == Cells(s)
  {
    Sides(t, s, L);
    Link(t, L, t.left, t.right, red, s.left, s.right, o, so);
  }

  /** b, the child of a on side d, takes the place of a; o1 and o2 are trees the caller still needs. */
  method Rotate(a: Cell, d: Side, redA: bool, redB: bool, ghost s: Shape,
                ghost o1: Cell? := null, ghost s1: Shape := Leaf, ghost o2: Cell? := null, ghost s2: Shape := Leaf)
    returns (b: Cell, ghost r: Shape)
    requires Owns(a, s) && NearOf(a, d) != null
    requires Owns(o1, s1) && Owns(o2, s2) && Cells(s1) !! Cells(s) && Cells(s2) !! Cells(s)
    modifies Cells(s)
    ensures s.Branch? && NearShape(s, d).Branch?
    ensures var sb := NearShape(s, d);
            r == MakeShape(d, sb.cell, redB, NearShape(sb, d), MakeShape(d, a, redA, FarShape(sb, d), FarShape(s, d)))
    ensures Owns(b, r) && Cells(r) == Cells(s) && Owns(o1, s1) && Owns(o2, s2)
  {
    Sides(a, s, d);
    ghost var sb, sar := NearShape(s, d), FarShape(s, d);
    b := NearOf(a, d);
    Sides(b, sb, d);
    ghost var sbl, sbr := NearShape(sb, d), FarShape(sb, d);
    var bl, br, ar := NearOf(b, d), FarOf(b, d), FarOf(a, d);
    ghost var sa := MakeShape(d, a, redA, sbr, sar);
    Link(a, d, br, ar, redA, sbr, sar, bl, sbl, o1, s1, o2, s2);
    Link(b, d, bl, a, redB, sbl, sa, o1, s1, o2, s2);
    r := MakeShape(d, b, redB, sbl, sa);
  }

  /** Put another tree in the place of the child on side d. */
  method Replace(t: Cell, d: Side, near: Cell?, ghost s: Shape, ghost sn: Shape, ghost o: Cell? := null,
                 ghost so: Shape := Leaf)
    returns (ghost r: Shape)
    requires s.Branch? && s.cell == t && t.red == s.red && t !in Cells(sn) && Cells(sn) !! Cells(FarShape(s, d))
    requires Owns(near, sn) && Owns(FarOf(t, d), FarShape(s, d)) && t !in Cells(FarShape(s, d))
    requires Owns(o, so) && t !in Cells(so)
    modifies t
    ensures r == MakeShape(d, t, s.red, sn, FarShape(s, d))
    ensures Owns(t, r) && Cells(r) == {t} + Cells(sn) + Cells(FarShape(s, d)) && Owns(o, so)
  {
    ghost var sf := FarShape(s, d);
    Link(t, d, near, FarOf(t, d), t.red, sn, sf, o, so);
    r := MakeShape(d, t, s.red, sn, sf);
  }

  /** c, the inner grandchild of a on side d, takes the place of a. */
  method RotateTwice(a: Cell, d: Side, redA: bool, redB: bool, redC: bool, ghost s: Shape)
    returns (c: Cell, ghost r: Shape)
    requires Owns(a, s) && NearOf(a, d) != null && FarOf(NearOf(a, d), d) != null
    modifies Cells(s)
    ensures s.Branch? && NearShape(s, d).Branch? && FarShape(NearShape(s, d), d).Branch?
    ensures var sb := NearShape(s, d);
            var sc := FarShape(sb, d);
            r == MakeShape(d, sc.cell, redC, MakeShape(d, sb.cell, redB, NearShape(sb, d), NearShape(sc, d)),
                           MakeShape(d, a, redA, FarShape(sc, d), FarShape(s, d)))
    ensures Owns(c, r) && Cells(r) == Cells(s)
  {
    Sides(a, s, d);
    c, r := Rotate(NearOf(a, d), Opposite(d), redB, redC, NearShape(s, d), FarOf(a, d), FarShape(s, d));
    ghost var sc := r;
    r := Replace(a, d, c, s, sc);
    Sides(a, r, d);
    Sides(c, sc, d);
    c, r := Rotate(a, d, redA, redC, r);
  }

  /** Colour the child on side d. */
  method PaintChild(t: Cell, d: Side, red: bool, ghost s: Shape, ghost o: Cell? := null, ghost so: Shape := Leaf)
    returns (ghost r: Shape)
    requires Owns(t, s) && NearOf(t, d) != null && Owns(o, so) && Cells(s) !! Cells(so)
    modifies Cells(s)
    ensures s.Branch? && NearShape(s, d).Branch?
    ensures r == MakeShape(d, t, s.red, NearShape(s, d).(red := red), FarShape(s, d))
    ensures Owns(t, r) && Cells(r) == Cells(s) && Owns(o, so)
  {
    Sides(t, s, d);
    ghost var sn, sf := NearShape(s, d), FarShape(s, d);
    var near, far := NearOf(t, d), FarOf(t, d);
    Sides(near, sn, d);
    Link(near, d, NearOf(near, d), FarOf(near, d), red, NearShape(sn, d), FarShape(sn, d), far, sf, o, so);
    r := Replace(t, d, near, s, sn.(red := red), o, so);
  }

  /** Colour the inner grandchild on side d. */
  method PaintGrandchild(t: Cell, d: Side, red: bool, ghost s: Shape) returns (ghost r: Shape)
    requires Owns(t, s) && NearOf(t, d) != null && FarOf(NearOf(t, d), d) != null
    modifies Cells(s)
    ensures s.Branch? && NearShape(s, d).Branch? && FarShape(NearShape(s, d), d).Branch?
    ensures var sn := NearShape(s, d);
            r == MakeShape(d, t, s.red, MakeShape(d, sn.cell, sn.red, NearShape(sn, d), FarShape(sn, d).(red := red)),
                FarShape(s, d))
    ensures Owns(t, r) && Cells(r) == Cells(s)
  {
    Sides(t, s, d);
    r := PaintChild(NearOf(t, d), Opposite(d), red, NearShape(s, d), FarOf(t, d), FarShape(s, d));
    r := Replace(t, d, NearOf(t, d), s, r);
  }

  // ---- insertion ----

  method FixInsertion(t: Cell, d: Side, ghost s: Shape) returns (root: Cell, ghost r: Shape)
    requires Owns(t, s) && NearOf(t, d) != null
    modifies Cells(s)
    ensures Owns(root, r) && Cells(r) == Cells(s)
    ensures Erase(s).Node? && Near(Erase(s), d).Node? && Erase(r) == RedBlack.FixInsertion(Erase(s), d)
  {
    Sides(t, s, d);
    ghost var sb, sar := NearShape(s, d), FarShape(s, d);
    var b, ar := NearOf(t, d), FarOf(t, d);
    Sides(b, sb, d);
    RepColour(ar, sar);
    RepColour(NearOf(b, d), NearShape(sb, d));
    RepColour(FarOf(b, d), FarShape(sb, d));
    root, r := t, s;
    if RedCell(ar) {
      if b.red && (RedCell(b.left) || RedCell(b.right)) {
        Paint(b, false, sb, ar, sar);
        Paint(ar, false, sar, b, sb.(red := false));
        Link(t, d, b, ar, true, sb.(red := false), sar.(red := false));
        r := MakeShape(d, t, true, sb.(red := false), sar.(red := false));
      }
    } else if b.red && RedCell(NearOf(b, d)) {
      root, r := Rotate(t, d, true, false, s);
    } else if b.red && RedCell(FarOf(b, d)) {
      Sides(FarOf(b, d), FarShape(sb, d), d);
      root, r := RotateTwice(t, d, true, true, false, s);
    }
  }

  /** `add_recursive`; o is another tree the caller still needs. */
  method AddRecursive(lt: (int, int) -> bool, t: Cell?, elem: Cell, ghost s: Shape, ghost o: Cell? := null,
                      ghost so: Shape := Leaf)
    returns (root: Cell, ghost r: Shape)
    requires Owns(t, s) && elem !in Cells(s) && elem.left == null && elem.right == null
    requires Owns(o, so) && Cells(so) !! Cells(s) && elem !in Cells(so)
    modifies Cells(s), elem
    ensures Owns(root, r) && Cells(r) == Cells(s) + {elem} && Owns(o, so)
    ensures Erase(r) == RedBlack.AddRecursive(lt, Erase(s), elem.addr)
    decreases s
  {
    if t == null {
      elem.red := true;
      root, r := elem, Branch(elem, true, Leaf, Leaf);
      return;
    }
    var d := if lt(elem.addr, t.addr) then L else R;
    Sides(t, s, d);
    ghost var sn, sf := NearShape(s, d), FarShape(s, d);
    var far := FarOf(t, d);
    var near;
    Live(so);
    assert Cells(so) !! Cells(sn);
    near, r := AddRecursive(lt, NearOf(t, d), elem, sn, far, sf);
    r := Replace(t, d, near, s, r, o, so);
    root := t;
    if !t.red {
      Sides(t, r, d);
      assert Cells(so) !! Cells(r);
      root, r := FixInsertion(t, d, r);
    }
  }

  /** A red-black tree in order, none of whose cells has address x. */
  ghost predicate InOrderWithout(lt: (int, int) -> bool, s: Shape, x: int) {
    && StrictOrder(lt) && RedBlackTree(Erase(s)) && Ordered(lt, Erase(s))
    && forall c :: c in Cells(s) ==> c.addr != x
  }

  /** `add`: `elem` becomes part of the tree, and nothing else changes hands. */
  method Add(lt: (int, int) -> bool, t: Cell?, elem: Cell, ghost s: Shape) returns (root: Cell, ghost r: Shape)
    requires Owns(t, s) && elem !in Cells(s)
    modifies Cells(s), elem
    ensures Owns(root, r) && Cells(r) == Cells(s) + {elem}
    ensures Erase(r) == RedBlack.Add(lt, Erase(s), elem.addr)
    ensures InOrderWithout(lt, s, elem.addr) ==> RedBlackTree(Erase(r)) && Ordered(lt, Erase(r))
  {
    if InOrderWithout(lt, s, elem.addr) {
      CellsInOrder(s, elem);
      AddCorrect(lt, Erase(s), elem.addr);
    }
    elem.left, elem.right := null, null;
    root, r := AddRecursive(lt, t, elem, s);
    Paint(root, false, r);
    r := r.(red := false);
  }

  // ---- deletion ----

  /** The case of a red sibling. */
  method FixBelowRed(a: Cell, d: Side, ghost s: Shape) returns (root: Cell, ghost r: Shape)
    requires Owns(a, s) && NearOf(a, d) != null
    requires Erase(s).Node? && Near(Erase(s), d).Node? && RedBlack.FixBelowRed(Erase(s), d).Done?
    modifies Cells(s)
    ensures Owns(root, r) && Cells(r) == Cells(s)
    ensures Done(Erase(r), false) == RedBlack.FixBelowRed(Erase(s), d)
  {
    Sides(a, s, d);
    ghost var sb := NearShape(s, d);
    var b, red := NearOf(a, d), a.red;
    Sides(b, sb, d);
    ghost var sc := FarShape(sb, d);
    var c := FarOf(b, d);
    RepColour(c, sc);
    if c == null {
      root, r := Rotate(a, d, red, false, s);
      return;
    }
    Sides(c, sc, d);
    RepColour(NearOf(c, d), NearShape(sc, d));
    RepColour(FarOf(c, d), FarShape(sc, d));
    if !RedCell(NearOf(c, d)) && !RedCell(FarOf(c, d)) {
      root, r := Rotate(a, d, red, false, s);
      Sides(root, r, d);
      Sides(FarOf(root, d), FarShape(r, d), d);
      r := PaintGrandchild(root, Opposite(d), true, r);
      assert Erase(sc.(red := true)) == Erase(sc).(red := true);
    } else if RedCell(FarOf(c, d)) {
      ghost var se := FarShape(sc, d);
      Sides(FarOf(c, d), se, d);
      EraseMake(d, c, false, NearShape(sc, d), NearShape(se, d));
      root, r := LiftInner(a, d, red, s);
    } else {
      root, r := RotateTwice(a, d, red, true, false, s);
      Sides(root, r, d);
      Sides(NearOf(root, d), NearShape(r, d), d);
      r := PaintGrandchild(root, d, false, r);
      assert Erase(NearShape(sc, d).(red := false)) == Blacken(Erase(NearShape(sc, d)));
    }
  }

  /** The innermost great-grandchild comes to the top. */
  method LiftInner(a: Cell, d: Side, red: bool, ghost s: Shape) returns (e: Cell, ghost r: Shape)
    requires Owns(a, s) && NearOf(a, d) != null && FarOf(NearOf(a, d), d) != null
    requires FarOf(FarOf(NearOf(a, d), d), d) != null
    modifies Cells(s)
    ensures s.Branch? && NearShape(s, d).Branch? && FarShape(NearShape(s, d), d).Branch?
    ensures FarShape(FarShape(NearShape(s, d), d), d).Branch?
    ensures var sb := NearShape(s, d);
            var sc := FarShape(sb, d);
            var se := FarShape(sc, d);
            r == MakeShape(d, se.cell, false,
                           MakeShape(d, sb.cell, true, NearShape(sb, d),
                               MakeShape(d, sc.cell, false, NearShape(sc, d), NearShape(se, d))),
                           MakeShape(d, a, red, FarShape(se, d), FarShape(s, d)))
    ensures Owns(e, r) && Cells(r) == Cells(s)
  {
    Sides(a, s, d);
    ghost var sb, sar := NearShape(s, d), FarShape(s, d);
    var b, ar := NearOf(a, d), FarOf(a, d);
    Sides(b, sb, d);
    ghost var sbl, sc := NearShape(sb, d), FarShape(sb, d);
    var bl, c := NearOf(b, d), FarOf(b, d);
    Sides(c, sc, d);
    e, r := Rotate(c, Opposite(d), false, false, sc, bl, sbl, ar, sar);
    ghost var se := r;
    r := Replace(b, Opposite(d), e, sb, r, ar, sar);
    ghost var sb' := r;
    r := Replace(a, d, b, s, r);
    Sides(a, r, d);
    Sides(b, sb', d);
    e, r := RotateTwice(a, d, red, true, false, r);
  }

  method FixDeletion(a: Cell, d: Side, ghost s: Shape) returns (root: Cell, shorter: bool, ghost r: Shape)
    requires Owns(a, s) && RedBlack.FixDeletion(Erase(s), d).Done?
    modifies Cells(s)
    ensures Owns(root, r) && Cells(r) == Cells(s)
    ensures Done(Erase(r), shorter) == RedBlack.FixDeletion(Erase(s), d)
  {
    Sides(a, s, d);
    ghost var sb := NearShape(s, d);
    var b, red := NearOf(a, d), a.red;
    root, shorter := a, false;
    RepColour(b, sb);
    if b == null {
      Paint(a, false, s);
      r := s.(red := false);
      return;
    }
    Sides(b, sb, d);
    RepColour(NearOf(b, d), NearShape(sb, d));
    RepColour(FarOf(b, d), FarShape(sb, d));
    if b.red {
      root, r := FixBelowRed(a, d, s);
    } else if !RedCell(NearOf(b, d)) && !RedCell(FarOf(b, d)) {
      r := PaintChild(a, d, true, s);
      Paint(a, false, r);
      r, shorter := r.(red := false), !red;
    } else if !RedCell(FarOf(b, d)) {
      root, r := Rotate(a, d, false, red, s);
      Sides(root, r, d);
      r := PaintChild(root, d, false, r);
    } else {
      root, r := RotateTwice(a, d, false, false, red, s);
    }
  }

  /** A node with at most one child gives way to that child. */
  method Unlink(t: Cell, child: Cell?, ghost s: Shape, ghost sc: Shape)
    returns (shorter: bool, ghost r: Shape)
    requires s.Branch? && s.cell == t && t.red == s.red && Owns(child, sc) && t !in Cells(sc)
    modifies Cells(sc)
    ensures Owns(child, r) && Cells(r) == Cells(sc)
    ensures Done(Erase(r), shorter) == RedBlack.Unlink(Erase(s), Erase(sc))
  {
    RepColour(child, sc);
    if child == null {
      return !t.red, Leaf;
    }
    shorter := !t.red && !child.red;
    Paint(child, false, sc);
    r := sc.(red := false);
  }

  /** The child on side d has become u; repair if it is too short. */
  method Rejoin(t: Cell, d: Side, u: Cell?, short: bool, ghost s: Shape, ghost su: Shape)
    returns (root: Cell, shorter: bool, ghost r: Shape)
    requires s.Branch? && s.cell == t && t.red == s.red && t !in Cells(su) && Cells(su) !! Cells(FarShape(s, d))
    requires Owns(u, su) && Owns(FarOf(t, d), FarShape(s, d)) && t !in Cells(FarShape(s, d))
    requires RedBlack.Rejoin(Erase(s), d, Done(Erase(su), short)).Done?
    modifies t, Cells(su), Cells(FarShape(s, d))
    ensures Owns(root, r) && Cells(r) == {t} + Cells(su) + Cells(FarShape(s, d))
    ensures Done(Erase(r), shorter) == RedBlack.Rejoin(Erase(s), d, Done(Erase(su), short))
  {
    r := Replace(t, d, u, s, su);
    EraseMake(d, t, s.red, su, FarShape(s, d));
    root, shorter := t, false;
    if short {
      root, shorter, r := FixDeletion(t, Opposite(d), r);
    }
  }

  /** `delete_rightmost_leaf`. */
  method DeleteRightmost(t: Cell, ghost s: Shape, ghost o: Cell? := null, ghost so: Shape := Leaf)
    returns (root: Cell?, leaf: Cell, shorter: bool, ghost r: Shape)
    requires Owns(t, s) && s.Branch? && RedBlack.DeleteRightmost(Erase(s)).Done?
    requires Owns(o, so) && Cells(so) !! Cells(s)
    modifies Cells(s)
    ensures Owns(root, r) && leaf in Cells(s) && Cells(r) == Cells(s) - {leaf} && Owns(o, so)
    ensures leaf.addr == Rightmost(Erase(s))
    ensures Done(Erase(r), shorter) == RedBlack.DeleteRightmost(Erase(s))
    decreases s
  {
    Sides(t, s, R);
    RepColour(t.right, s.right);
    Live(so);
    if t.right == null {
      root, leaf := t.left, t;
      shorter, r := Unlink(t, t.left, s, s.left);
    } else {
      var u, short;
      var left := t.left;
      assert Cells(so) !! Cells(s.right);
      u, leaf, short, r := DeleteRightmost(t.right, s.right, left, s.left);
      assert Cells(so) !! Cells(r);
      root, shorter, r := Rejoin(t, R, u, short, s, r);
    }
  }

  /**
   `delete_recursive`: `gone` is the cell taken out. If there is none, its assertion fails, which is
   reported as `found == false`; nothing has been changed then.
   */
  method DeleteRecursive(lt: (int, int) -> bool, t: Cell?, elem: Cell, ghost s: Shape, ghost o: Cell? := null,
                         ghost so: Shape := Leaf)
    returns (found: bool, root: Cell?, shorter: bool, ghost r: Shape, ghost gone: Cell)
    requires Owns(t, s) && (Found(lt, Erase(s), elem.addr) ==> RedBlack.DeleteRecursive(lt, Erase(s), elem.addr).Done?)
    requires Owns(o, so) && Cells(so) !! Cells(s)
    modifies Cells(s)
    ensures Owns(root, r) && Owns(o, so) && (found <==> Found(lt, Erase(s), elem.addr))
    ensures !found ==> root == t && r == s
    ensures found ==> gone in Cells(s) && Cells(r) == Cells(s) - {gone}
    ensures found ==> !lt(elem.addr, gone.addr) && !lt(gone.addr, elem.addr)
    ensures found ==> Done(Erase(r), shorter) == RedBlack.DeleteRecursive(lt, Erase(s), elem.addr)
    decreases s
  {
    RepColour(t, s);
    if t == null {
      return false, t, false, s, elem;
    }
    Sides(t, s, L);
    Live(so);
    found := true;
    if lt(elem.addr, t.addr) || lt(t.addr, elem.addr) {
      var d := if lt(elem.addr, t.addr) then L else R;
      found, root, shorter, r, gone := DeleteBelow(lt, t, d, elem, s, o, so);
    } else if t.left == null {
      root, gone := t.right, t;
      RepColour(t.left, s.left);
      shorter, r := Unlink(t, t.right, s, s.right);
    } else {
      gone := t;
      root, shorter, r := DeleteHere(t, s, o, so);
    }
  }

  method DeleteBelow(lt: (int, int) -> bool, t: Cell, d: Side, elem: Cell, ghost s: Shape, ghost o: Cell? := null,
                     ghost so: Shape := Leaf)
    returns (found: bool, root: Cell?, shorter: bool, ghost r: Shape, ghost gone: Cell)
    requires Owns(t, s) && (Found(lt, Erase(s), elem.addr) ==> RedBlack.DeleteRecursive(lt, Erase(s), elem.addr).Done?)
    requires if d == L then lt(elem.addr, t.addr) else !lt(elem.addr, t.addr) && lt(t.addr, elem.addr)
    requires Owns(o, so) && Cells(so) !! Cells(s)
    modifies Cells(s)
    ensures Owns(root, r) && Owns(o, so) && (found <==> Found(lt, Erase(s), elem.addr))
    ensures !found ==> root == t && r == s
    ensures found ==> gone in Cells(s) && Cells(r) == Cells(s) - {gone}
    ensures found ==> !lt(elem.addr, gone.addr) && !lt(gone.addr, elem.addr)
    ensures found ==> Done(Erase(r), shorter) == RedBlack.DeleteRecursive(lt, Erase(s), elem.addr)
    decreases s, 0
  {
    Sides(t, s, d);
    Live(so);
    ghost var sn, sf := NearShape(s, d), FarShape(s, d);
    RepColour(NearOf(t, d), sn);
    var far, u, short := FarOf(t, d), null, false;
    assert Cells(so) !! Cells(sn);
    found, u, short, r, gone := DeleteRecursive(lt, NearOf(t, d), elem, sn, far, sf);
    if !found {
      return false, t, false, s, gone;
    }
    assert Cells(so) !! Cells(r) + Cells(sf);
    root, shorter, r := Rejoin(t, d, u, short, s, r);
  }

  /** The rightmost cell below t on the left takes the place of t. */
  method DeleteHere(t: Cell, ghost s: Shape, ghost o: Cell? := null, ghost so: Shape := Leaf)
    returns (root: Cell?, shorter: bool, ghost r: Shape)
    requires Owns(t, s) && t.left != null && Erase(s).Node? && Erase(s).left.Node?
    requires RedBlack.Rejoin(Erase(s).(elem := Rightmost(Erase(s).left)), L,
             RedBlack.DeleteRightmost(Erase(s).left)).Done?
    requires Owns(o, so) && Cells(so) !! Cells(s)
    modifies Cells(s)
    ensures Owns(root, r) && Cells(r) == Cells(s) - {t} && Owns(o, so)
    ensures Done(Erase(r), shorter)
         == RedBlack.Rejoin(Erase(s).(elem := Rightmost(Erase(s).left)), L, RedBlack.DeleteRightmost(Erase(s).left))
  {
    Sides(t, s, L);
    Live(so);
    var right, red := t.right, t.red;
    assert Cells(so) !! Cells(s.left);
    var u, leaf, short;
    u, leaf, short, r := DeleteRightmost(t.left, s.left, right, s.right);
    assert Cells(so) !! {leaf} + Cells(r) + Cells(s.right);
    root, shorter, r := TakePlace(leaf, red, u, short, right, s.left, r, s.right, o, so);
  }

  /** A cell on its own becomes the top of a tree whose left side has become u. */
  method TakePlace(leaf: Cell, red: bool, u: Cell?, short: bool, right: Cell?, ghost sl: Shape, ghost su: Shape,
                   ghost sr: Shape, ghost o: Cell?, ghost so: Shape)
    returns (root: Cell?, shorter: bool, ghost r: Shape)
    requires Owns(u, su) && Owns(right, sr) && Owns(o, so)
    requires leaf !in Cells(su) && leaf !in Cells(sr) && Cells(su) !! Cells(sr)
    requires Cells(so) !! {leaf} + Cells(su) + Cells(sr)
    requires RedBlack.Rejoin(Erase(Branch(leaf, red, sl, sr)), L, Done(Erase(su), short)).Done?
    modifies leaf, Cells(su), Cells(sr)
    ensures Owns(root, r) && Cells(r) == {leaf} + Cells(su) + Cells(sr) && Owns(o, so)
    ensures Done(Erase(r), shorter) == RedBlack.Rejoin(Erase(Branch(leaf, red, sl, sr)), L, Done(Erase(su), short))
  {
    Live(so);
    leaf.right, leaf.red := right, red;
    root, shorter, r := Rejoin(leaf, L, u, short, Branch(leaf, red, sl, sr), su);
  }

  /** `delete`; an element that is not in the tree makes an assertion fail, reported as `found == false`. */
  method Delete(lt: (int, int) -> bool, t: Cell?, elem: Cell, ghost s: Shape)
    returns (found: bool, root: Cell?, ghost r: Shape)
    requires Owns(t, s) && StrictOrder(lt) && RedBlackTree(Erase(s)) && Ordered(lt, Erase(s))
    requires forall c :: c in Cells(s) && c.addr == elem.addr ==> c == elem
    modifies Cells(s)
    ensures found <==> elem in Cells(s)
    ensures Owns(root, r) && Cells(r) == Cells(s) - {elem}
    ensures RedBlackTree(Erase(r)) && Ordered(lt, Erase(r))
    ensures if found then RedBlack.Delete(lt, Erase(s), elem.addr).Done?
            && RedBlack.Delete(lt, Erase(s), elem.addr).tree == Erase(r)
            else RedBlack.Delete(lt, Erase(s), elem.addr) == AssertFails && root == t && r == s
  {
    ghost var k := DeleteCorrect(lt, Erase(s), elem.addr);
    FoundIffMember(lt, Erase(s), elem.addr);
    CellsInOrder(s, elem);
    ghost var gone;
    var shorter;
    found, root, shorter, r, gone := DeleteRecursive(lt, t, elem, s);
    if !found {
      return;
    }
    assert OrderAt(lt, elem.addr, gone.addr, elem.addr);
    RepColour(root, r);
    if root != null {
      Paint(root, false, r);
      r := r.(red := false);
    }
  }

  /** The addresses of the cells of a tree are the elements of the tree. */
  lemma {:induction false} CellsInOrder(s: Shape, c: Cell)
    ensures c in Cells(s) ==> c.addr in InOrder(Erase(s))
    ensures c.addr in InOrder(Erase(s)) ==> exists d :: d in Cells(s) && d.addr == c.addr
  {
    if s.Branch? {
      CellsInOrder(s.left, c);
      CellsInOrder(s.right, c);
    }
  }
}
