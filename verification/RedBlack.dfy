/**
 Red-black trees without parent pointers: the insertion and deletion macros of webserver/sglib.h on
 tree values. A macro instantiated with (left, right) and (right, left) is one function with a side.
 */
module RedBlack {
  import opened Comparators

  datatype Tree<E> = Nil | Node(red: bool, left: Tree<E>, elem: E, right: Tree<E>)

  /** Which child plays the role of the macro parameter `leftt`. */
  datatype Side = L | R

  function Opposite(d: Side): Side {
    if d == L then R else L
  }

  function Near<E>(t: Tree<E>, d: Side): Tree<E>
    requires t.Node?
  {
    if d == L then t.left else t.right
  }

  function Far<E>(t: Tree<E>, d: Side): Tree<E>
    requires t.Node?
  {
    if d == L then t.right else t.left
  }

  function Make<E>(d: Side, red: bool, near: Tree<E>, e: E, far: Tree<E>): Tree<E> {
    if d == L then Node(red, near, e, far) else Node(red, far, e, near)
  }

  predicate IsRed<E>(t: Tree<E>) {
    t.Node? && t.red
  }

  function Blacken<E>(t: Tree<E>): Tree<E> {
    if t.Nil? then t else t.(red := false)
  }

  // ---- insertion ----

  /** SGLIB___RBTREE_FIX_INSERTION_DISCREPANCY after an insertion on side d. */
  function FixInsertion<E>(t: Tree<E>, d: Side): Tree<E>
    requires t.Node? && Near(t, d).Node?
  {
    var b, ar := Near(t, d), Far(t, d);
    if IsRed(ar) then
      if b.red && (IsRed(b.left) || IsRed(b.right)) then Make(d, true, Blacken(b), t.elem, Blacken(ar))
      else t
    else if b.red && IsRed(Near(b, d)) then
      Make(d, false, Near(b, d), b.elem, Make(d, true, Far(b, d), t.elem, ar))
    else if b.red && IsRed(Far(b, d)) then
      var c := Far(b, d);
      Make(d, false, Make(d, true, Near(b, d), b.elem, Near(c, d)), c.elem, Make(d, true, Far(c, d), t.elem, ar))
    else t
  }

  function AddRecursive<E(!new)>(lt: (E, E) -> bool, t: Tree<E>, e: E): (r: Tree<E>)
    ensures r.Node?
  {
    if t.Nil? then Node(true, Nil, e, Nil)
    else if lt(e, t.elem) then
      var u := t.(left := AddRecursive(lt, t.left, e));
      if !t.red then FixInsertion(u, L) else u
    else
      var u := t.(right := AddRecursive(lt, t.right, e));
      if !t.red then FixInsertion(u, R) else u
  }

  function Add<E(!new)>(lt: (E, E) -> bool, t: Tree<E>, e: E): Tree<E> {
    Blacken(AddRecursive(lt, t, e))
  }

  // ---- deletion ----

  /** A tree and whether its black height fell by one; or a failed assertion. */
  datatype Outcome<E> = Done(tree: Tree<E>, shorter: bool) | AssertFails

  /**
   SGLIB___RBTREE_FIX_DELETION_DISCREPANCY: the child opposite to d has become too short.
   */
  function FixDeletion<E>(t: Tree<E>, d: Side): Outcome<E> {
    if t.Nil? then AssertFails
    else
      var b, ar := Near(t, d), Far(t, d);
      if b.Nil? then (if t.red then Done(t.(red := false), false) else AssertFails)
      else
        var bl, br := Near(b, d), Far(b, d);
        if b.red then FixBelowRed(t, d)
        else if !IsRed(bl) && !IsRed(br) then
          Done(Make(d, false, b.(red := true), t.elem, ar), !t.red)
        else if !IsRed(br) then
          Done(Make(d, t.red, Blacken(bl), b.elem, Make(d, false, br, t.elem, ar)), false)
        else
          Done(Make(d, t.red, Make(d, false, bl, b.elem, Near(br, d)), br.elem, Make(d, false, Far(br, d), t.elem, ar)),
              false)
  }

  /** The case of a red sibling. */
  function FixBelowRed<E>(t: Tree<E>, d: Side): Outcome<E>
    requires t.Node? && Near(t, d).Node?
  {
    var b, ar := Near(t, d), Far(t, d);
    var bl, c := Near(b, d), Far(b, d);
    if c.Nil? then Done(Make(d, false, bl, b.elem, Make(d, t.red, Nil, t.elem, ar)), false)
    else if c.red then AssertFails
    else
      var cl, cr := Near(c, d), Far(c, d);
      if !IsRed(cl) && !IsRed(cr) then
        Done(Make(d, false, bl, b.elem, Make(d, t.red, c.(red := true), t.elem, ar)), false)
      else if IsRed(cr) then
        Done(Make(d, false,
                  Make(d, true, bl, b.elem, Make(d, false, cl, c.elem, Near(cr, d))),
                  cr.elem,
                  Make(d, t.red, Far(cr, d), t.elem, ar)), false)
      else
        Done(Make(d, false, Make(d, true, bl, b.elem, Blacken(cl)), c.elem, Make(d, t.red, cr, t.elem, ar)), false)
  }

  /** What a node leaves behind when it has at most one child: that child, blackened. */
  function Unlink<E>(t: Tree<E>, child: Tree<E>): Outcome<E>
    requires t.Node?
  {
    if child.Nil? then Done(Nil, !t.red) else Done(Blacken(child), !t.red && !child.red)
  }

  /** Put the shortened child on side d back and repair if needed. */
  function Rejoin<E>(t: Tree<E>, d: Side, o: Outcome<E>): Outcome<E>
    requires t.Node?
  {
    match o
    case AssertFails => AssertFails
    case Done(u, shorter) =>
      var v := if d == L then t.(left := u) else t.(right := u);
      if shorter then FixDeletion(v, Opposite(d)) else Done(v, false)
  }

  function Rightmost<E>(t: Tree<E>): E
    requires t.Node?
  {
    if t.right.Nil? then t.elem else Rightmost(t.right)
  }

  function DeleteRightmost<E>(t: Tree<E>): Outcome<E>
    requires t.Node?
  {
    if t.right.Nil? then Unlink(t, t.left) else Rejoin(t, R, DeleteRightmost(t.right))
  }

  function DeleteRecursive<E(!new)>(lt: (E, E) -> bool, t: Tree<E>, e: E): Outcome<E> {
    if t.Nil? then AssertFails
    else if lt(e, t.elem) then Rejoin(t, L, DeleteRecursive(lt, t.left, e))
    else if lt(t.elem, e) then Rejoin(t, R, DeleteRecursive(lt, t.right, e))
    else if t.left.Nil? then Unlink(t, t.right)
    else Rejoin(t.(elem := Rightmost(t.left)), L, DeleteRightmost(t.left))
  }

  function Delete<E(!new)>(lt: (E, E) -> bool, t: Tree<E>, e: E): Outcome<E> {
    match DeleteRecursive(lt, t, e)
    case AssertFails => AssertFails
    case Done(u, shorter) => Done(Blacken(u), shorter)
  }

  // ---- what a red-black tree is ----

  function BlackHeight<E>(t: Tree<E>): nat {
    if t.Nil? then 0 else BlackHeight(t.left) + if t.red then 0 else 1
  }

  /** Every path down from a node passes the same number of black nodes. */
  predicate Balanced<E>(t: Tree<E>) {
    t.Node? ==> Balanced(t.left) && Balanced(t.right) && BlackHeight(t.left) == BlackHeight(t.right)
  }

  predicate NoRedRed<E>(t: Tree<E>) {
    t.Node? ==> NoRedRed(t.left) && NoRedRed(t.right) && (t.red ==> !IsRed(t.left) && !IsRed(t.right))
  }

  predicate Sound<E>(t: Tree<E>) {
    Balanced(t) && NoRedRed(t)
  }

  /** Sound except that a red root may have a red child. */
  predicate AlmostSound<E>(t: Tree<E>) {
    Balanced(t) && (t.Node? ==> NoRedRed(t.left) && NoRedRed(t.right))
  }

  /** The invariant `consistency_check` looks for, besides the order. */
  predicate RedBlackTree<E>(t: Tree<E>) {
    Sound(t) && !IsRed(t)
  }

  function InOrder<E>(t: Tree<E>): seq<E> {
    if t.Nil? then [] else InOrder(t.left) + [t.elem] + InOrder(t.right)
  }

  // ---- colours and heights ----

  lemma SoundMake<E>(d: Side, red: bool, near: Tree<E>, e: E, far: Tree<E>)
    requires Sound(near) && Sound(far) && BlackHeight(near) == BlackHeight(far)
    requires red ==> !IsRed(near) && !IsRed(far)
    ensures Sound(Make(d, red, near, e, far))
    ensures BlackHeight(Make(d, red, near, e, far)) == BlackHeight(near) + if red then 0 else 1
  {
  }

  lemma SoundParts<E>(t: Tree<E>, d: Side)
    requires Sound(t) && t.Node?
    ensures Sound(Near(t, d)) && Sound(Far(t, d)) && BlackHeight(Near(t, d)) == BlackHeight(Far(t, d))
    ensures BlackHeight(t) == BlackHeight(Near(t, d)) + if t.red then 0 else 1
    ensures t.red ==> !IsRed(Near(t, d)) && !IsRed(Far(t, d))
  {
  }

  lemma BlackenSound<E>(t: Tree<E>)
    requires AlmostSound(t)
    ensures Sound(Blacken(t)) && BlackHeight(Blacken(t)) == BlackHeight(t) + if IsRed(t) then 1 else 0
  {
  }

  lemma FixInsertionSound<E>(t: Tree<E>, d: Side)
    requires t.Node? && !t.red && Near(t, d).Node?
    requires AlmostSound(Near(t, d)) && Sound(Far(t, d)) && BlackHeight(Near(t, d)) == BlackHeight(Far(t, d))
    requires !(IsRed(Near(Near(t, d), d)) && IsRed(Far(Near(t, d), d)) && Near(t, d).red)
    ensures Sound(FixInsertion(t, d)) && BlackHeight(FixInsertion(t, d)) == BlackHeight(t)
  {
    var b, ar := Near(t, d), Far(t, d);
    var bl, br := Near(b, d), Far(b, d);
    if IsRed(ar) && b.red && (IsRed(bl) || IsRed(br)) {
      BlackenSound(b);
      BlackenSound(ar);
      SoundMake(d, true, Blacken(b), t.elem, Blacken(ar));
    } else if !IsRed(ar) && b.red && IsRed(bl) {
      SoundMake(d, true, br, t.elem, ar);
      SoundMake(d, false, bl, b.elem, Make(d, true, br, t.elem, ar));
    } else if !IsRed(ar) && b.red && IsRed(br) {
      SoundParts(br, d);
      SoundMake(d, true, bl, b.elem, Near(br, d));
      SoundMake(d, true, Far(br, d), t.elem, ar);
      SoundMake(d, false, Make(d, true, bl, b.elem, Near(br, d)), br.elem, Make(d, true, Far(br, d), t.elem, ar));
    } else {
      assert NoRedRed(b);
      SoundMake(d, false, b, t.elem, ar);
    }
  }

  /** Insertion keeps the black height; only a red root may be left with a red child, and only one. */
  lemma {:induction false} AddRecursiveSound<E(!new)>(lt: (E, E) -> bool, t: Tree<E>, e: E)
    requires Sound(t)
    ensures var r := AddRecursive(lt, t, e);
            && AlmostSound(r) && BlackHeight(r) == BlackHeight(t)
            && (!IsRed(t) ==> NoRedRed(r))
            && !(r.red && IsRed(r.left) && IsRed(r.right))
            && (IsRed(t) ==> r.red)
  {
    if t.Node? {
      if lt(e, t.elem) {
        AddRecursiveSound(lt, t.left, e);
        var u := t.(left := AddRecursive(lt, t.left, e));
        if !t.red { FixInsertionSound(u, L); }
      } else {
        AddRecursiveSound(lt, t.right, e);
        var u := t.(right := AddRecursive(lt, t.right, e));
        if !t.red { FixInsertionSound(u, R); }
      }
    }
  }

  lemma AddKeepsRedBlack<E(!new)>(lt: (E, E) -> bool, t: Tree<E>, e: E)
    requires RedBlackTree(t)
    ensures RedBlackTree(Add(lt, t, e))
  {
    AddRecursiveSound(lt, t, e);
  }

  /** The deficient child of t, opposite to d, is one black node short. */
  predicate Deficient<E>(t: Tree<E>, d: Side) {
    && t.Node? && Sound(t.left) && Sound(t.right)
    && BlackHeight(Near(t, d)) == BlackHeight(Far(t, d)) + 1
    && (t.red ==> !IsRed(Near(t, d)) && !IsRed(Far(t, d)))
  }

  function HeightBefore<E>(t: Tree<E>, d: Side): nat
    requires t.Node?
  {
    BlackHeight(Near(t, d)) + if t.red then 0 else 1
  }

  predicate Repaired<E>(t: Tree<E>, d: Side, o: Outcome<E>)
    requires t.Node?
  {
    && o.Done? && Sound(o.tree)
    && BlackHeight(o.tree) + (if o.shorter then 1 else 0) == HeightBefore(t, d)
    && (!t.red ==> !IsRed(o.tree)) && (o.shorter ==> !IsRed(o.tree))
  }

  lemma FixBelowRedSound<E>(t: Tree<E>, d: Side)
    requires Deficient(t, d) && IsRed(Near(t, d))
    ensures Repaired(t, d, FixBelowRed(t, d))
  {
    var b, ar := Near(t, d), Far(t, d);
    SoundParts(b, d);
    var bl, c := Near(b, d), Far(b, d);
    SoundParts(c, d);
    var cl, cr := Near(c, d), Far(c, d);
    if !IsRed(cl) && !IsRed(cr) {
      SoundMake(d, true, cl, c.elem, cr);
      SoundMake(d, false, c.(red := true), t.elem, ar);
      SoundMake(d, false, bl, b.elem, Make(d, false, c.(red := true), t.elem, ar));
    } else if IsRed(cr) {
      SoundParts(cr, d);
      SoundMake(d, false, cl, c.elem, Near(cr, d));
      SoundMake(d, true, bl, b.elem, Make(d, false, cl, c.elem, Near(cr, d)));
      SoundMake(d, false, Far(cr, d), t.elem, ar);
      SoundMake(d, false, Make(d, true, bl, b.elem, Make(d, false, cl, c.elem, Near(cr, d))), cr.elem,
          Make(d, false, Far(cr, d), t.elem, ar));
    } else {
      BlackenSound(cl);
      SoundMake(d, true, bl, b.elem, Blacken(cl));
      SoundMake(d, false, cr, t.elem, ar);
      SoundMake(d, false, Make(d, true, bl, b.elem, Blacken(cl)), c.elem, Make(d, false, cr, t.elem, ar));
    }
  }

  /** The repair never fails an assertion, and reports a lost level exactly when there is one. */
  lemma FixDeletionSound<E>(t: Tree<E>, d: Side)
    requires Deficient(t, d)
    ensures Repaired(t, d, FixDeletion(t, d))
  {
    var b, ar := Near(t, d), Far(t, d);
    if b.red {
      FixBelowRedSound(t, d);
    } else {
      SoundParts(b, d);
      var bl, br := Near(b, d), Far(b, d);
      if !IsRed(bl) && !IsRed(br) {
        SoundMake(d, true, bl, b.elem, br);
        SoundMake(d, false, b.(red := true), t.elem, ar);
      } else if !IsRed(br) {
        BlackenSound(bl);
        SoundMake(d, false, br, t.elem, ar);
        SoundMake(d, t.red, Blacken(bl), b.elem, Make(d, false, br, t.elem, ar));
      } else {
        SoundParts(br, d);
        SoundMake(d, false, bl, b.elem, Near(br, d));
        SoundMake(d, false, Far(br, d), t.elem, ar);
        SoundMake(d, t.red, Make(d, false, bl, b.elem, Near(br, d)), br.elem, Make(d, false, Far(br, d), t.elem, ar));
      }
    }
  }

  /** What deletion from t leaves: still sound, black where t was black, shorter exactly if it says so. */
  predicate Shortened<E>(t: Tree<E>, o: Outcome<E>) {
    && o.Done? && Sound(o.tree)
    && BlackHeight(o.tree) + (if o.shorter then 1 else 0) == BlackHeight(t)
    && (!IsRed(t) ==> !IsRed(o.tree))
  }

  lemma UnlinkSound<E>(t: Tree<E>, d: Side)
    requires Sound(t) && t.Node? && Far(t, d).Nil?
    ensures Shortened(t, Unlink(t, Near(t, d)))
  {
    SoundParts(t, d);
    BlackenSound(Near(t, d));
  }

  lemma RejoinSound<E>(t: Tree<E>, e: E, d: Side, o: Outcome<E>)
    requires Sound(t) && t.Node? && Shortened(Near(t, d), o)
    ensures Shortened(t, Rejoin(t.(elem := e), d, o))
  {
    SoundParts(t, d);
    var v := Make(d, t.red, o.tree, e, Far(t, d));
    if o.shorter {
      assert Deficient(v, Opposite(d));
      FixDeletionSound(v, Opposite(d));
    } else {
      SoundMake(d, t.red, o.tree, e, Far(t, d));
    }
  }

  lemma {:induction false} DeleteRightmostSound<E>(t: Tree<E>)
    requires Sound(t) && t.Node?
    ensures Shortened(t, DeleteRightmost(t))
  {
    if t.right.Nil? {
      UnlinkSound(t, L);
    } else {
      SoundParts(t, R);
      DeleteRightmostSound(t.right);
      RejoinSound(t, t.elem, R, DeleteRightmost(t.right));
    }
  }

  /** Found along the search path that `lt` dictates. */
  predicate Found<E(!new)>(lt: (E, E) -> bool, t: Tree<E>, e: E) {
    && t.Node?
    && (if lt(e, t.elem) then Found(lt, t.left, e) else lt(t.elem, e) ==> Found(lt, t.right, e))
  }

  lemma {:induction false} DeleteRecursiveSound<E(!new)>(lt: (E, E) -> bool, t: Tree<E>, e: E)
    requires Sound(t)
    ensures if Found(lt, t, e) then Shortened(t, DeleteRecursive(lt, t, e))
            else DeleteRecursive(lt, t, e) == AssertFails
  {
    if t.Node? {
      SoundParts(t, L);
      if lt(e, t.elem) {
        DeleteRecursiveSound(lt, t.left, e);
        if Found(lt, t, e) { RejoinSound(t, t.elem, L, DeleteRecursive(lt, t.left, e)); }
      } else if lt(t.elem, e) {
        DeleteRecursiveSound(lt, t.right, e);
        if Found(lt, t, e) { RejoinSound(t, t.elem, R, DeleteRecursive(lt, t.right, e)); }
      } else if t.left.Nil? {
        UnlinkSound(t, R);
      } else {
        DeleteRightmostSound(t.left);
        RejoinSound(t, Rightmost(t.left), L, DeleteRightmost(t.left));
      }
    }
  }

  // ---- contents ----

  function Glue<E>(d: Side, near: seq<E>, e: E, far: seq<E>): seq<E> {
    if d == L then near + [e] + far else far + [e] + near
  }

  lemma GlueAssoc<E>(d: Side, a: seq<E>, x: E, b: seq<E>, y: E, c: seq<E>)
    ensures Glue(d, Glue(d, a, x, b), y, c) == Glue(d, a, x, Glue(d, b, y, c))
  {
    assert (a + [x] + b) + [y] + c == a + [x] + (b + [y] + c);
    assert c + [y] + (b + [x] + a) == (c + [y] + b) + [x] + a;
  }

  lemma InOrderMake<E>(d: Side, red: bool, near: Tree<E>, e: E, far: Tree<E>)
    ensures InOrder(Make(d, red, near, e, far)) == Glue(d, InOrder(near), e, InOrder(far))
  {
  }

  /** A single rotation. */
  lemma RotateInOrder<E>(d: Side, r1: bool, r2: bool, r3: bool, r4: bool, a: Tree<E>, x: E, b: Tree<E>, y: E,
                         c: Tree<E>)
    ensures InOrder(Make(d, r1, Make(d, r2, a, x, b), y, c)) == InOrder(Make(d, r3, a, x, Make(d, r4, b, y, c)))
  {
    GlueAssoc(d, InOrder(a), x, InOrder(b), y, InOrder(c));
    InOrderMake(d, r1, Make(d, r2, a, x, b), y, c);
    InOrderMake(d, r2, a, x, b);
    InOrderMake(d, r3, a, x, Make(d, r4, b, y, c));
    InOrderMake(d, r4, b, y, c);
  }

  /** A double rotation. */
  lemma DoubleRotateInOrder<E>(d: Side, r1: bool, r2: bool, r3: bool, r4: bool, r5: bool, r6: bool,
                               a: Tree<E>, x: E, b: Tree<E>, y: E, c: Tree<E>, z: E, e: Tree<E>)
    ensures InOrder(Make(d, r1, Make(d, r2, a, x, Make(d, r3, b, y, c)), z, e))
            == InOrder(Make(d, r4, Make(d, r5, a, x, b), y, Make(d, r6, c, z, e)))
  {
    RotateInOrder(d, r2, r5, r2, r3, a, x, b, y, c);
    InOrderMake(d, r1, Make(d, r2, a, x, Make(d, r3, b, y, c)), z, e);
    InOrderMake(d, r1, Make(d, r2, Make(d, r5, a, x, b), y, c), z, e);
    RotateInOrder(d, r1, r2, r4, r6, Make(d, r5, a, x, b), y, c, z, e);
  }

  lemma BlackenInOrder<E>(t: Tree<E>)
    ensures InOrder(Blacken(t)) == InOrder(t)
  {
  }

  lemma FixInsertionInOrder<E>(t: Tree<E>, d: Side)
    requires t.Node? && Near(t, d).Node?
    ensures InOrder(FixInsertion(t, d)) == InOrder(t)
  {
    var b, ar := Near(t, d), Far(t, d);
    var bl, br := Near(b, d), Far(b, d);
    if IsRed(ar) {
      BlackenInOrder(b);
      BlackenInOrder(ar);
    } else if b.red && IsRed(bl) {
      RotateInOrder(d, t.red, true, false, true, bl, b.elem, br, t.elem, ar);
    } else if b.red && IsRed(br) {
      DoubleRotateInOrder(d, t.red, true, true, false, true, true, bl, b.elem, Near(br, d), br.elem, Far(br, d), t.elem,
          ar);
    }
  }

  lemma FixBelowRedInOrder<E>(t: Tree<E>, d: Side)
    requires t.Node? && Near(t, d).Node? && Near(t, d).red && FixBelowRed(t, d).Done?
    ensures InOrder(FixBelowRed(t, d).tree) == InOrder(t)
  {
    var b, ar := Near(t, d), Far(t, d);
    var bl, c := Near(b, d), Far(b, d);
    if c.Nil? {
      RotateInOrder(d, t.red, true, false, t.red, bl, b.elem, c, t.elem, ar);
    } else {
      var cl, cr := Near(c, d), Far(c, d);
      if !IsRed(cl) && !IsRed(cr) {
        RotateInOrder(d, t.red, true, false, t.red, bl, b.elem, c.(red := true), t.elem, ar);
        RotateInOrder(d, t.red, true, t.red, true, bl, b.elem, c, t.elem, ar);
        InOrderMake(d, t.red, c, t.elem, ar);
        InOrderMake(d, t.red, c.(red := true), t.elem, ar);
      } else if IsRed(cr) {
        var c' := Make(d, false, cl, c.elem, Near(cr, d));
        // first the red grandchild comes up inside b, then over t
        RotateInOrder(d, true, false, false, true, cl, c.elem, Near(cr, d), cr.elem, Far(cr, d));
        InOrderMake(d, true, bl, b.elem, c);
        InOrderMake(d, true, bl, b.elem, Make(d, true, c', cr.elem, Far(cr, d)));
        InOrderMake(d, t.red, b, t.elem, ar);
        InOrderMake(d, t.red, Make(d, true, bl, b.elem, Make(d, true, c', cr.elem, Far(cr, d))), t.elem, ar);
        DoubleRotateInOrder(d, t.red, true, true, false, true, t.red, bl, b.elem, c', cr.elem, Far(cr, d), t.elem, ar);
      } else {
        DoubleRotateInOrder(d, t.red, true, false, false, true, t.red, bl, b.elem, cl, c.elem, cr, t.elem, ar);
        BlackenInOrder(cl);
        InOrderMake(d, true, bl, b.elem, cl);
        InOrderMake(d, true, bl, b.elem, Blacken(cl));
        InOrderMake(d, false, Make(d, true, bl, b.elem, cl), c.elem, Make(d, t.red, cr, t.elem, ar));
        InOrderMake(d, false, Make(d, true, bl, b.elem, Blacken(cl)), c.elem, Make(d, t.red, cr, t.elem, ar));
      }
    }
  }

  lemma FixDeletionInOrder<E>(t: Tree<E>, d: Side)
    requires FixDeletion(t, d).Done?
    ensures InOrder(FixDeletion(t, d).tree) == InOrder(t)
  {
    var b, ar := Near(t, d), Far(t, d);
    if b.Node? {
      var bl, br := Near(b, d), Far(b, d);
      if b.red {
        FixBelowRedInOrder(t, d);
      } else if !IsRed(bl) && !IsRed(br) {
        InOrderMake(d, true, bl, b.elem, br);
      } else if !IsRed(br) {
        BlackenInOrder(bl);
        RotateInOrder(d, t.red, false, t.red, false, bl, b.elem, br, t.elem, ar);
        InOrderMake(d, t.red, bl, b.elem, Make(d, false, br, t.elem, ar));
        InOrderMake(d, t.red, Blacken(bl), b.elem, Make(d, false, br, t.elem, ar));
      } else {
        DoubleRotateInOrder(d, t.red, false, true, t.red, false, false, bl, b.elem, Near(br, d), br.elem, Far(br, d),
            t.elem, ar);
      }
    }
  }

  // ---- order ----

  ghost predicate OrderAt<E>(lt: (E, E) -> bool, a: E, b: E, c: E) {
    && !(lt(a, b) && lt(b, a))
    && (lt(a, b) && lt(b, c) ==> lt(a, c))
    && (a != b ==> lt(a, b) || lt(b, a))
  }

  /** A strict total order; `ByComparator` shows that the test the macros use is one. */
  ghost predicate StrictOrder<E(!new)>(lt: (E, E) -> bool) {
    forall a, b, c :: OrderAt(lt, a, b, c)
  }

  ghost predicate Below<E(!new)>(lt: (E, E) -> bool, s: seq<E>, e: E) {
    forall x :: x in s ==> lt(x, e)
  }

  ghost predicate Above<E(!new)>(lt: (E, E) -> bool, e: E, s: seq<E>) {
    forall x :: x in s ==> lt(e, x)
  }

  /** Every element is above everything left of it and below everything right of it. */
  ghost predicate Ordered<E(!new)>(lt: (E, E) -> bool, t: Tree<E>) {
    t.Node? ==>
      && Ordered(lt, t.left) && Ordered(lt, t.right)
      && Below(lt, InOrder(t.left), t.elem) && Above(lt, t.elem, InOrder(t.right))
  }

  ghost predicate Increasing<E(!new)>(lt: (E, E) -> bool, s: seq<E>) {
    forall i, j :: 0 <= i < j < |s| ==> lt(s[i], s[j])
  }

  lemma {:induction false} OrderedIffIncreasing<E(!new)>(lt: (E, E) -> bool, t: Tree<E>)
    requires StrictOrder(lt)
    ensures Ordered(lt, t) <==> Increasing(lt, InOrder(t))
  {
    if t.Node? {
      var l, r := InOrder(t.left), InOrder(t.right);
      var s := InOrder(t);
      assert s == l + [t.elem] + r;
      OrderedIffIncreasing(lt, t.left);
      OrderedIffIncreasing(lt, t.right);
      if Increasing(lt, s) {
        IncreasingParts(lt, l, t.elem, r);
      } else if Ordered(lt, t) {
        IncreasingGlue(lt, l, t.elem, r);
      }
    }
  }

  lemma IncreasingParts<E(!new)>(lt: (E, E) -> bool, l: seq<E>, e: E, r: seq<E>)
    requires Increasing(lt, l + [e] + r)
    ensures Increasing(lt, l) && Increasing(lt, r) && Below(lt, l, e) && Above(lt, e, r)
  {
    var s, n := l + [e] + r, |l|;
    assert s[n] == e;
    forall i, j | 0 <= i < j < |l| ensures lt(l[i], l[j]) { assert s[i] == l[i] && s[j] == l[j]; }
    forall i, j | 0 <= i < j < |r| ensures lt(r[i], r[j]) { assert s[n + 1 + i] == r[i] && s[n + 1 + j] == r[j]; }
    forall x | x in l ensures lt(x, e) { var i :| 0 <= i < |l| && l[i] == x; assert s[i] == x; }
    forall x | x in r ensures lt(e, x) { var i :| 0 <= i < |r| && r[i] == x; assert s[n + 1 + i] == x; }
  }

  lemma IncreasingGlue<E(!new)>(lt: (E, E) -> bool, l: seq<E>, e: E, r: seq<E>)
    requires StrictOrder(lt) && Increasing(lt, l) && Increasing(lt, r) && Below(lt, l, e) && Above(lt, e, r)
    ensures Increasing(lt, l + [e] + r)
  {
    var s, n := l + [e] + r, |l|;
    forall i, j | 0 <= i < j < |s| ensures lt(s[i], s[j]) {
      if i < n { assert s[i] in l; }
      if j > n { assert s[j] == r[j - n - 1] && s[j] in r; }
      if i > n { assert s[i] == r[i - n - 1]; }
      assert OrderAt(lt, s[i], e, s[j]);
    }
  }

  /** In-order index at which the search for e falls out of the tree. */
  function Position<E(!new)>(lt: (E, E) -> bool, t: Tree<E>, e: E): (k: nat)
    ensures k <= |InOrder(t)|
  {
    if t.Nil? then 0
    else if lt(e, t.elem) then Position(lt, t.left, e)
    else |InOrder(t.left)| + 1 + Position(lt, t.right, e)
  }

  function InsertAt<E>(s: seq<E>, k: nat, e: E): seq<E>
    requires k <= |s|
  {
    s[..k] + [e] + s[k..]
  }

  lemma {:induction false} AddRecursiveInserts<E(!new)>(lt: (E, E) -> bool, t: Tree<E>, e: E)
    ensures InOrder(AddRecursive(lt, t, e)) == InsertAt(InOrder(t), Position(lt, t, e), e)
  {
    if t.Node? {
      var l, r := InOrder(t.left), InOrder(t.right);
      if lt(e, t.elem) {
        AddRecursiveInserts(lt, t.left, e);
        var u := t.(left := AddRecursive(lt, t.left, e));
        if !t.red { FixInsertionInOrder(u, L); }
        InsertLeft(l, t.elem, r, Position(lt, t.left, e), e);
      } else {
        AddRecursiveInserts(lt, t.right, e);
        var u := t.(right := AddRecursive(lt, t.right, e));
        if !t.red { FixInsertionInOrder(u, R); }
        InsertRight(l, t.elem, r, Position(lt, t.right, e), e);
      }
    }
  }

  lemma CutLeft<E>(l: seq<E>, x: E, r: seq<E>, k: nat)
    requires k <= |l|
    ensures var s := l + [x] + r; s[..k] == l[..k] && s[k..] == l[k..] + [x] + r
  {
  }

  lemma CutRight<E>(l: seq<E>, x: E, r: seq<E>, k: nat)
    requires k <= |r|
    ensures var s, m := l + [x] + r, |l| + 1 + k; s[..m] == l + [x] + r[..k] && s[m..] == r[k..]
  {
  }

  lemma InsertLeft<E>(l: seq<E>, x: E, r: seq<E>, k: nat, e: E)
    requires k <= |l|
    ensures InsertAt(l, k, e) + [x] + r == InsertAt(l + [x] + r, k, e)
  {
    CutLeft(l, x, r, k);
  }

  lemma InsertRight<E>(l: seq<E>, x: E, r: seq<E>, k: nat, e: E)
    requires k <= |r|
    ensures l + [x] + InsertAt(r, k, e) == InsertAt(l + [x] + r, |l| + 1 + k, e)
  {
    CutRight(l, x, r, k);
  }

  lemma AboveGlue<E(!new)>(lt: (E, E) -> bool, e: E, l: seq<E>, x: E, r: seq<E>)
    requires StrictOrder(lt) && Above(lt, e, l) && lt(e, x) && Above(lt, x, r)
    ensures Above(lt, e, l + [x] + r)
  {
    forall y | y in r ensures lt(e, y) { assert OrderAt(lt, e, x, y); }
  }

  lemma BelowGlue<E(!new)>(lt: (E, E) -> bool, l: seq<E>, x: E, r: seq<E>, e: E)
    requires StrictOrder(lt) && Below(lt, l, x) && lt(x, e) && Below(lt, r, e)
    ensures Below(lt, l + [x] + r, e)
  {
    forall y | y in l ensures lt(y, e) { assert OrderAt(lt, y, x, e); }
  }

  /** In a tree in order, that index is the place of e: what precedes it is below e, what follows is above. */
  lemma {:induction false} PositionSplits<E(!new)>(lt: (E, E) -> bool, t: Tree<E>, e: E)
    requires StrictOrder(lt) && Ordered(lt, t) && e !in InOrder(t)
    ensures var s, k := InOrder(t), Position(lt, t, e); Below(lt, s[..k], e) && Above(lt, e, s[k..])
  {
    if t.Node? {
      var l, r := InOrder(t.left), InOrder(t.right);
      Parts(l, t.elem, r, e);
      assert OrderAt(lt, t.elem, e, e);
      if lt(e, t.elem) {
        PositionSplits(lt, t.left, e);
        var k := Position(lt, t.left, e);
        CutLeft(l, t.elem, r, k);
        AboveGlue(lt, e, l[k..], t.elem, r);
      } else {
        PositionSplits(lt, t.right, e);
        var k := Position(lt, t.right, e);
        CutRight(l, t.elem, r, k);
        BelowGlue(lt, l, t.elem, r[..k], e);
      }
    }
  }

  lemma Parts<E>(l: seq<E>, x: E, r: seq<E>, e: E)
    ensures e in l + [x] + r <==> e in l || e == x || e in r
  {
  }

  /** `add`: a red-black tree in order stays one, with exactly e added at its place. */
  lemma AddCorrect<E(!new)>(lt: (E, E) -> bool, t: Tree<E>, e: E)
    requires StrictOrder(lt) && RedBlackTree(t) && Ordered(lt, t) && e !in InOrder(t)
    ensures var r, k := Add(lt, t, e), Position(lt, t, e);
            && RedBlackTree(r) && Ordered(lt, r)
            && InOrder(r) == InOrder(t)[..k] + [e] + InOrder(t)[k..]
            && Below(lt, InOrder(t)[..k], e) && Above(lt, e, InOrder(t)[k..])
  {
    var r, s, k := Add(lt, t, e), InOrder(t), Position(lt, t, e);
    AddKeepsRedBlack(lt, t, e);
    AddRecursiveInserts(lt, t, e);
    BlackenInOrder(AddRecursive(lt, t, e));
    PositionSplits(lt, t, e);
    OrderedIffIncreasing(lt, t);
    forall i, j | 0 <= i < j < k ensures lt(s[..k][i], s[..k][j]) {}
    IncreasingGlue(lt, s[..k], e, s[k..]);
    OrderedIffIncreasing(lt, r);
  }

  // ---- what deletion removes ----

  lemma UnlinkInOrder<E>(t: Tree<E>, d: Side)
    requires t.Node? && Far(t, d).Nil?
    ensures InOrder(Unlink(t, Near(t, d)).tree) == InOrder(Near(t, d))
  {
    BlackenInOrder(Near(t, d));
  }

  lemma RejoinInOrder<E>(t: Tree<E>, d: Side, o: Outcome<E>)
    requires t.Node? && o.Done? && Rejoin(t, d, o).Done?
    ensures InOrder(Rejoin(t, d, o).tree) == Glue(d, InOrder(o.tree), t.elem, InOrder(Far(t, d)))
  {
    var v := if d == L then t.(left := o.tree) else t.(right := o.tree);
    if o.shorter { FixDeletionInOrder(v, Opposite(d)); }
  }

  lemma {:induction false} DeleteRightmostRemoves<E>(t: Tree<E>)
    requires t.Node? && DeleteRightmost(t).Done?
    ensures InOrder(DeleteRightmost(t).tree) + [Rightmost(t)] == InOrder(t)
  {
    if t.right.Nil? {
      UnlinkInOrder(t, L);
      assert InOrder(t) == InOrder(t.left) + [t.elem] + [];
    } else {
      DeleteRightmostRemoves(t.right);
      RejoinInOrder(t, R, DeleteRightmost(t.right));
      var r := InOrder(DeleteRightmost(t.right).tree);
      assert InOrder(t.left) + [t.elem] + r + [Rightmost(t)] == InOrder(t.left) + [t.elem] + (r + [Rightmost(t)]);
    }
  }

  function RemoveAt<E>(s: seq<E>, k: nat): seq<E>
    requires k < |s|
  {
    s[..k] + s[k + 1..]
  }

  /** In-order index of the node the search for e ends at. */
  function Index<E(!new)>(lt: (E, E) -> bool, t: Tree<E>, e: E): (k: nat)
    requires Found(lt, t, e)
    ensures k < |InOrder(t)|
  {
    if lt(e, t.elem) then Index(lt, t.left, e)
    else if lt(t.elem, e) then |InOrder(t.left)| + 1 + Index(lt, t.right, e)
    else |InOrder(t.left)|
  }

  lemma {:induction false} DeleteRecursiveRemoves<E(!new)>(lt: (E, E) -> bool, t: Tree<E>, e: E)
    requires Found(lt, t, e) && DeleteRecursive(lt, t, e).Done?
    ensures InOrder(DeleteRecursive(lt, t, e).tree) == RemoveAt(InOrder(t), Index(lt, t, e))
  {
    var l, r := InOrder(t.left), InOrder(t.right);
    if lt(e, t.elem) {
      DeleteRecursiveRemoves(lt, t.left, e);
      RejoinInOrder(t, L, DeleteRecursive(lt, t.left, e));
      RemoveLeft(l, t.elem, r, Index(lt, t.left, e));
    } else if lt(t.elem, e) {
      DeleteRecursiveRemoves(lt, t.right, e);
      RejoinInOrder(t, R, DeleteRecursive(lt, t.right, e));
      RemoveRight(l, t.elem, r, Index(lt, t.right, e));
    } else {
      RemoveMiddle(l, t.elem, r);
      RemovalHere(lt, t, e);
    }
  }

  lemma RemovalHere<E(!new)>(lt: (E, E) -> bool, t: Tree<E>, e: E)
    requires t.Node? && !lt(e, t.elem) && !lt(t.elem, e) && DeleteRecursive(lt, t, e).Done?
    ensures InOrder(DeleteRecursive(lt, t, e).tree) == InOrder(t.left) + InOrder(t.right)
  {
    if t.left.Nil? {
      UnlinkInOrder(t, R);
      assert [] + InOrder(t.right) == InOrder(t.right);
    } else {
      DeleteRightmostRemoves(t.left);
      RejoinInOrder(t.(elem := Rightmost(t.left)), L, DeleteRightmost(t.left));
    }
  }

  lemma RemoveLeft<E>(l: seq<E>, x: E, r: seq<E>, k: nat)
    requires k < |l|
    ensures RemoveAt(l, k) + [x] + r == RemoveAt(l + [x] + r, k)
  {
    var s := l + [x] + r;
    assert s[..k] == l[..k] && s[k + 1..] == l[k + 1..] + [x] + r;
  }

  lemma RemoveRight<E>(l: seq<E>, x: E, r: seq<E>, k: nat)
    requires k < |r|
    ensures l + [x] + RemoveAt(r, k) == RemoveAt(l + [x] + r, |l| + 1 + k)
  {
    var s := l + [x] + r;
    assert s[..|l| + 1 + k] == l + [x] + r[..k] && s[|l| + 1 + k + 1..] == r[k + 1..];
  }

  lemma RemoveMiddle<E>(l: seq<E>, x: E, r: seq<E>)
    ensures RemoveAt(l + [x] + r, |l|) == l + r
  {
    var s := l + [x] + r;
    assert s[..|l|] == l && s[|l| + 1..] == r;
  }

  /** In a tree in order the search finds exactly the elements of the tree. */
  lemma {:induction false} FoundIffMember<E(!new)>(lt: (E, E) -> bool, t: Tree<E>, e: E)
    requires StrictOrder(lt) && Ordered(lt, t)
    ensures Found(lt, t, e) <==> e in InOrder(t)
    ensures Found(lt, t, e) ==> InOrder(t)[Index(lt, t, e)] == e
  {
    if t.Node? {
      var l, r, s := InOrder(t.left), InOrder(t.right), InOrder(t);
      assert s == l + [t.elem] + r;
      FoundIffMember(lt, t.left, e);
      FoundIffMember(lt, t.right, e);
      assert e in s <==> e in l || e == t.elem || e in r;
      assert OrderAt(lt, e, t.elem, e) && OrderAt(lt, t.elem, e, e);
    }
  }

  /**
   `delete`: on a red-black tree in order it removes exactly e, keeps every invariant and fails no
   assertion; on an element that is not in the tree it fails one.
   */
  lemma DeleteCorrect<E(!new)>(lt: (E, E) -> bool, t: Tree<E>, e: E) returns (k: nat)
    requires StrictOrder(lt) && RedBlackTree(t) && Ordered(lt, t)
    ensures Delete(lt, t, e).Done? <==> e in InOrder(t)
    ensures e in InOrder(t) ==>
            var r, s := Delete(lt, t, e).tree, InOrder(t);
            && RedBlackTree(r) && Ordered(lt, r)
            && k < |s| && s[k] == e && InOrder(r) == s[..k] + s[k + 1..]
  {
    k := 0;
    FoundIffMember(lt, t, e);
    DeleteRecursiveSound(lt, t, e);
    if e in InOrder(t) {
      k := Index(lt, t, e);
      DeleteFound(lt, t, e);
    }
  }

  lemma DeleteFound<E(!new)>(lt: (E, E) -> bool, t: Tree<E>, e: E)
    requires StrictOrder(lt) && Ordered(lt, t) && Found(lt, t, e)
    requires Shortened(t, DeleteRecursive(lt, t, e)) && InOrder(t)[Index(lt, t, e)] == e
    ensures var r, s, k := Delete(lt, t, e).tree, InOrder(t), Index(lt, t, e);
            RedBlackTree(r) && Ordered(lt, r) && InOrder(r) == s[..k] + s[k + 1..]
  {
    DeleteRecursiveRemoves(lt, t, e);
    var o := DeleteRecursive(lt, t, e);
    BlackenSound(o.tree);
    BlackenInOrder(o.tree);
    RemovalOrdered(lt, t, Index(lt, t, e), Blacken(o.tree));
  }

  lemma RemovalOrdered<E(!new)>(lt: (E, E) -> bool, t: Tree<E>, k: nat, r: Tree<E>)
    requires StrictOrder(lt) && Ordered(lt, t) && k < |InOrder(t)| && InOrder(r) == RemoveAt(InOrder(t), k)
    ensures Ordered(lt, r)
  {
    OrderedIffIncreasing(lt, t);
    OrderedIffIncreasing(lt, r);
    IncreasingWithout(lt, InOrder(t), k);
  }

  lemma IncreasingWithout<E(!new)>(lt: (E, E) -> bool, s: seq<E>, k: nat)
    requires Increasing(lt, s) && k < |s|
    ensures Increasing(lt, RemoveAt(s, k))
  {
    var r := RemoveAt(s, k);
    forall i, j | 0 <= i < j < |r| ensures lt(r[i], r[j]) {
      var i', j' := if i < k then i else i + 1, if j < k then j else j + 1;
      assert r[i] == s[i'] && r[j] == s[j'];
    }
  }

  // ---- the order the macros use ----

  /** `cmp < 0 || (cmp == 0 && elem < t)`: elements are addresses, `key` is what the comparator sees there. */
  predicate Precedes<K>(cmp: (K, K) -> int, key: int -> K, a: int, b: int) {
    cmp(key(a), key(b)) < 0 || (cmp(key(a), key(b)) == 0 && a < b)
  }

  /** With addresses as tie-breakers it orders all elements, including those the comparator calls equal. */
  lemma ByComparator<K(!new)>(cmp: (K, K) -> int, key: int -> K)
    requires Comparator(cmp)
    ensures StrictOrder((a: int, b: int) => Precedes(cmp, key, a, b))
  {
    var lt := (a: int, b: int) => Precedes(cmp, key, a, b);
    forall a, b, c ensures OrderAt(lt, a, b, c) {
      var x, y, z := key(a), key(b), key(c);
      assert CompareAt(cmp, x, y, z) && CompareAt(cmp, y, x, z);
      assert CompareAt(cmp, y, z, x) && CompareAt(cmp, z, x, y);
      assert CompareAt(cmp, x, z, y) && CompareAt(cmp, z, y, x);
    }
  }
}
