/** rbt.go `delete` and `deleteFixup` (lines 373-486): unlink the node, or its in-order
    successor when it has two children, then repair the missing black node by climbing. */
module Deletion {
  import opened Trees
  import opened Validator
  import opened Zippers
  import opened Fitting

  /** Loop invariant: the subtree at `n` (possibly nil) is sound once its root is painted
      black, its position needs one more black node than it has, and the root is black unless
      `n` is the root. */
  predicate DeleteInv<V>(z: Zipper<V>)
  {
    HasSameBlackHeight(z.focus) &&
    (z.focus.Node? ==> !ContainsConsecutiveRedNodes(z.focus.left) && !ContainsConsecutiveRedNodes(z.focus.right)) &&
    Fits(z.path, BlackHeight(z.focus) + 1, Black) &&
    (|z.path| > 0 ==> z.path[|z.path| - 1].color == Black)
  }

  /** The loop guard `n != tree.root && n.Color() == black`. */
  predicate Deficit<V>(z: Zipper<V>)
  {
    |z.path| > 0 && ColorOf(z.focus) == Black
  }

  /** The loop's termination measure: one case-1 rotation moves `n` a level down but leaves it
      under a red parent, so the next climb stops. */
  function Measure<V>(z: Zipper<V>): nat
  {
    |z.path| + Weight(ColorOf(z.focus))
  }

  /** Go's side test `n == parent.left`: pointer equality, so a nil `n` counts as the left child
      whenever the parent's left slot is empty. */
  predicate GoTakesLeftBranch<V>(z: Zipper<V>)
    requires |z.path| > 0
  {
    if z.focus.Nil? then Attach(z.focus, z.path[0]).left.Nil? else z.path[0].dir == Left
  }

  /** Inside the loop the sibling is present, so `sib.color` at line 424 never dereferences nil,
      and Go's pointer test picks the side the position really is on even when `n` is nil. */
  lemma SiblingPresent<V>(z: Zipper<V>)
    requires DeleteInv(z) && |z.path| > 0
    ensures z.path[0].sibling.Node?
    ensures GoTakesLeftBranch(z) <==> z.path[0].dir == Left
  {
    assert BlackHeight(z.path[0].sibling) > 0;
  }

  // ---------------------------------------------------------------------------------------
  // The cases for `n` a left child (lines 422-450)

  /** Case 1: red sibling turns black, parent red, rotate the parent left; the new sibling is
      the old sibling's left child. */
  function Case1Left<V>(z: Zipper<V>): Zipper<V>
    requires |z.path| > 0 && z.path[0].dir == Left && z.path[0].sibling.Node?
  {
    var z1 := PaintSibling(z, 0, Black);
    var z2 := PaintAncestor(z1, 0, Red);
    Down(Down(RotateLeftAt(Up(z2)), Left), Left)
  }

  /** Case 2 (either side): sibling turns red and `n` climbs to the parent. */
  function Case2<V>(z: Zipper<V>): Zipper<V>
    requires |z.path| > 0 && z.path[0].sibling.Node?
  {
    Up(PaintSibling(z, 0, Red))
  }

  /** Case 3: near (left) child of the sibling turns black, sibling red, rotate the sibling
      right. */
  function Case3Left<V>(z: Zipper<V>): Zipper<V>
    requires |z.path| > 0 && z.path[0].sibling.Node? && z.path[0].sibling.left.Node?
  {
    var s := z.path[0].sibling;
    WithSibling(z, RotateRight(s.(color := Red, left := s.left.(color := Black))))
  }

  /** Case 4: sibling takes the parent's colour, parent and far (right) child turn black,
      rotate the parent left, and `n` jumps to the root. */
  function Case4Left<V>(z: Zipper<V>): Zipper<V>
    requires |z.path| > 0 && z.path[0].dir == Left && z.path[0].sibling.Node? && z.path[0].sibling.right.Node?
  {
    var p, s := z.path[0], z.path[0].sibling;
    var z1 := WithSibling(z, s.(color := p.color, right := s.right.(color := Black)));
    var z2 := PaintAncestor(z1, 0, Black);
    ToRoot(RotateLeftAt(Up(z2)))
  }

  // ---------------------------------------------------------------------------------------
  // The mirrored cases for `n` a right child (lines 451-480)

  function Case1Right<V>(z: Zipper<V>): Zipper<V>
    requires |z.path| > 0 && z.path[0].dir == Right && z.path[0].sibling.Node?
  {
    var z1 := PaintSibling(z, 0, Black);
    var z2 := PaintAncestor(z1, 0, Red);
    Down(Down(RotateRightAt(Up(z2)), Right), Right)
  }

  function Case3Right<V>(z: Zipper<V>): Zipper<V>
    requires |z.path| > 0 && z.path[0].sibling.Node? && z.path[0].sibling.right.Node?
  {
    var s := z.path[0].sibling;
    WithSibling(z, RotateLeft(s.(color := Red, right := s.right.(color := Black))))
  }

  function Case4Right<V>(z: Zipper<V>): Zipper<V>
    requires |z.path| > 0 && z.path[0].dir == Right && z.path[0].sibling.Node? && z.path[0].sibling.left.Node?
  {
    var p, s := z.path[0], z.path[0].sibling;
    var z1 := WithSibling(z, s.(color := p.color, left := s.left.(color := Black)));
    var z2 := PaintAncestor(z1, 0, Black);
    ToRoot(RotateRightAt(Up(z2)))
  }

  // ---------------------------------------------------------------------------------------
  // Each case keeps the invariant

  /** A black node of black height `h + 2` whose two children both have height `h + 1`, the
      near one black, can be split into a red frame over a black one. */
  lemma FitsSplit<V>(d: Dir, k1: int, v1: V, near: Tree<V>, k2: int, v2: V, far: Tree<V>,
                     rest: seq<Frame<V>>, h: nat)
    requires Sound(near) && BlackHeight(near) == h + 1 && ColorOf(near) == Black
    requires Sound(far) && BlackHeight(far) == h + 1
    requires Fits(rest, h + 2, Black)
    ensures Fits([Frame(d, Red, k1, v1, near), Frame(d, Black, k2, v2, far)] + rest, h + 1, Black)
  {
    var f1 := Frame(d, Black, k2, v2, far);
    assert ([f1] + rest)[1..] == rest;
    assert Fits([f1] + rest, h + 1, Red);
    assert ([Frame(d, Red, k1, v1, near), f1] + rest)[1..] == [f1] + rest;
  }

  /** A node with equal-height sound children has equal heights everywhere. */
  lemma SameHeightNode<V>(c: Color, l: Tree<V>, k: int, v: V, r: Tree<V>)
    requires HasSameBlackHeight(l) && HasSameBlackHeight(r) && BlackHeight(l) == BlackHeight(r)
    ensures HasSameBlackHeight(Node(c, l, k, v, r))
    ensures BlackHeight(Node(c, l, k, v, r)) == Weight(c) + BlackHeight(l)
  {
  }

  lemma Case1LeftShape<V>(z: Zipper<V>)
    requires |z.path| > 0 && z.path[0].dir == Left && z.path[0].sibling.Node?
    ensures var p, s := z.path[0], z.path[0].sibling;
      Case1Left(z) == Zipper(z.focus, [Frame(Left, Red, p.key, p.value, s.left), Frame(Left, Black, s.key, s.value, s.right)] + z.path[1..])
  {
  }

  lemma Case1RightShape<V>(z: Zipper<V>)
    requires |z.path| > 0 && z.path[0].dir == Right && z.path[0].sibling.Node?
    ensures var p, s := z.path[0], z.path[0].sibling;
      Case1Right(z) == Zipper(z.focus, [Frame(Right, Red, p.key, p.value, s.right), Frame(Right, Black, s.key, s.value, s.left)] + z.path[1..])
  {
  }

  /** The case-1 moves only recolour and rotate, so the in-order entries are unchanged. */
  lemma Case1LeftEntries<V>(z: Zipper<V>)
    requires |z.path| > 0 && z.path[0].dir == Left && z.path[0].sibling.Node?
    ensures Entries(Root(Case1Left(z))) == Entries(Root(z))
  {
    var z2 := PaintAncestor(PaintSibling(z, 0, Black), 0, Red);
    var z4 := RotateLeftAt(Up(z2));
    assert Entries(Root(z2)) == Entries(Root(z));
    assert Entries(Root(z4)) == Entries(Root(z));
    assert Root(Down(Down(z4, Left), Left)) == Root(z4);
  }

  lemma Case1RightEntries<V>(z: Zipper<V>)
    requires |z.path| > 0 && z.path[0].dir == Right && z.path[0].sibling.Node?
    ensures Entries(Root(Case1Right(z))) == Entries(Root(z))
  {
    var z2 := PaintAncestor(PaintSibling(z, 0, Black), 0, Red);
    var z4 := RotateRightAt(Up(z2));
    assert Entries(Root(z2)) == Entries(Root(z));
    assert Entries(Root(z4)) == Entries(Root(z));
    assert Root(Down(Down(z4, Right), Right)) == Root(z4);
  }

  /** The frames case 1 leaves above `n`: the old parent, now red, over the sibling's near
      child, under the old sibling, now black, over its far child. They keep the invariant. */
  lemma RedSiblingFits<V>(z: Zipper<V>, d: Dir, near: Tree<V>, far: Tree<V>)
    requires DeleteInv(z) && Deficit(z)
    requires z.path[0].sibling.Node? && z.path[0].sibling.color == Red
    requires var s := z.path[0].sibling;
      (near == s.left && far == s.right) || (near == s.right && far == s.left)
    ensures var p, s := z.path[0], z.path[0].sibling;
      DeleteInv(Zipper(z.focus, [Frame(d, Red, p.key, p.value, near), Frame(d, Black, s.key, s.value, far)] + z.path[1..]))
  {
    var n, p, s, rest := z.focus, z.path[0], z.path[0].sibling, z.path[1..];
    var h := BlackHeight(n);
    var path' := [Frame(d, Red, p.key, p.value, near), Frame(d, Black, s.key, s.value, far)] + rest;
    assert Sound(s) && BlackHeight(s) == h + 1;
    assert p.color == Black;
    assert Fits(rest, h + 2, Black);
    RedNodeChildren(s);
    FitsSplit(d, p.key, p.value, near, s.key, s.value, far, rest, h);
    if |rest| > 0 {
      assert path'[|path'| - 1] == z.path[|z.path| - 1];
    }
  }

  /** The children of a sound red node are black, sound, and as high as the node. */
  lemma RedNodeChildren<V>(s: Tree<V>)
    requires s.Node? && s.color == Red && Sound(s)
    ensures ColorOf(s.left) == Black && ColorOf(s.right) == Black
    ensures Sound(s.left) && Sound(s.right)
    ensures BlackHeight(s.left) == BlackHeight(s) && BlackHeight(s.right) == BlackHeight(s)
  {
  }

  lemma Case1LeftPreserves<V>(z: Zipper<V>)
    requires DeleteInv(z) && Deficit(z) && z.path[0].dir == Left
    requires z.path[0].sibling.Node? && z.path[0].sibling.color == Red
    ensures var z1 := Case1Left(z);
      DeleteInv(z1) && Deficit(z1) && z1.focus == z.focus && |z1.path| == |z.path| + 1
      && z1.path[0].dir == Left && z1.path[0].color == Red
      && z1.path[0].sibling.Node? && z1.path[0].sibling.color == Black
      && Entries(Root(z1)) == Entries(Root(z))
  {
    var s := z.path[0].sibling;
    Case1LeftShape(z);
    Case1LeftEntries(z);
    RedSiblingFits(z, Left, s.left, s.right);
    assert s.left.Node?;
  }

  lemma Case1RightPreserves<V>(z: Zipper<V>)
    requires DeleteInv(z) && Deficit(z) && z.path[0].dir == Right
    requires z.path[0].sibling.Node? && z.path[0].sibling.color == Red
    ensures var z1 := Case1Right(z);
      DeleteInv(z1) && Deficit(z1) && z1.focus == z.focus && |z1.path| == |z.path| + 1
      && z1.path[0].dir == Right && z1.path[0].color == Red
      && z1.path[0].sibling.Node? && z1.path[0].sibling.color == Black
      && Entries(Root(z1)) == Entries(Root(z))
  {
    var s := z.path[0].sibling;
    Case1RightShape(z);
    Case1RightEntries(z);
    RedSiblingFits(z, Right, s.right, s.left);
    assert s.right.Node?;
  }

  lemma Case2Preserves<V>(z: Zipper<V>)
    requires DeleteInv(z) && Deficit(z) && z.path[0].sibling.Node? && z.path[0].sibling.color == Black
    requires ColorOf(z.path[0].sibling.left) == Black && ColorOf(z.path[0].sibling.right) == Black
    ensures var z1 := Case2(z);
      DeleteInv(z1) && |z1.path| == |z.path| - 1 && ColorOf(z1.focus) == z.path[0].color
      && Entries(Root(z1)) == Entries(Root(z))
  {
    var n, p, s, rest := z.focus, z.path[0], z.path[0].sibling, z.path[1..];
    var h := BlackHeight(n);
    var pn := Attach(n, p.(sibling := s.(color := Red)));
    assert Case2(z) == Zipper(pn, rest);
    assert BlackHeight(s.(color := Red)) == h;
    assert BlackHeight(pn) == h + Weight(p.color);
    assert Fits(rest, h + 1 + Weight(p.color), p.color);
    FitsAsBlack(rest, h + 1 + Weight(p.color), p.color);
    if |rest| > 0 {
      assert rest[|rest| - 1] == z.path[|z.path| - 1];
    }
  }

  lemma Case3LeftPreserves<V>(z: Zipper<V>)
    requires DeleteInv(z) && Deficit(z) && z.path[0].sibling.Node? && z.path[0].sibling.color == Black
    requires ColorOf(z.path[0].sibling.left) == Red && ColorOf(z.path[0].sibling.right) == Black
    ensures var z1 := Case3Left(z);
      DeleteInv(z1) && Deficit(z1) && z1.focus == z.focus && |z1.path| == |z.path|
      && z1.path[0].dir == z.path[0].dir && z1.path[0].color == z.path[0].color
      && z1.path[0].sibling.Node? && z1.path[0].sibling.color == Black
      && ColorOf(z1.path[0].sibling.right) == Red
      && Entries(Root(z1)) == Entries(Root(z))
  {
    var n, p, s, rest := z.focus, z.path[0], z.path[0].sibling, z.path[1..];
    var h := BlackHeight(n);
    var sl := s.left;
    var s' := Node(Black, sl.left, sl.key, sl.value, Node(Red, sl.right, s.key, s.value, s.right));
    var path' := [p.(sibling := s')] + rest;
    assert Case3Left(z) == Zipper(n, path');
    assert path'[1..] == rest;
    assert Sound(s) && BlackHeight(s) == h + 1;
    assert BlackHeight(sl) == h && BlackHeight(s.right) == h;
    assert Sound(sl) && Sound(s.right);
    assert BlackHeight(sl.left) == h && BlackHeight(sl.right) == h;
    assert Sound(Node(Red, sl.right, s.key, s.value, s.right));
    assert Sound(s');
    assert BlackHeight(s') == h + 1;
    if |rest| > 0 {
      assert path'[|path'| - 1] == z.path[|z.path| - 1];
    }
  }

  lemma Case3RightPreserves<V>(z: Zipper<V>)
    requires DeleteInv(z) && Deficit(z) && z.path[0].sibling.Node? && z.path[0].sibling.color == Black
    requires ColorOf(z.path[0].sibling.right) == Red && ColorOf(z.path[0].sibling.left) == Black
    ensures var z1 := Case3Right(z);
      DeleteInv(z1) && Deficit(z1) && z1.focus == z.focus && |z1.path| == |z.path|
      && z1.path[0].dir == z.path[0].dir && z1.path[0].color == z.path[0].color
      && z1.path[0].sibling.Node? && z1.path[0].sibling.color == Black
      && ColorOf(z1.path[0].sibling.left) == Red
      && Entries(Root(z1)) == Entries(Root(z))
  {
    var n, p, s, rest := z.focus, z.path[0], z.path[0].sibling, z.path[1..];
    var h := BlackHeight(n);
    var sr := s.right;
    var s' := Node(Black, Node(Red, s.left, s.key, s.value, sr.left), sr.key, sr.value, sr.right);
    var path' := [p.(sibling := s')] + rest;
    assert Case3Right(z) == Zipper(n, path');
    assert path'[1..] == rest;
    assert Sound(s) && BlackHeight(s) == h + 1;
    assert BlackHeight(sr) == h && BlackHeight(s.left) == h;
    assert Sound(sr) && Sound(s.left);
    assert BlackHeight(sr.left) == h && BlackHeight(sr.right) == h;
    assert Sound(Node(Red, s.left, s.key, s.value, sr.left));
    assert Sound(s');
    assert BlackHeight(s') == h + 1;
    if |rest| > 0 {
      assert path'[|path'| - 1] == z.path[|z.path| - 1];
    }
  }

  lemma Case4LeftPreserves<V>(z: Zipper<V>)
    requires DeleteInv(z) && Deficit(z) && z.path[0].dir == Left
    requires z.path[0].sibling.Node? && z.path[0].sibling.color == Black
    requires ColorOf(z.path[0].sibling.right) == Red
    ensures var z1 := Case4Left(z);
      DeleteInv(z1) && z1.path == [] && Entries(Root(z1)) == Entries(Root(z))
  {
    var n, p, s, rest := z.focus, z.path[0], z.path[0].sibling, z.path[1..];
    var h := BlackHeight(n);
    var x := Node(p.color, Node(Black, n, p.key, p.value, s.left), s.key, s.value, s.right.(color := Black));
    assert Case4Left(z) == Zipper(Plug(x, rest), []);
    assert Sound(s) && BlackHeight(s) == h + 1;
    assert BlackHeight(s.left) == h && BlackHeight(s.right) == h;
    assert Sound(s.left) && Sound(s.right);
    assert !ContainsConsecutiveRedNodes(n);
    SameHeightNode(Black, x.left.left, x.left.key, x.left.value, x.left.right);
    SameHeightNode(Black, x.right.left, x.right.key, x.right.value, x.right.right);
    SameHeightNode(p.color, x.left, s.key, s.value, x.right);
    assert Sound(x);
    assert BlackHeight(x) == h + 1 + Weight(p.color);
    PlugSound(x, rest);
  }

  lemma Case4RightPreserves<V>(z: Zipper<V>)
    requires DeleteInv(z) && Deficit(z) && z.path[0].dir == Right
    requires z.path[0].sibling.Node? && z.path[0].sibling.color == Black
    requires ColorOf(z.path[0].sibling.left) == Red
    ensures var z1 := Case4Right(z);
      DeleteInv(z1) && z1.path == [] && Entries(Root(z1)) == Entries(Root(z))
  {
    var n, p, s, rest := z.focus, z.path[0], z.path[0].sibling, z.path[1..];
    var h := BlackHeight(n);
    var x := Node(p.color, s.left.(color := Black), s.key, s.value, Node(Black, s.right, p.key, p.value, n));
    assert Case4Right(z) == Zipper(Plug(x, rest), []);
    assert Sound(s) && BlackHeight(s) == h + 1;
    assert BlackHeight(s.left) == h && BlackHeight(s.right) == h;
    assert Sound(s.left) && Sound(s.right);
    assert !ContainsConsecutiveRedNodes(n);
    SameHeightNode(Black, x.left.left, x.left.key, x.left.value, x.left.right);
    SameHeightNode(Black, x.right.left, x.right.key, x.right.value, x.right.right);
    SameHeightNode(p.color, x.left, s.key, s.value, x.right);
    assert Sound(x);
    assert BlackHeight(x) == h + 1 + Weight(p.color);
    PlugSound(x, rest);
  }

  // ---------------------------------------------------------------------------------------
  // The loop

  /** One iteration of the `deleteFixup` loop body (lines 422-480), on the side Go's pointer
      test `n == parent.left` picks. */
  function DeleteStep<V>(z: Zipper<V>): (r: Zipper<V>)
    requires DeleteInv(z) && Deficit(z)
    ensures DeleteInv(r) && Measure(r) < Measure(z)
    ensures Entries(Root(r)) == Entries(Root(z))
  {
    SiblingPresent(z);
    if GoTakesLeftBranch(z) then StepLeft(z) else StepRight(z)
  }

  /** Lines 422-450: `n` is a left child; case 1 first turns a red sibling black. */
  function StepLeft<V>(z: Zipper<V>): (r: Zipper<V>)
    requires DeleteInv(z) && Deficit(z) && z.path[0].dir == Left && z.path[0].sibling.Node?
    ensures DeleteInv(r) && Measure(r) < Measure(z)
    ensures Entries(Root(r)) == Entries(Root(z))
  {
    if z.path[0].sibling.color == Red then
      Case1LeftPreserves(z);
      BlackSiblingLeft(Case1Left(z))
    else
      BlackSiblingLeft(z)
  }

  /** Lines 431-450: the sibling is black; case 2, or case 3 when needed and then case 4. The
      result's measure is below the path length, or at it when the parent is black. */
  function BlackSiblingLeft<V>(z: Zipper<V>): (r: Zipper<V>)
    requires DeleteInv(z) && Deficit(z) && z.path[0].dir == Left
    requires z.path[0].sibling.Node? && z.path[0].sibling.color == Black
    ensures DeleteInv(r) && Measure(r) < |z.path| + Weight(z.path[0].color)
    ensures Entries(Root(r)) == Entries(Root(z))
  {
    var s := z.path[0].sibling;
    if ColorOf(s.left) == Black && ColorOf(s.right) == Black then
      Case2Preserves(z);
      Case2(z)
    else if ColorOf(s.right) == Black then
      Case3LeftPreserves(z);
      FarRedLeft(Case3Left(z))
    else
      FarRedLeft(z)
  }

  /** Lines 444-449: case 4, which ends the loop at the root. */
  function FarRedLeft<V>(z: Zipper<V>): (r: Zipper<V>)
    requires DeleteInv(z) && Deficit(z) && z.path[0].dir == Left
    requires z.path[0].sibling.Node? && z.path[0].sibling.color == Black
    requires ColorOf(z.path[0].sibling.right) == Red
    ensures DeleteInv(r) && Measure(r) < |z.path| + Weight(z.path[0].color)
    ensures Entries(Root(r)) == Entries(Root(z))
  {
    Case4LeftPreserves(z);
    assert |z.path| == 1 ==> z.path[0].color == Black;
    Case4Left(z)
  }

  /** Lines 451-480: `n` is a right child. */
  function StepRight<V>(z: Zipper<V>): (r: Zipper<V>)
    requires DeleteInv(z) && Deficit(z) && z.path[0].dir == Right && z.path[0].sibling.Node?
    ensures DeleteInv(r) && Measure(r) < Measure(z)
    ensures Entries(Root(r)) == Entries(Root(z))
  {
    if z.path[0].sibling.color == Red then
      Case1RightPreserves(z);
      BlackSiblingRight(Case1Right(z))
    else
      BlackSiblingRight(z)
  }

  function BlackSiblingRight<V>(z: Zipper<V>): (r: Zipper<V>)
    requires DeleteInv(z) && Deficit(z) && z.path[0].dir == Right
    requires z.path[0].sibling.Node? && z.path[0].sibling.color == Black
    ensures DeleteInv(r) && Measure(r) < |z.path| + Weight(z.path[0].color)
    ensures Entries(Root(r)) == Entries(Root(z))
  {
    var s := z.path[0].sibling;
    if ColorOf(s.left) == Black && ColorOf(s.right) == Black then
      Case2Preserves(z);
      Case2(z)
    else if ColorOf(s.left) == Black then
      Case3RightPreserves(z);
      FarRedRight(Case3Right(z))
    else
      FarRedRight(z)
  }

  function FarRedRight<V>(z: Zipper<V>): (r: Zipper<V>)
    requires DeleteInv(z) && Deficit(z) && z.path[0].dir == Right
    requires z.path[0].sibling.Node? && z.path[0].sibling.color == Black
    requires ColorOf(z.path[0].sibling.left) == Red
    ensures DeleteInv(r) && Measure(r) < |z.path| + Weight(z.path[0].color)
    ensures Entries(Root(r)) == Entries(Root(z))
  {
    Case4RightPreserves(z);
    assert |z.path| == 1 ==> z.path[0].color == Black;
    Case4Right(z)
  }

  /** rbt.go `deleteFixup`: run the loop, then paint `n` black if it is present (lines
      483-485). The result is a sound tree with a black root and the same in-order walk. */
  function DeleteFixup<V>(z: Zipper<V>): (t: Tree<V>)
    requires DeleteInv(z)
    ensures Sound(t) && ColorOf(t) == Black
    ensures Entries(t) == Entries(Root(z))
    decreases Measure(z)
  {
    if Deficit(z) then DeleteFixup(DeleteStep(z))
    else
      FixupEnd(z);
      Root(Blacken(z))
  }

  /** Paint the node at the position black, if there is one. */
  function Blacken<V>(z: Zipper<V>): (r: Zipper<V>)
    ensures r.path == z.path && ColorOf(r.focus) == Black
    ensures r.focus.Nil? <==> z.focus.Nil?
    ensures Entries(r.focus) == Entries(z.focus)
  {
    if z.focus.Node? then Zipper(z.focus.(color := Black), z.path) else z
  }

  /** When the loop stops, painting `n` black leaves a sound tree with a black root. */
  lemma FixupEnd<V>(z: Zipper<V>)
    requires DeleteInv(z) && !Deficit(z)
    ensures Sound(Root(Blacken(z))) && ColorOf(Root(Blacken(z))) == Black
    ensures Entries(Root(Blacken(z))) == Entries(Root(z))
  {
    var b := Blacken(z);
    PlugEntries(z.focus, z.path);
    PlugEntries(b.focus, b.path);
    RootColor(b.focus, b.path);
    if z.focus.Node? {
      BlackenSound(z.focus);
      PlugSound(b.focus, b.path);
    } else {
      PlugSound(b.focus, b.path);
    }
  }

  // ---------------------------------------------------------------------------------------
  // Unlinking a node (rbt.go `delete`, lines 373-414)

  /** Lines 377-381: the node itself when it has at most one child, else the minimum of its
      right subtree, whose key and value are first copied into the node (lines 406-409; the
      copy does not depend on the unlinking, since the two nodes differ). */
  function SpliceTarget<V>(z: Zipper<V>): (zy: Zipper<V>)
    requires z.focus.Node?
    ensures zy.focus.Node? && (zy.focus.left.Nil? || zy.focus.right.Nil?)
    ensures z.focus.left.Nil? || z.focus.right.Nil? ==> zy == z
    ensures z.focus.left.Node? && z.focus.right.Node? ==>
      zy.focus == Minimum(z.focus.right) && zy.focus.left.Nil? &&
      Root(zy) == Plug(z.focus.(key := zy.focus.key, value := zy.focus.value), z.path)
    ensures Pre(zy.path) + Entries(zy.focus.left) + Entries(zy.focus.right) + Post(zy.path)
         == Pre(z.path) + Entries(z.focus.left) + Entries(z.focus.right) + Post(z.path)
    ensures Sound(Root(z)) ==> Sound(Root(zy))
    ensures ColorOf(Root(zy)) == ColorOf(Root(z))
  {
    var node := z.focus;
    if node.left.Nil? || node.right.Nil? then z
    else
      var m := Minimum(node.right);
      var node' := node.(key := m.key, value := m.value);
      var z1 := Down(Zipper(node', z.path), Right);
      SpliceEntries(z, m, z1);
      CopySound(z, m.key, m.value);
      DescendMin(z1)
  }

  /** After the copy, the walk from the successor's position, without the successor, is the
      walk from the node's position without the node. */
  lemma SpliceEntries<V>(z: Zipper<V>, m: Tree<V>, z1: Zipper<V>)
    requires z.focus.Node? && z.focus.left.Node? && z.focus.right.Node?
    requires m == Minimum(z.focus.right)
    requires z1 == Down(Zipper(z.focus.(key := m.key, value := m.value), z.path), Right)
    ensures var zy := DescendMin(z1);
      Pre(zy.path) + Entries(zy.focus.left) + Entries(zy.focus.right) + Post(zy.path)
      == Pre(z.path) + Entries(z.focus.left) + Entries(z.focus.right) + Post(z.path)
  {
    var node := z.focus;
    var node' := node.(key := m.key, value := m.value);
    var zy := DescendMin(z1);
    var me := Entry(m.key, m.value);
    var l, r := node.left, node.right;
    PlugEntries(node', z.path);
    PlugEntries(m, zy.path);
    var pre := Pre(z.path) + Entries(l) + [me];
    assert z1.path[1..] == z.path;
    assert Pre(zy.path) == pre;
    assert Root(zy) == Plug(node', z.path);
    assert Entries(node') == Entries(l) + [me] + Entries(r);
    assert Entries(m) == [me] + Entries(m.right);
    assert Entries(zy.focus.left) == [];
    DropCommonHead(Pre(z.path), Entries(l), me, Entries(m.right), Post(zy.path), Entries(r), Post(z.path));
  }

  /** Sequence algebra for `SpliceEntries`: the copied entry appears twice in the walk read at
      the successor, once in the walk read at the node, and dropping it from the successor's
      place gives the walk without the node. */
  lemma DropCommonHead<T>(p: seq<T>, q: seq<T>, e: T, a: seq<T>, post1: seq<T>, b: seq<T>, post2: seq<T>)
    requires (p + q + [e]) + ([e] + a) + post1 == p + (q + [e] + b) + post2
    requires |b| > 0 && b[0] == e
    ensures (p + q + [e]) + [] + a + post1 == p + q + b + post2
  {
    var pre := p + q + [e];
    var s1, s2 := pre + ([e] + a) + post1, p + (q + [e] + b) + post2;
    var lhs, rhs := pre + [] + a + post1, p + q + b + post2;
    assert |lhs| == |rhs|;
    forall i | 0 <= i < |lhs| ensures lhs[i] == rhs[i] {
      if i >= |pre| {
        assert lhs[i] == s1[i + 1];
        assert rhs[i] == s2[i + 1];
      }
    }
  }

  /** Copying a key and value into a node changes no colour and no black height. */
  lemma CopySound<V>(z: Zipper<V>, k: int, v: V)
    requires z.focus.Node?
    ensures var z' := Zipper(z.focus.(key := k, value := v), z.path);
      (Sound(Root(z)) ==> Sound(Root(z'))) && ColorOf(Root(z')) == ColorOf(Root(z))
  {
    var node' := z.focus.(key := k, value := v);
    RootColor(z.focus, z.path);
    RootColor(node', z.path);
    if Sound(Root(z)) {
      SoundInContext(z.focus, z.path);
      assert BlackHeight(node') == BlackHeight(z.focus);
      PlugSound(node', z.path);
    }
  }

  /** Lines 383-414 after the choice of `y`: link `y`'s only child `x` (possibly nil) in its
      place and, when `y` was black, repair the black heights with `deleteFixup`. */
  function Unlink<V>(zy: Zipper<V>): (t: Tree<V>)
    requires zy.focus.Node? && (zy.focus.left.Nil? || zy.focus.right.Nil?)
    requires Sound(Root(zy)) && ColorOf(Root(zy)) == Black
    ensures Sound(t) && ColorOf(t) == Black
    ensures Entries(t) == Pre(zy.path) + Entries(zy.focus.left) + Entries(zy.focus.right) + Post(zy.path)
  {
    var zx := Transplant(zy, OnlyChild(zy.focus));
    UnlinkWalk(zy);
    if zy.focus.color == Black then
      UnlinkBlack(zy);
      DeleteFixup(zx)
    else
      UnlinkRed(zy);
      Root(zx)
  }

  /** Lines 384-388: `x` is `y`'s left child if present, else its right child (maybe nil). */
  function OnlyChild<V>(y: Tree<V>): (x: Tree<V>)
    requires y.Node? && (y.left.Nil? || y.right.Nil?)
    ensures Entries(x) == Entries(y.left) + Entries(y.right)
    ensures x == y.left || x == y.right
  {
    if y.left.Node? then y.left else y.right
  }

  /** Linking `x` in `y`'s place drops exactly `y`'s entry from the walk. */
  lemma UnlinkWalk<V>(zy: Zipper<V>)
    requires zy.focus.Node? && (zy.focus.left.Nil? || zy.focus.right.Nil?)
    ensures Entries(Root(Transplant(zy, OnlyChild(zy.focus))))
         == Pre(zy.path) + Entries(zy.focus.left) + Entries(zy.focus.right) + Post(zy.path)
  {
    var y := zy.focus;
    Regroup(Pre(zy.path), Entries(y.left), [], Entries(y.right), Post(zy.path));
  }

  /** A black `y` leaves its position one black node short: the `deleteFixup` invariant. */
  lemma UnlinkBlack<V>(zy: Zipper<V>)
    requires zy.focus.Node? && (zy.focus.left.Nil? || zy.focus.right.Nil?) && zy.focus.color == Black
    requires Sound(Root(zy)) && ColorOf(Root(zy)) == Black
    ensures DeleteInv(Transplant(zy, OnlyChild(zy.focus)))
  {
    var y := zy.focus;
    var x := OnlyChild(y);
    SoundInContext(y, zy.path);
    assert Sound(x);
    if x.Node? {
      assert !ContainsConsecutiveRedNodes(x.left) && !ContainsConsecutiveRedNodes(x.right);
    }
    RootColor(y, zy.path);
  }

  /** A red `y` has no children, so linking nil in its place keeps every black height. */
  lemma UnlinkRed<V>(zy: Zipper<V>)
    requires zy.focus.Node? && (zy.focus.left.Nil? || zy.focus.right.Nil?) && zy.focus.color == Red
    requires Sound(Root(zy)) && ColorOf(Root(zy)) == Black
    ensures var zx := Transplant(zy, OnlyChild(zy.focus));
      Sound(Root(zx)) && ColorOf(Root(zx)) == Black
  {
    var y := zy.focus;
    var x := OnlyChild(y);
    SoundInContext(y, zy.path);
    assert x.Nil?;
    FitsAsBlack(zy.path, 0, Red);
    PlugSound(x, zy.path);
    RootColor(y, zy.path);
    RootColor(x, zy.path);
  }

  /** rbt.go `delete` on the node at the position: the result is a sound tree with a black
      root whose in-order walk is the old one without the node's entry. */
  function Delete<V>(z: Zipper<V>): (t: Tree<V>)
    requires z.focus.Node? && Sound(Root(z)) && ColorOf(Root(z)) == Black
    ensures Sound(t) && ColorOf(t) == Black
    ensures Entries(t) == Pre(z.path) + Entries(z.focus.left) + Entries(z.focus.right) + Post(z.path)
  {
    Unlink(SpliceTarget(z))
  }
}
