/** rbt.go `insertFixup` (lines 328-371): after a red leaf is attached, climb while the current
    node's parent is red, recolouring when the uncle is red and rotating when it is black. */
module Insertion {
  import opened Trees
  import opened Validator
  import opened Zippers
  import opened Fitting

  /** Loop invariant: `n` is present and red, its subtree is sound, the tree above is sound
      except that `n`'s parent may be red as well, and the root is black unless `n` is it. */
  predicate InsertInv<V>(z: Zipper<V>)
  {
    z.focus.Node? && z.focus.color == Red && Sound(z.focus) &&
    Fits(z.path, BlackHeight(z.focus), Black) &&
    (|z.path| > 0 ==> z.path[|z.path| - 1].color == Black)
  }

  /** The loop guard `n != tree.root && n.parent.color == red`. */
  predicate RedParent<V>(z: Zipper<V>)
  {
    |z.path| > 0 && z.path[0].color == Red
  }

  /** While the loop runs the grandparent exists and is black, so the
      `panic("parent has no grandparent")` branch is never taken. */
  lemma ParentHasGrandparent<V>(z: Zipper<V>)
    requires InsertInv(z) && RedParent(z)
    ensures |z.path| >= 2 && z.path[1].color == Black && Grandparent(z).Node?
  {
    assert z.path[1..][0] == z.path[1];
    assert Fits(z.path[1..], BlackHeight(z.focus), Red);
  }

  /** Uncle red: parent and uncle turn black, the grandparent red, and `n` moves to the
      grandparent (the same steps on either side, since the uncle is the grandparent's other
      child in both cases). */
  function RecolorUp<V>(z: Zipper<V>): Zipper<V>
    requires |z.path| >= 2 && z.path[1].sibling.Node?
  {
    var z1 := PaintAncestor(z, 0, Black);
    var z2 := PaintSibling(z1, 1, Black);
    var z3 := PaintAncestor(z2, 1, Red);
    Up(Up(z3))
  }

  /** Uncle black, parent a left child: if `n` is an inner (right) grandchild, `n` moves to its
      parent and rotates left; then the parent turns black, the grandparent red, and the
      grandparent rotates right. `n` stays at the node Go's `n` points to. */
  function RotateCaseLeft<V>(z: Zipper<V>): Zipper<V>
    requires |z.path| >= 2 && z.focus.Node? && z.path[1].dir == Left
  {
    var z1 := if z.path[0].dir == Right then Down(RotateLeftAt(Up(z)), Left) else z;
    assert z1.path[1..] == z.path[1..];
    assert z1.path[1] == z.path[1];
    var z2 := PaintAncestor(PaintAncestor(z1, 0, Black), 1, Red);
    var g := Up(Up(z2));
    Down(RotateRightAt(g), Left)
  }

  /** The mirror image of `RotateCaseLeft` for a parent that is a right child. */
  function RotateCaseRight<V>(z: Zipper<V>): Zipper<V>
    requires |z.path| >= 2 && z.focus.Node? && z.path[1].dir == Right
  {
    var z1 := if z.path[0].dir == Left then Down(RotateRightAt(Up(z)), Right) else z;
    assert z1.path[1..] == z.path[1..];
    assert z1.path[1] == z.path[1];
    var z2 := PaintAncestor(PaintAncestor(z1, 0, Black), 1, Red);
    var g := Up(Up(z2));
    Down(RotateLeftAt(g), Right)
  }

  /** One iteration of the `insertFixup` loop body. */
  function InsertStep<V>(z: Zipper<V>): (r: Zipper<V>)
    requires InsertInv(z) && RedParent(z)
    ensures InsertInv(r) && |r.path| < |z.path|
    ensures Entries(Root(r)) == Entries(Root(z))
  {
    ParentHasGrandparent(z);
    var g := z.path[1];
    if g.dir == Left then
      if ColorOf(g.sibling) == Red then
        RecolorPreserves(z);
        RecolorUp(z)
      else
        RotateLeftPreserves(z);
        RotateCaseLeft(z)
    else
      if ColorOf(g.sibling) == Red then
        RecolorPreserves(z);
        RecolorUp(z)
      else
        RotateRightPreserves(z);
        RotateCaseRight(z)
  }

  lemma RecolorPreserves<V>(z: Zipper<V>)
    requires InsertInv(z) && RedParent(z) && |z.path| >= 2 && ColorOf(z.path[1].sibling) == Red
    ensures InsertInv(RecolorUp(z)) && |RecolorUp(z).path| == |z.path| - 2
    ensures Entries(Root(RecolorUp(z))) == Entries(Root(z))
  {
    var n, p, g, rest := z.focus, z.path[0], z.path[1], z.path[2..];
    var h := BlackHeight(n);
    var u := g.sibling;
    assert z.path[1..][0] == g && z.path[1..][1..] == rest;
    assert Fits(z.path[1..], h, Red);
    assert Fits(rest, h + 1, Black);
    var pn := Attach(n, p.(color := Black));
    var gn := Attach(pn, g.(color := Red, sibling := u.(color := Black)));
    assert RecolorUp(z) == Zipper(gn, rest);
    assert Sound(u) && BlackHeight(u) == h;
    assert Sound(u.(color := Black)) && BlackHeight(u.(color := Black)) == h + 1;
    assert Sound(pn);
    assert Sound(gn);
    assert BlackHeight(pn) == h + 1;
    assert BlackHeight(gn) == h + 1;
    if |rest| > 0 {
      assert rest[|rest| - 1] == z.path[|z.path| - 1];
    }
  }

  lemma RotateLeftPreserves<V>(z: Zipper<V>)
    requires InsertInv(z) && RedParent(z) && |z.path| >= 2
    requires z.path[1].dir == Left && ColorOf(z.path[1].sibling) == Black
    ensures InsertInv(RotateCaseLeft(z)) && !RedParent(RotateCaseLeft(z))
    ensures |RotateCaseLeft(z).path| == |z.path| - 1
    ensures Entries(Root(RotateCaseLeft(z))) == Entries(Root(z))
  {
    if z.path[0].dir == Right {
      InnerLeftPreserves(z);
      var z1 := Down(RotateLeftAt(Up(z)), Left);
      OuterLeftPreserves(z1);
      assert RotateCaseLeft(z) == RotateCaseLeft(z1);
    } else {
      OuterLeftPreserves(z);
    }
  }

  lemma RotateRightPreserves<V>(z: Zipper<V>)
    requires InsertInv(z) && RedParent(z) && |z.path| >= 2
    requires z.path[1].dir == Right && ColorOf(z.path[1].sibling) == Black
    ensures InsertInv(RotateCaseRight(z)) && !RedParent(RotateCaseRight(z))
    ensures |RotateCaseRight(z).path| == |z.path| - 1
    ensures Entries(Root(RotateCaseRight(z))) == Entries(Root(z))
  {
    if z.path[0].dir == Left {
      InnerRightPreserves(z);
      var z1 := Down(RotateRightAt(Up(z)), Right);
      OuterRightPreserves(z1);
      assert RotateCaseRight(z) == RotateCaseRight(z1);
    } else {
      OuterRightPreserves(z);
    }
  }

  /** The inner grandchild case's first rotation turns it into the outer case. */
  lemma InnerLeftPreserves<V>(z: Zipper<V>)
    requires InsertInv(z) && RedParent(z) && |z.path| >= 2 && z.path[0].dir == Right
    ensures z.focus.Node? && Up(z).focus.right.Node?
    ensures var z1 := Down(RotateLeftAt(Up(z)), Left);
      InsertInv(z1) && RedParent(z1) && z1.path[0].dir == Left && z1.path[1..] == z.path[1..]
      && Entries(Root(z1)) == Entries(Root(z))
  {
    var n, p, rest := z.focus, z.path[0], z.path[1..];
    var h := BlackHeight(n);
    var pn := Node(Red, p.sibling, p.key, p.value, n.left);
    var z1 := Zipper(pn, [Frame(Left, Red, n.key, n.value, n.right)] + rest);
    assert Down(RotateLeftAt(Up(z)), Left) == z1;
    assert z1.path[1..] == rest;
    assert BlackHeight(pn) == h;
    if |rest| > 0 {
      assert z1.path[|z1.path| - 1] == z.path[|z.path| - 1];
    }
  }

  lemma InnerRightPreserves<V>(z: Zipper<V>)
    requires InsertInv(z) && RedParent(z) && |z.path| >= 2 && z.path[0].dir == Left
    ensures z.focus.Node? && Up(z).focus.left.Node?
    ensures var z1 := Down(RotateRightAt(Up(z)), Right);
      InsertInv(z1) && RedParent(z1) && z1.path[0].dir == Right && z1.path[1..] == z.path[1..]
      && Entries(Root(z1)) == Entries(Root(z))
  {
    var n, p, rest := z.focus, z.path[0], z.path[1..];
    var h := BlackHeight(n);
    var pn := Node(Red, n.right, p.key, p.value, p.sibling);
    var z1 := Zipper(pn, [Frame(Right, Red, n.key, n.value, n.left)] + rest);
    assert Down(RotateRightAt(Up(z)), Right) == z1;
    assert z1.path[1..] == rest;
    assert BlackHeight(pn) == h;
    if |rest| > 0 {
      assert z1.path[|z1.path| - 1] == z.path[|z.path| - 1];
    }
  }

  /** The outer grandchild case: one rotation at the grandparent ends the loop. */
  lemma OuterLeftPreserves<V>(z: Zipper<V>)
    requires InsertInv(z) && RedParent(z) && |z.path| >= 2 && z.path[0].dir == Left
    requires z.path[1].dir == Left && ColorOf(z.path[1].sibling) == Black
    ensures InsertInv(RotateCaseLeft(z)) && !RedParent(RotateCaseLeft(z))
    ensures |RotateCaseLeft(z).path| == |z.path| - 1
    ensures Entries(Root(RotateCaseLeft(z))) == Entries(Root(z))
  {
    var n, p, g, rest := z.focus, z.path[0], z.path[1], z.path[2..];
    var h := BlackHeight(n);
    assert z.path[1..][0] == g && z.path[1..][1..] == rest;
    assert Fits(z.path[1..], h, Red);
    assert Fits(rest, h + 1, Black);
    var gn := Node(Red, p.sibling, g.key, g.value, g.sibling);
    var path' := [Frame(Left, Black, p.key, p.value, gn)] + rest;
    assert RotateCaseLeft(z) == Zipper(n, path');
    assert path'[1..] == rest;
    assert BlackHeight(gn) == h;
    if |rest| > 0 {
      assert path'[|path'| - 1] == z.path[|z.path| - 1];
    }
  }

  lemma OuterRightPreserves<V>(z: Zipper<V>)
    requires InsertInv(z) && RedParent(z) && |z.path| >= 2 && z.path[0].dir == Right
    requires z.path[1].dir == Right && ColorOf(z.path[1].sibling) == Black
    ensures InsertInv(RotateCaseRight(z)) && !RedParent(RotateCaseRight(z))
    ensures |RotateCaseRight(z).path| == |z.path| - 1
    ensures Entries(Root(RotateCaseRight(z))) == Entries(Root(z))
  {
    var n, p, g, rest := z.focus, z.path[0], z.path[1], z.path[2..];
    var h := BlackHeight(n);
    assert z.path[1..][0] == g && z.path[1..][1..] == rest;
    assert Fits(z.path[1..], h, Red);
    assert Fits(rest, h + 1, Black);
    var gn := Node(Red, g.sibling, g.key, g.value, p.sibling);
    var path' := [Frame(Right, Black, p.key, p.value, gn)] + rest;
    assert RotateCaseRight(z) == Zipper(n, path');
    assert path'[1..] == rest;
    assert BlackHeight(gn) == h;
    if |rest| > 0 {
      assert path'[|path'| - 1] == z.path[|z.path| - 1];
    }
  }

  /** rbt.go `insertFixup`: run the loop, then paint the root black (line 370). The result is
      a sound tree with a black root and the same in-order walk. */
  function InsertFixup<V>(z: Zipper<V>): (t: Tree<V>)
    requires InsertInv(z)
    ensures t.Node? && t.color == Black && Sound(t)
    ensures Entries(t) == Entries(Root(z))
    decreases |z.path|
  {
    if RedParent(z) then InsertFixup(InsertStep(z))
    else
      LoopExitSound(z);
      Root(z).(color := Black)
  }

  /** When the loop stops, the tree is sound and painting its root black keeps it so. */
  lemma LoopExitSound<V>(z: Zipper<V>)
    requires InsertInv(z) && !RedParent(z)
    ensures Root(z).Node? && Sound(Root(z).(color := Black))
  {
    assert Fits(z.path, BlackHeight(z.focus), Red);
    PlugSound(z.focus, z.path);
    RootColor(z.focus, z.path);
    BlackenSound(Root(z));
  }
}
