/** Parent links as a zipper. Go's nodes carry `parent` pointers; here a position in the tree is
    the subtree at that position (the focus) plus the chain of its ancestors, nearest first.
    Moving a Go pointer to `n.parent` is `Up`, following `n.left`/`n.right` is `Down`, and the
    pointer edits of rbt.go `transplant`, `leftRotate` and `rightRotate` (lines 271-311) become
    rebuilding the focus in place. */
module Zippers {
  import opened Trees

  /** Which child of its parent a node is. */
  datatype Dir = Left | Right

  /** One ancestor: the side the node below hangs on, and the ancestor's colour, key, value and
      other child. */
  datatype Frame<V> = Frame(dir: Dir, color: Color, key: int, value: V, sibling: Tree<V>)

  /** A position: `path[0]` is the parent, `path[1]` the grandparent; an empty path means the
      focus is the root. */
  datatype Zipper<V> = Zipper(focus: Tree<V>, path: seq<Frame<V>>)

  /** The ancestor described by `f`, rebuilt with `t` as its child on side `f.dir`. */
  function Attach<V>(t: Tree<V>, f: Frame<V>): Tree<V>
  {
    if f.dir == Left then Node(f.color, t, f.key, f.value, f.sibling)
    else Node(f.color, f.sibling, f.key, f.value, t)
  }

  /** The whole tree rebuilt around `t` placed at the position `path` describes. */
  function Plug<V>(t: Tree<V>, path: seq<Frame<V>>): Tree<V>
    decreases |path|
  {
    if |path| == 0 then t else Plug(Attach(t, path[0]), path[1..])
  }

  /** `tree.root` as seen from a position. */
  function Root<V>(z: Zipper<V>): Tree<V>
  {
    Plug(z.focus, z.path)
  }

  /** The entries the ancestors contribute to the left of the focus in the in-order walk. */
  function Pre<V>(path: seq<Frame<V>>): seq<Entry<V>>
    decreases |path|
  {
    if |path| == 0 then []
    else
      var own := if path[0].dir == Right then Entries(path[0].sibling) + [Entry(path[0].key, path[0].value)] else [];
      Pre(path[1..]) + own
  }

  /** The entries the ancestors contribute to the right of the focus in the in-order walk. */
  function Post<V>(path: seq<Frame<V>>): seq<Entry<V>>
    decreases |path|
  {
    if |path| == 0 then []
    else
      var own := if path[0].dir == Left then [Entry(path[0].key, path[0].value)] + Entries(path[0].sibling) else [];
      own + Post(path[1..])
  }

  /** The in-order walk of the whole tree is the ancestors' left part, the focus, and the
      ancestors' right part. */
  lemma {:induction false} PlugEntries<V>(t: Tree<V>, path: seq<Frame<V>>)
    ensures Entries(Plug(t, path)) == Pre(path) + Entries(t) + Post(path)
    decreases |path|
  {
    if |path| > 0 {
      PlugEntries(Attach(t, path[0]), path[1..]);
    }
  }

  /** The walk around a present node, grouped as what precedes its entry, the entry, and what
      follows it. */
  lemma PlugNodeEntries<V>(n: Tree<V>, path: seq<Frame<V>>)
    requires n.Node?
    ensures Entries(Plug(n, path))
         == (Pre(path) + Entries(n.left)) + [Entry(n.key, n.value)] + (Entries(n.right) + Post(path))
  {
    PlugEntries(n, path);
    Regroup(Pre(path), Entries(n.left), [Entry(n.key, n.value)], Entries(n.right), Post(path));
  }

  /** The root's colour is the outermost ancestor's, or the focus's own when it is the root;
      the root is present whenever the focus is or the focus has an ancestor. */
  lemma {:induction false} RootColor<V>(t: Tree<V>, path: seq<Frame<V>>)
    ensures ColorOf(Plug(t, path)) == if |path| == 0 then ColorOf(t) else path[|path| - 1].color
    ensures t.Node? || |path| > 0 ==> Plug(t, path).Node?
    decreases |path|
  {
    if |path| > 0 {
      RootColor(Attach(t, path[0]), path[1..]);
      if |path| > 1 {
        assert path[1..][|path| - 2] == path[|path| - 1];
      }
    }
  }

  /** Plugging subtrees of the same shape into the same position gives trees of the same
      shape. */
  lemma {:induction false} PlugShape<V>(a: Tree<V>, b: Tree<V>, path: seq<Frame<V>>)
    requires Shape(a) == Shape(b)
    ensures Shape(Plug(a, path)) == Shape(Plug(b, path))
    decreases |path|
  {
    if |path| > 0 {
      PlugShape(Attach(a, path[0]), Attach(b, path[0]), path[1..]);
    }
  }

  /** Ancestor chains that agree on sides, keys, values and the in-order walks of the siblings
      contribute the same entries around the focus. */
  lemma {:induction false} SameWalkAround<V>(p1: seq<Frame<V>>, p2: seq<Frame<V>>)
    requires |p1| == |p2|
    requires forall i :: 0 <= i < |p1| ==>
      p1[i].dir == p2[i].dir && p1[i].key == p2[i].key && p1[i].value == p2[i].value
      && Entries(p1[i].sibling) == Entries(p2[i].sibling)
    ensures Pre(p1) == Pre(p2) && Post(p1) == Post(p2)
    decreases |p1|
  {
    if |p1| > 0 {
      SameWalkAround(p1[1..], p2[1..]);
    }
  }

  /** Go `n = n.parent`. */
  function Up<V>(z: Zipper<V>): (r: Zipper<V>)
    requires |z.path| > 0
    ensures Root(r) == Root(z)
    ensures r.path == z.path[1..]
  {
    Zipper(Attach(z.focus, z.path[0]), z.path[1..])
  }

  /** Go `n = n.left` or `n = n.right`; undone by `Up`. */
  function Down<V>(z: Zipper<V>, d: Dir): (r: Zipper<V>)
    requires z.focus.Node?
    ensures Root(r) == Root(z)
    ensures |r.path| == |z.path| + 1 && r.path[1..] == z.path
    ensures r.path[0].dir == d && r.focus == (if d == Left then z.focus.left else z.focus.right)
    ensures Up(r) == z
  {
    var n := z.focus;
    if d == Left then Zipper(n.left, [Frame(Left, n.color, n.key, n.value, n.right)] + z.path)
    else Zipper(n.right, [Frame(Right, n.color, n.key, n.value, n.left)] + z.path)
  }

  /** rbt.go `transplant`: `y` takes the place of the focus in its parent's child slot (or
      becomes the root); neither subtree's own children change. */
  function Transplant<V>(z: Zipper<V>, y: Tree<V>): (r: Zipper<V>)
    ensures r.focus == y && r.path == z.path
    ensures Entries(Root(r)) == Pre(z.path) + Entries(y) + Post(z.path)
  {
    PlugEntries(y, z.path);
    Zipper(y, z.path)
  }

  /** rbt.go `leftRotate` on a subtree: the right child `r` rises, the old root becomes its left
      child and takes over `r`'s former left child. Colours travel with their nodes. */
  function RotateLeft<V>(t: Tree<V>): (u: Tree<V>)
    requires t.Node? && t.right.Node?
    ensures u.Node? && u.left.Node?
    ensures u.key == t.right.key && u.color == t.right.color
    ensures u.left.key == t.key && u.left.color == t.color
    ensures Entries(u) == Entries(t)
    ensures InorderSnapshots(u) == InorderSnapshots(t)
  {
    var r := t.right;
    Node(r.color, Node(t.color, t.left, t.key, t.value, r.left), r.key, r.value, r.right)
  }

  /** rbt.go `rightRotate` on a subtree, the mirror image of `RotateLeft`. */
  function RotateRight<V>(t: Tree<V>): (u: Tree<V>)
    requires t.Node? && t.left.Node?
    ensures u.Node? && u.right.Node?
    ensures u.key == t.left.key && u.color == t.left.color
    ensures u.right.key == t.key && u.right.color == t.color
    ensures Entries(u) == Entries(t)
    ensures InorderSnapshots(u) == InorderSnapshots(t)
  {
    var l := t.left;
    Node(l.color, l.left, l.key, l.value, Node(t.color, l.right, t.key, t.value, t.right))
  }

  /** The two rotations undo each other. */
  lemma RotationsAreInverse<V>(t: Tree<V>)
    ensures t.Node? && t.right.Node? ==> RotateRight(RotateLeft(t)) == t
    ensures t.Node? && t.left.Node? ==> RotateLeft(RotateRight(t)) == t
  {
  }

  /** Go `tree.leftRotate(n)` with the focus at `n`: the focus becomes the risen child. */
  function RotateLeftAt<V>(z: Zipper<V>): (r: Zipper<V>)
    requires z.focus.Node? && z.focus.right.Node?
    ensures r.path == z.path && r.focus == RotateLeft(z.focus)
    ensures Entries(Root(r)) == Entries(Root(z))
  {
    PlugEntries(z.focus, z.path);
    Transplant(z, RotateLeft(z.focus))
  }

  /** Go `tree.rightRotate(n)` with the focus at `n`: the focus becomes the risen child. */
  function RotateRightAt<V>(z: Zipper<V>): (r: Zipper<V>)
    requires z.focus.Node? && z.focus.left.Node?
    ensures r.path == z.path && r.focus == RotateRight(z.focus)
    ensures Entries(Root(r)) == Entries(Root(z))
  {
    PlugEntries(z.focus, z.path);
    Transplant(z, RotateRight(z.focus))
  }

  /** rbt.go `grandparent`: nil when the node is nil or has no parent, else the subtree two
      levels up (nil again when the parent is the root). */
  function Grandparent<V>(z: Zipper<V>): (g: Tree<V>)
    ensures g.Node? <==> z.focus.Node? && |z.path| >= 2
    ensures g.Node? ==> Plug(g, z.path[2..]) == Root(z) && g.key == z.path[1].key
  {
    if z.focus.Nil? || |z.path| < 2 then Nil
    else
      assert z.path[1..][1..] == z.path[2..] && z.path[1..][0] == z.path[1];
      assert Root(z) == Plug(Attach(z.focus, z.path[0]), z.path[1..]);
      Attach(Attach(z.focus, z.path[0]), z.path[1])
  }

  /** Go `x.color = c` for the ancestor `i` levels up (0 is the parent). */
  function PaintAncestor<V>(z: Zipper<V>, i: nat, c: Color): (r: Zipper<V>)
    requires i < |z.path|
    ensures Entries(Root(r)) == Entries(Root(z))
    ensures r.focus == z.focus && |r.path| == |z.path|
    ensures r.path[i].color == c && r.path[i].(color := z.path[i].color) == z.path[i]
    ensures forall j :: 0 <= j < |z.path| && j != i ==> r.path[j] == z.path[j]
  {
    var r := Zipper(z.focus, z.path[i := z.path[i].(color := c)]);
    SameWalkAround(r.path, z.path);
    PlugEntries(z.focus, z.path);
    PlugEntries(r.focus, r.path);
    r
  }

  /** Go `s.color = c` for the other child `s` of the ancestor `i` levels up. */
  function PaintSibling<V>(z: Zipper<V>, i: nat, c: Color): (r: Zipper<V>)
    requires i < |z.path| && z.path[i].sibling.Node?
    ensures Entries(Root(r)) == Entries(Root(z))
    ensures r.focus == z.focus && |r.path| == |z.path|
    ensures r.path[i].sibling.Node? && r.path[i].sibling.color == c
    ensures r.path[i].sibling.(color := z.path[i].sibling.color) == z.path[i].sibling
    ensures r.path[i].(sibling := z.path[i].sibling) == z.path[i]
    ensures forall j :: 0 <= j < |z.path| && j != i ==> r.path[j] == z.path[j]
  {
    var r := Zipper(z.focus, z.path[i := z.path[i].(sibling := z.path[i].sibling.(color := c))]);
    SameWalkAround(r.path, z.path);
    PlugEntries(z.focus, z.path);
    PlugEntries(r.focus, r.path);
    r
  }

  /** Replace the parent's other child by a rearrangement `s` of it with the same walk. */
  function WithSibling<V>(z: Zipper<V>, s: Tree<V>): (r: Zipper<V>)
    requires |z.path| > 0 && Entries(s) == Entries(z.path[0].sibling)
    ensures Entries(Root(r)) == Entries(Root(z))
    ensures r.focus == z.focus && |r.path| == |z.path|
    ensures r.path[0].sibling == s && r.path[0].(sibling := z.path[0].sibling) == z.path[0]
    ensures r.path[1..] == z.path[1..]
  {
    var r := Zipper(z.focus, z.path[0 := z.path[0].(sibling := s)]);
    SameWalkAround(r.path, z.path);
    PlugEntries(z.focus, z.path);
    PlugEntries(r.focus, r.path);
    r
  }

  /** Go `n = tree.root`. */
  function ToRoot<V>(z: Zipper<V>): (r: Zipper<V>)
    ensures Root(r) == Root(z) && r.path == []
  {
    Zipper(Root(z), [])
  }

  /** Ordered descent to key `k` (rbt.go `search`, and the lookup loop of `Insert`), keeping
      the ancestors: stops at the node holding `k` or at the nil slot where `k` would hang.
      In an ordered tree every key left of that slot is below `k` and every key right of it is
      above `k`. */
  function Descend<V>(z: Zipper<V>, k: int): (r: Zipper<V>)
    ensures Root(r) == Root(z)
    ensures r.focus == SearchNode(z.focus, k)
    ensures Ordered(Root(z)) && AllBelow(Pre(z.path), k) && AllAbove(Post(z.path), k) ==>
      AllBelow(Pre(r.path), k) && AllAbove(Post(r.path), k)
    decreases z.focus
  {
    match z.focus
    case Nil => z
    case Node(_, _, key, _, _) =>
      if k == key then z
      else
        var d := if k < key then Left else Right;
        var z' := Down(z, d);
        DescendBounds(z, k, d);
        Descend(z', k)
  }

  /** One step of `Descend` keeps the ancestors' entries on the correct side of `k`. */
  lemma DescendBounds<V>(z: Zipper<V>, k: int, d: Dir)
    requires z.focus.Node? && k != z.focus.key && (d == Left <==> k < z.focus.key)
    ensures Ordered(Root(z)) && AllBelow(Pre(z.path), k) && AllAbove(Post(z.path), k) ==>
      AllBelow(Pre(Down(z, d).path), k) && AllAbove(Post(Down(z, d).path), k)
  {
    var n := z.focus;
    var p := Down(z, d).path;
    assert p[1..] == z.path;
    if Ordered(Root(z)) && AllBelow(Pre(z.path), k) && AllAbove(Post(z.path), k) {
      PlugEntries(n, z.path);
      AscendingMiddle(Pre(z.path), Entries(n), Post(z.path));
      OrderedNode(n);
      if d == Left {
        var extra := [Entry(n.key, n.value)] + Entries(n.right);
        assert Post(p) == extra + Post(z.path);
        AboveAppend([Entry(n.key, n.value)], Entries(n.right), k);
        AboveAppend(extra, Post(z.path), k);
      } else {
        var extra := Entries(n.left) + [Entry(n.key, n.value)];
        assert Pre(p) == Pre(z.path) + extra;
        BelowAppend(Entries(n.left), [Entry(n.key, n.value)], k);
        BelowAppend(Pre(z.path), extra, k);
      }
    }
  }

  /** The middle part of a sorted walk is sorted. */
  lemma AscendingMiddle<V>(a: seq<Entry<V>>, b: seq<Entry<V>>, c: seq<Entry<V>>)
    requires Ascending(a + b + c)
    ensures Ascending(b)
  {
    forall i, j | 0 <= i < j < |b| ensures b[i].key < b[j].key {
      assert (a + b + c)[|a| + i] == b[i] && (a + b + c)[|a| + j] == b[j];
    }
  }

  /** rbt.go `minimum` on a position: follow left links, keeping the ancestors. Only left
      steps are taken, so nothing joins the ancestors' left part of the walk. */
  function DescendMin<V>(z: Zipper<V>): (r: Zipper<V>)
    ensures Root(r) == Root(z)
    ensures r.focus == Minimum(z.focus)
    ensures Pre(r.path) == Pre(z.path)
    decreases z.focus
  {
    if z.focus.Node? && z.focus.left.Node? then
      var z' := Down(z, Left);
      assert z'.path[1..] == z.path;
      DescendMin(z')
    else z
  }
}
