/** How the red-black rules of a whole tree split between a subtree and its ancestors. These
    are the loop invariants of both fixups: each fixup keeps the tree sound everywhere except
    for one defect at its current position. */
module Fitting {
  import opened Trees
  import opened Validator
  import opened Zippers

  /** Inside `t` no red node has a red child and black heights agree at every node; the
      colour of `t`'s own root is left free. */
  predicate Sound<V>(t: Tree<V>)
  {
    !ContainsConsecutiveRedNodes(t) && HasSameBlackHeight(t)
  }

  /** What a node of colour `c` adds to the black height. */
  function Weight(c: Color): nat
  {
    if c == Black then 1 else 0
  }

  /** Placing a sound subtree of black height `h` and root colour `c` at position `path` makes
      every ancestor sound: each ancestor's other child is sound with the same black height,
      and a red ancestor has black children. Taking `c == Black` waives only the parent's red
      rule against the focus itself, which is the one violation a fixup is allowed to carry. */
  predicate Fits<V>(path: seq<Frame<V>>, h: nat, c: Color)
    decreases |path|
  {
    |path| == 0 ||
    (var f := path[0];
     Sound(f.sibling) && BlackHeight(f.sibling) == h &&
     (f.color == Red ==> c == Black && ColorOf(f.sibling) == Black) &&
     Fits(path[1..], h + Weight(f.color), f.color))
  }

  /** A sound subtree that fits its position yields a sound tree. */
  lemma {:induction false} PlugSound<V>(t: Tree<V>, path: seq<Frame<V>>)
    requires Sound(t) && Fits(path, BlackHeight(t), ColorOf(t))
    ensures Sound(Plug(t, path))
    decreases |path|
  {
    if |path| > 0 {
      var u := Attach(t, path[0]);
      assert BlackHeight(u) == BlackHeight(t) + Weight(path[0].color);
      PlugSound(u, path[1..]);
    }
  }

  /** Conversely, every position of a sound tree holds a sound subtree that fits it. */
  lemma {:induction false} SoundInContext<V>(t: Tree<V>, path: seq<Frame<V>>)
    requires Sound(Plug(t, path))
    ensures Sound(t) && Fits(path, BlackHeight(t), ColorOf(t))
    decreases |path|
  {
    if |path| > 0 {
      var u := Attach(t, path[0]);
      SoundInContext(u, path[1..]);
      assert BlackHeight(u) == BlackHeight(t) + Weight(path[0].color);
    }
  }

  /** A black subtree fits wherever a subtree of another colour with the same height does. */
  lemma FitsAsBlack<V>(path: seq<Frame<V>>, h: nat, c: Color)
    requires Fits(path, h, c)
    ensures Fits(path, h, Black)
  {
  }

  /** Painting the root of a sound tree black keeps it sound. */
  lemma BlackenSound<V>(t: Tree<V>)
    requires t.Node? && !ContainsConsecutiveRedNodes(t.left) && !ContainsConsecutiveRedNodes(t.right)
    requires HasSameBlackHeight(t)
    ensures Sound(t.(color := Black))
  {
  }
}
