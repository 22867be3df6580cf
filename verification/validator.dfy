/** The diagnostic validator's helpers (rbt.go lines 92-140), each proved equivalent to an
    independent statement of the red-black rule it checks. */
module Validator {
  import opened Wrappers
  import opened Trees

  /** rbt.go `isBinarySearchTree`: every key lies strictly inside the open interval
      (`minKey`, `maxKey`), which narrows at each node. */
  function IsBinarySearchTree<V>(t: Tree<V>, minKey: int, maxKey: int): bool
  {
    match t
    case Nil => true
    case Node(_, l, k, _, r) =>
      if k <= minKey || k >= maxKey then false
      else IsBinarySearchTree(l, minKey, k) && IsBinarySearchTree(r, k, maxKey)
  }

  /** The number of black nodes on the leftmost path, the node itself included; 0 for nil. */
  function BlackHeight<V>(t: Tree<V>): nat
  {
    match t
    case Nil => 0
    case Node(c, l, _, _, _) => (if c == Black then 1 else 0) + BlackHeight(l)
  }

  /** rbt.go `getBlackHeight`, the loop that walks left links counting black nodes. */
  method GetBlackHeight<V>(t: Tree<V>) returns (height: nat)
    ensures height == BlackHeight(t)
  {
    height := 0;
    var node := t;
    while node.Node?
      invariant height + BlackHeight(node) == BlackHeight(t)
      decreases node
    {
      if node.color == Black {
        height := height + 1;
      }
      node := node.left;
    }
  }

  /** rbt.go `hasSameBlackHeight`: at every node the two children have the same leftmost-path
      black count. */
  predicate HasSameBlackHeight<V>(t: Tree<V>)
  {
    match t
    case Nil => true
    case Node(_, l, _, _, r) =>
      BlackHeight(l) == BlackHeight(r) && HasSameBlackHeight(l) && HasSameBlackHeight(r)
  }

  /** rbt.go `containsConsecutiveRedNodes`: some red node has a red child (a child that is
      present and red, which is what `ColorOf(..) == Red` says). */
  predicate ContainsConsecutiveRedNodes<V>(t: Tree<V>)
  {
    match t
    case Nil => false
    case Node(c, l, _, _, r) =>
      (c == Red && (ColorOf(l) == Red || ColorOf(r) == Red))
      || ContainsConsecutiveRedNodes(l) || ContainsConsecutiveRedNodes(r)
  }

  /** The invariants every public operation re-establishes: black root, search-tree order,
      no red node with a red child, equal black height everywhere (rbt.go lines 240-246). */
  predicate IsRedBlack<V>(t: Tree<V>)
  {
    ColorOf(t) == Black && Ordered(t) && !ContainsConsecutiveRedNodes(t) && HasSameBlackHeight(t)
  }

  // ---------------------------------------------------------------------------------------
  // Reference definitions

  /** The black counts of all paths from the root of `t` down to an absent child position. */
  function BlackCounts<V>(t: Tree<V>): set<nat>
  {
    match t
    case Nil => {0}
    case Node(c, l, _, _, r) =>
      var b := if c == Black then 1 else 0;
      set n | n in BlackCounts(l) + BlackCounts(r) :: n + b
  }

  /** Every subtree of `t`, `t` included. */
  ghost function Subtrees<V>(t: Tree<V>): set<Tree<V>>
  {
    match t
    case Nil => {t}
    case Node(_, l, _, _, r) => {t} + Subtrees(l) + Subtrees(r)
  }

  /** The red rule stated over all subtrees: a red node's children are black. */
  ghost predicate RedNodesHaveBlackChildren<V>(t: Tree<V>)
  {
    forall s :: s in Subtrees(t) && s.Node? && s.color == Red ==>
      ColorOf(s.left) == Black && ColorOf(s.right) == Black
  }

  lemma {:induction false} BlackHeightIsAPathCount<V>(t: Tree<V>)
    ensures BlackHeight(t) in BlackCounts(t)
  {
    match t
    case Nil =>
    case Node(c, l, _, _, r) =>
      BlackHeightIsAPathCount(l);
      assert BlackHeight(l) in BlackCounts(l) + BlackCounts(r);
  }

  /** Comparing only leftmost-path counts at every node, as `hasSameBlackHeight` does, is the
      same as every root-to-leaf path carrying the same number of black nodes. */
  lemma {:induction false} SameBlackHeightIffAllPathsEqual<V>(t: Tree<V>)
    ensures HasSameBlackHeight(t) <==> BlackCounts(t) == {BlackHeight(t)}
  {
    match t
    case Nil =>
    case Node(c, l, _, _, r) =>
      var b := if c == Black then 1 else 0;
      SameBlackHeightIffAllPathsEqual(l);
      SameBlackHeightIffAllPathsEqual(r);
      BlackHeightIsAPathCount(l);
      BlackHeightIsAPathCount(r);
      if HasSameBlackHeight(t) {
        assert BlackCounts(l) + BlackCounts(r) == {BlackHeight(l)};
        forall n | n in BlackCounts(t) ensures n == BlackHeight(t) {
        }
        assert BlackHeight(t) in BlackCounts(t);
      }
      if BlackCounts(t) == {BlackHeight(t)} {
        forall n | n in BlackCounts(l) ensures n == BlackHeight(l) {
          assert n + b in BlackCounts(t);
        }
        forall n | n in BlackCounts(r) ensures n == BlackHeight(l) {
          assert n + b in BlackCounts(t);
        }
        assert BlackCounts(l) == {BlackHeight(l)};
        assert BlackCounts(r) == {BlackHeight(r)};
      }
  }

  /** `containsConsecutiveRedNodes` finds nothing exactly when every red node in the tree has
      black children. */
  lemma {:induction false} NoConsecutiveRedIff<V>(t: Tree<V>)
    ensures !ContainsConsecutiveRedNodes(t) <==> RedNodesHaveBlackChildren(t)
  {
    match t
    case Nil =>
    case Node(c, l, _, _, r) =>
      NoConsecutiveRedIff(l);
      NoConsecutiveRedIff(r);
      assert Subtrees(t) == {t} + Subtrees(l) + Subtrees(r);
      if RedNodesHaveBlackChildren(t) {
        assert t in Subtrees(t);
        assert RedNodesHaveBlackChildren(l);
        assert RedNodesHaveBlackChildren(r);
      }
  }

  /** Bounds on the in-order walk of a node split into bounds on its key and its subtrees. */
  lemma NodeWithin<V>(t: Tree<V>, lo: int, hi: int)
    requires t.Node?
    ensures AllAbove(Entries(t), lo) && AllBelow(Entries(t), hi) <==>
      lo < t.key < hi && AllAbove(Entries(t.left), lo) && AllBelow(Entries(t.left), hi)
      && AllAbove(Entries(t.right), lo) && AllBelow(Entries(t.right), hi)
  {
    NodeAbove(t, lo);
    NodeBelow(t, hi);
  }

  /** A lower bound on the walk of a node is a lower bound on its key and on both subtrees. */
  lemma NodeAbove<V>(t: Tree<V>, lo: int)
    requires t.Node?
    ensures AllAbove(Entries(t), lo) <==>
      lo < t.key && AllAbove(Entries(t.left), lo) && AllAbove(Entries(t.right), lo)
  {
    AboveConcat(Entries(t.left), Entry(t.key, t.value), Entries(t.right), lo);
  }

  /** An upper bound on the walk of a node is an upper bound on its key and on both subtrees. */
  lemma NodeBelow<V>(t: Tree<V>, hi: int)
    requires t.Node?
    ensures AllBelow(Entries(t), hi) <==>
      t.key < hi && AllBelow(Entries(t.left), hi) && AllBelow(Entries(t.right), hi)
  {
    BelowConcat(Entries(t.left), Entry(t.key, t.value), Entries(t.right), hi);
  }

  lemma AboveConcat<V>(el: seq<Entry<V>>, e: Entry<V>, er: seq<Entry<V>>, lo: int)
    ensures AllAbove(el + [e] + er, lo) <==> lo < e.key && AllAbove(el, lo) && AllAbove(er, lo)
  {
    var es := el + [e] + er;
    if AllAbove(es, lo) {
      assert es[|el|] == e;
      forall i | 0 <= i < |el| ensures lo < el[i].key {
        assert es[i] == el[i];
      }
      forall i | 0 <= i < |er| ensures lo < er[i].key {
        assert es[|el| + 1 + i] == er[i];
      }
    }
    if lo < e.key && AllAbove(el, lo) && AllAbove(er, lo) {
      forall i | 0 <= i < |es| ensures lo < es[i].key {
        if i < |el| {
          assert es[i] == el[i];
        } else if i > |el| {
          assert es[i] == er[i - |el| - 1];
        }
      }
    }
  }

  lemma BelowConcat<V>(el: seq<Entry<V>>, e: Entry<V>, er: seq<Entry<V>>, hi: int)
    ensures AllBelow(el + [e] + er, hi) <==> e.key < hi && AllBelow(el, hi) && AllBelow(er, hi)
  {
    var es := el + [e] + er;
    if AllBelow(es, hi) {
      assert es[|el|] == e;
      forall i | 0 <= i < |el| ensures el[i].key < hi {
        assert es[i] == el[i];
      }
      forall i | 0 <= i < |er| ensures er[i].key < hi {
        assert es[|el| + 1 + i] == er[i];
      }
    }
    if e.key < hi && AllBelow(el, hi) && AllBelow(er, hi) {
      forall i | 0 <= i < |es| ensures es[i].key < hi {
        if i < |el| {
          assert es[i] == el[i];
        } else if i > |el| {
          assert es[i] == er[i - |el| - 1];
        }
      }
    }
  }

  /** `isBinarySearchTree` with bounds (lo, hi) accepts exactly the ordered trees whose keys
      all lie strictly between lo and hi; keys equal to a bound are rejected. */
  lemma {:induction false} BinarySearchTreeIffOrderedWithin<V>(t: Tree<V>, lo: int, hi: int)
    ensures IsBinarySearchTree(t, lo, hi) <==>
      Ordered(t) && AllAbove(Entries(t), lo) && AllBelow(Entries(t), hi)
  {
    match t
    case Nil =>
    case Node(c, l, k, v, r) =>
      BinarySearchTreeIffOrderedWithin(l, lo, k);
      BinarySearchTreeIffOrderedWithin(r, k, hi);
      OrderedNode(t);
      NodeWithin(t, lo, hi);
      if Ordered(t) && AllAbove(Entries(t), lo) && AllBelow(Entries(t), hi) {
        assert IsBinarySearchTree(l, lo, k);
        assert IsBinarySearchTree(r, k, hi);
      }
      if IsBinarySearchTree(t, lo, hi) {
        assert AllAbove(Entries(l), lo) && AllBelow(Entries(r), hi);
        assert forall i :: 0 <= i < |Entries(l)| ==> Entries(l)[i].key < hi;
        assert forall i :: 0 <= i < |Entries(r)| ==> lo < Entries(r)[i].key;
      }
  }

  // ---------------------------------------------------------------------------------------
  // The search-tree check with optional bounds

  /** `isBinarySearchTree` with each bound optional: `None` leaves that side of the interval
      open, so no key value is excluded at the extremes. */
  function IsSearchTree<V>(t: Tree<V>, lo: Option<int>, hi: Option<int>): bool
  {
    match t
    case Nil => true
    case Node(_, l, k, _, r) =>
      if (lo.Some? && k <= lo.value) || (hi.Some? && k >= hi.value) then false
      else IsSearchTree(l, lo, Some(k)) && IsSearchTree(r, Some(k), hi)
  }

  /** The optional-bound check accepts exactly the ordered trees inside the bounds given; with
      no bounds, exactly the ordered trees. */
  lemma {:induction false} SearchTreeIffOrdered<V>(t: Tree<V>, lo: Option<int>, hi: Option<int>)
    ensures IsSearchTree(t, lo, hi) <==>
      Ordered(t) && (lo.Some? ==> AllAbove(Entries(t), lo.value))
      && (hi.Some? ==> AllBelow(Entries(t), hi.value))
  {
    match t
    case Nil =>
    case Node(c, l, k, v, r) =>
      SearchTreeIffOrdered(l, lo, Some(k));
      SearchTreeIffOrdered(r, Some(k), hi);
      OrderedNode(t);
      if lo.Some? {
        NodeAbove(t, lo.value);
      }
      if hi.Some? {
        NodeBelow(t, hi.value);
      }
  }
}
