/** rbt.go `RedBlackTree` (lines 142-311): the tree value with its element count, and the
    public operations on it. A tree is modelled as an immutable value; every operation that
    mutates the Go struct returns the updated tree instead. */
module RedBlackTrees {
  import opened Wrappers
  import opened Trees
  import opened Validator
  import opened Contents
  import opened Zippers
  import opened Fitting
  import opened Insertion
  import opened Deletion

  /** rbt.go `RedBlackTree`: the root link and the cached number of entries. */
  datatype RedBlackTree<V> = RedBlackTree(root: Tree<V>, size: int)

  /** The invariant every public operation keeps: the root satisfies the red-black rules and
      the cached size counts the entries. Both fields are unexported in Go, so no caller can
      break it. */
  predicate Valid<V>(t: RedBlackTree<V>)
  {
    IsRedBlack(t.root) && t.size == |Entries(t.root)|
  }

  /** rbt.go `Make`: the empty tree. */
  function Make<V>(): (t: RedBlackTree<V>)
    ensures Valid(t) && Content(t.root) == map[] && t.size == 0
  {
    RedBlackTree(Nil, 0)
  }

  /** The walk of a valid tree is sorted, so its content has one key per entry. */
  lemma ValidContent<V>(t: RedBlackTree<V>)
    requires Valid(t)
    ensures |Content(t.root)| == t.size
    ensures forall k :: k in Content(t.root) <==> k in KeysOf(Entries(t.root))
  {
    MapOfCardinality(Entries(t.root));
    MapOfKeys(Entries(t.root));
  }

  // ---------------------------------------------------------------------------------------
  // Search

  /** rbt.go `Search`: the value stored under `k`, or `None` for Go's `(zero, false)`. */
  function Search<V>(t: RedBlackTree<V>, k: int): (r: Option<V>)
    ensures Ordered(t.root) ==>
      r == if k in Content(t.root) then Some(Content(t.root)[k]) else None
  {
    var n := SearchNode(t.root, k);
    SearchAnswers(t.root, k);
    if n.Nil? then None else Some(n.value)
  }

  /** On an ordered tree the node `search` finds holds exactly the content's value for `k`. */
  lemma SearchAnswers<V>(t: Tree<V>, k: int)
    ensures var n := SearchNode(t, k);
      Ordered(t) ==> (n.Nil? <==> k !in Content(t)) && (n.Node? ==> Content(t)[k] == n.value)
  {
    var n := SearchNode(t, k);
    MapOfKeys(Entries(t));
    if n.Node? && Ordered(t) {
      var i :| 0 <= i < |Entries(t)| && Entries(t)[i] == Entry(k, n.value);
      MapOfAscending(Entries(t), i);
    }
  }

  // ---------------------------------------------------------------------------------------
  // Insert

  /** rbt.go `Insert`: descend as `search` does; on a hit overwrite the value in place and
      stop, otherwise hang a red node on the nil slot, run `insertFixup` and count it. */
  function Insert<V>(t: RedBlackTree<V>, k: int, v: V): (r: RedBlackTree<V>)
    requires Valid(t)
    ensures Valid(r)
    ensures Content(r.root) == Content(t.root)[k := v]
    ensures r.size == if k in Content(t.root) then t.size else t.size + 1
    ensures k in Content(t.root) ==> Shape(r.root) == Shape(t.root)
  {
    var z := Descend(Zipper(t.root, []), k);
    SearchAnswers(t.root, k);
    if z.focus.Node? then
      var z' := Zipper(z.focus.(value := v), z.path);
      OverwriteFacts(t, k, v, z);
      RedBlackTree(Root(z'), t.size)
    else
      var z' := Zipper(Node(Red, Nil, k, v, Nil), z.path);
      AttachFacts(t, k, v, z);
      RedBlackTree(InsertFixup(z'), t.size + 1)
  }

  /** Overwriting the value of the node found keeps the tree valid and the shape, and updates
      the content at `k`. */
  lemma OverwriteFacts<V>(t: RedBlackTree<V>, k: int, v: V, z: Zipper<V>)
    requires Valid(t) && Root(z) == t.root && z.focus.Node? && z.focus.key == k
    ensures var r := Root(Zipper(z.focus.(value := v), z.path));
      IsRedBlack(r) && |Entries(r)| == |Entries(t.root)| && Content(r) == Content(t.root)[k := v]
      && Shape(r) == Shape(t.root)
  {
    var n := z.focus;
    var n' := n.(value := v);
    var r := Root(Zipper(n', z.path));
    var a, b := Pre(z.path) + Entries(n.left), Entries(n.right) + Post(z.path);
    PlugNodeEntries(n, z.path);
    PlugNodeEntries(n', z.path);
    AscendingReplace(a, k, n.value, v, b);
    AscendingSplit(a, Entry(k, n.value), b);
    MapReplace(a, k, n.value, v, b);
    CopySound(z, k, v);
    assert n' == n.(key := k, value := v);
    RootColor(n, z.path);
    RootColor(n', z.path);
    PlugShape(n, n', z.path);
  }

  /** Hanging a red leaf on the nil slot the descent reached meets the `insertFixup` loop
      invariant, and the new walk is the old one with `k` inserted in order. */
  lemma AttachFacts<V>(t: RedBlackTree<V>, k: int, v: V, z: Zipper<V>)
    requires Valid(t) && Root(z) == t.root && z.focus.Nil?
    requires AllBelow(Pre(z.path), k) && AllAbove(Post(z.path), k)
    ensures var z' := Zipper(Node(Red, Nil, k, v, Nil), z.path);
      InsertInv(z') && Ascending(Entries(Root(z')))
      && |Entries(Root(z'))| == |Entries(t.root)| + 1
      && MapOf(Entries(Root(z'))) == Content(t.root)[k := v]
  {
    AttachFits(z, k, v);
    AttachEntries(z, k, v);
  }

  /** The red leaf fits the nil slot of a sound tree with a black root. */
  lemma AttachFits<V>(z: Zipper<V>, k: int, v: V)
    requires Sound(Root(z)) && ColorOf(Root(z)) == Black && z.focus.Nil?
    ensures InsertInv(Zipper(Node(Red, Nil, k, v, Nil), z.path))
  {
    SoundInContext(z.focus, z.path);
    RootColor(z.focus, z.path);
  }

  /** The leaf's entry lands between the entries below and above `k`. */
  lemma AttachEntries<V>(z: Zipper<V>, k: int, v: V)
    requires Ordered(Root(z)) && z.focus.Nil?
    requires AllBelow(Pre(z.path), k) && AllAbove(Post(z.path), k)
    ensures var es := Entries(Root(Zipper(Node(Red, Nil, k, v, Nil), z.path)));
      Ascending(es) && |es| == |Entries(Root(z))| + 1 && MapOf(es) == Content(Root(z))[k := v]
  {
    var leaf := Node(Red, Nil, k, v, Nil);
    var a, b := Pre(z.path), Post(z.path);
    PlugEntries(z.focus, z.path);
    PlugNodeEntries(leaf, z.path);
    assert a + [] == a && [] + b == b;
    assert Entries(Root(z)) == a + b;
    AscendingInsert(a, Entry(k, v), b);
    MapInsert(a, k, v, b);
  }

  // ---------------------------------------------------------------------------------------
  // Remove

  /** rbt.go `Remove`: `search` for `k`; when found, `delete` the node and count one fewer
      (the decrement at line 415). An absent key leaves the tree untouched. */
  function Remove<V>(t: RedBlackTree<V>, k: int): (r: RedBlackTree<V>)
    requires Valid(t)
    ensures Valid(r)
    ensures Content(r.root) == Content(t.root) - {k}
    ensures r.size == if k in Content(t.root) then t.size - 1 else t.size
    ensures k !in Content(t.root) ==> r == t
  {
    var z := Descend(Zipper(t.root, []), k);
    SearchAnswers(t.root, k);
    if z.focus.Nil? then
      assert Content(t.root) - {k} == Content(t.root);
      t
    else
      RemoveFacts(t, k, z);
      RedBlackTree(Delete(z), t.size - 1)
  }

  /** Deleting the node found leaves a valid tree whose walk lacks exactly `k`'s entry. */
  lemma RemoveFacts<V>(t: RedBlackTree<V>, k: int, z: Zipper<V>)
    requires Valid(t) && Root(z) == t.root && z.focus.Node? && z.focus.key == k
    ensures Sound(Root(z)) && ColorOf(Root(z)) == Black
    ensures var d := Delete(z);
      IsRedBlack(d) && |Entries(d)| == |Entries(t.root)| - 1 && Content(d) == Content(t.root) - {k}
  {
    var n := z.focus;
    var d := Delete(z);
    var a, b := Pre(z.path) + Entries(n.left), Entries(n.right) + Post(z.path);
    PlugNodeEntries(n, z.path);
    Regroup(Pre(z.path), Entries(n.left), [], Entries(n.right), Post(z.path));
    AscendingSplit(a, Entry(k, n.value), b);
    MapRemove(a, k, n.value, b);
  }

  // ---------------------------------------------------------------------------------------
  // Read-only views

  /** rbt.go `Keys`: the keys of the in-order walk. On a valid tree they strictly increase and
      there are `Size` of them. */
  function Keys<V>(t: RedBlackTree<V>): (ks: seq<int>)
    ensures |ks| == |Entries(t.root)|
    ensures forall i :: 0 <= i < |ks| ==> ks[i] == Entries(t.root)[i].key
    ensures Valid(t) ==> |ks| == t.size && forall i, j :: 0 <= i < j < |ks| ==> ks[i] < ks[j]
    ensures forall k :: k in ks <==> k in Content(t.root)
  {
    MapOfKeys(Entries(t.root));
    KeysOf(Entries(t.root))
  }

  /** rbt.go `Preorder`: copies of the nodes in pre-order. Each node appears exactly once with
      its key, value and colour; the root comes first, and in an ordered tree the left subtree's
      nodes come before the right subtree's. */
  function PreorderNodes<V>(t: RedBlackTree<V>): (ss: seq<Snapshot<V>>)
    ensures multiset(ss) == multiset(InorderSnapshots(t.root))
    ensures |ss| == |Entries(t.root)| && (Valid(t) ==> |ss| == t.size)
    ensures |ss| > 0 ==> t.root.Node? && ss[0] == Snapshot(t.root.key, t.root.value, t.root.color)
    ensures Ordered(t.root) ==>
      forall i, j :: 1 <= i < j < |ss| && ss[j].key < ss[0].key ==> ss[i].key < ss[0].key
  {
    PreorderListsEachNodeOnce(t.root);
    PreorderLeftBeforeRight(t.root);
    Preorder(t.root)
  }

  /** rbt.go `Size`: the cached count, returned without walking the tree. */
  function Size<V>(t: RedBlackTree<V>): (n: int)
    ensures Valid(t) ==> n == |Content(t.root)| && n == |Keys(t)|
  {
    SizeCounts(t);
    t.size
  }

  /** On a valid tree the cached count is the number of keys stored. */
  lemma SizeCounts<V>(t: RedBlackTree<V>)
    ensures Valid(t) ==> t.size == |Content(t.root)| && t.size == |Keys(t)|
  {
    if Valid(t) {
      ValidContent(t);
    }
  }

  // ---------------------------------------------------------------------------------------
  // The diagnostic validator

  /** rbt.go `IsValidRBTree`, with the key type's extreme values as parameters: the root is
      present and black, the keys lie strictly between the bounds in search-tree order, no
      red node has a red child and black heights agree. */
  predicate IsValidRBTree<V>(t: RedBlackTree<V>, minKey: int, maxKey: int)
  {
    if t.root.Nil? || t.root.color != Black then false
    else if !IsBinarySearchTree(t.root, minKey, maxKey) then false
    else if ContainsConsecutiveRedNodes(t.root) then false
    else if !HasSameBlackHeight(t.root) then false
    else true
  }

  /** All keys of `t` lie strictly between the bounds. */
  predicate KeysWithin<V>(t: Tree<V>, minKey: int, maxKey: int)
  {
    forall i :: 0 <= i < |Entries(t)| ==> minKey < Entries(t)[i].key < maxKey
  }

  /** The validator accepts exactly the non-empty red-black trees whose keys avoid the bounds. */
  lemma IsValidRBTreeIff<V>(t: RedBlackTree<V>, minKey: int, maxKey: int)
    ensures IsValidRBTree(t, minKey, maxKey) <==>
      t.root.Node? && IsRedBlack(t.root) && KeysWithin(t.root, minKey, maxKey)
  {
    BinarySearchTreeIffOrderedWithin(t.root, minKey, maxKey);
  }

  /** The empty tree is rejected: there is no root to be black (rbt.go lines 248-254). */
  lemma EmptyTreeIsNotValid<V>(minKey: int, maxKey: int)
    ensures !IsValidRBTree(Make<V>(), minKey, maxKey)
    ensures Valid(Make<V>())
  {
  }

  /** A valid tree holding the largest key value is rejected by the validator: `Insert` accepts
      the key, but `isBinarySearchTree` starts from the open interval (`MinValue`, `MaxValue`)
      and refuses a key equal to either end (rbt.go line 96 with the bounds of line 256). */
  lemma ExtremeKeyRejected<V>(v: V, minKey: int, maxKey: int)
    requires minKey < maxKey
    ensures var t := Insert(Make<V>(), maxKey, v);
      Valid(t) && t.root.Node? && !IsValidRBTree(t, minKey, maxKey)
  {
    var t := Insert(Make<V>(), maxKey, v);
    assert maxKey in Content(t.root);
    MapOfKeys(Entries(t.root));
    KeysWithinContent(t.root, minKey, maxKey);
    IsValidRBTreeIff(t, minKey, maxKey);
  }

  /** The validator as evidently intended: the same four checks, with the search-tree check
      left unbounded on both sides instead of bounded by the key type's extreme values. */
  predicate IsValidTree<V>(t: RedBlackTree<V>)
  {
    if t.root.Nil? || t.root.color != Black then false
    else if !IsSearchTree(t.root, None, None) then false
    else if ContainsConsecutiveRedNodes(t.root) then false
    else if !HasSameBlackHeight(t.root) then false
    else true
  }

  /** The unbounded validator accepts exactly the non-empty red-black trees, whatever keys they
      hold. */
  lemma IsValidTreeIff<V>(t: RedBlackTree<V>)
    ensures IsValidTree(t) <==> t.root.Node? && IsRedBlack(t.root)
  {
    SearchTreeIffOrdered(t.root, None, None);
  }

  /** Every non-empty tree the operations produce passes the unbounded validator. */
  lemma ValidTreePasses<V>(t: RedBlackTree<V>)
    requires Valid(t)
    ensures IsValidTree(t) <==> t.size > 0
  {
    IsValidTreeIff(t);
  }

  // ---------------------------------------------------------------------------------------
  // Properties across operations

  /** The bounds constrain the walk exactly when they constrain the content. */
  lemma KeysWithinContent<V>(t: Tree<V>, minKey: int, maxKey: int)
    ensures KeysWithin(t, minKey, maxKey) <==> forall k :: k in Content(t) ==> minKey < k < maxKey
  {
    var es := Entries(t);
    MapOfKeys(es);
    if KeysWithin(t, minKey, maxKey) {
      forall k | k in Content(t) ensures minKey < k < maxKey {
        var i :| 0 <= i < |KeysOf(es)| && KeysOf(es)[i] == k;
      }
    }
    if forall k :: k in Content(t) ==> minKey < k < maxKey {
      forall i | 0 <= i < |es| ensures minKey < es[i].key < maxKey {
        assert KeysOf(es)[i] in KeysOf(es);
      }
    }
  }

  /** After inserting `k` into a tree whose keys are inside the bounds, with `k` inside them
      too, the validator accepts the result. */
  lemma InsertKeepsValidator<V>(t: RedBlackTree<V>, k: int, v: V, minKey: int, maxKey: int)
    requires Valid(t) && KeysWithin(t.root, minKey, maxKey) && minKey < k < maxKey
    ensures IsValidRBTree(Insert(t, k, v), minKey, maxKey)
  {
    var r := Insert(t, k, v);
    KeysWithinContent(t.root, minKey, maxKey);
    KeysWithinContent(r.root, minKey, maxKey);
    assert k in Content(r.root);
    MapOfKeys(Entries(r.root));
    IsValidRBTreeIff(r, minKey, maxKey);
  }

  /** Removing a key from a tree the validator accepts leaves a tree it accepts, unless the
      tree became empty. */
  lemma RemoveKeepsValidator<V>(t: RedBlackTree<V>, k: int, minKey: int, maxKey: int)
    requires Valid(t) && IsValidRBTree(t, minKey, maxKey)
    ensures var r := Remove(t, k);
      IsValidRBTree(r, minKey, maxKey) <==> r.size > 0
  {
    var r := Remove(t, k);
    IsValidRBTreeIff(t, minKey, maxKey);
    KeysWithinContent(t.root, minKey, maxKey);
    KeysWithinContent(r.root, minKey, maxKey);
    IsValidRBTreeIff(r, minKey, maxKey);
  }

  /** `Search` after `Insert`: the new key answers the new value, every other key answers as
      before. */
  lemma SearchAfterInsert<V>(t: RedBlackTree<V>, k: int, v: V, k': int)
    requires Valid(t)
    ensures Search(Insert(t, k, v), k') == if k' == k then Some(v) else Search(t, k')
  {
  }

  /** `Search` after `Remove`: the removed key is gone, every other key answers as before. */
  lemma SearchAfterRemove<V>(t: RedBlackTree<V>, k: int, k': int)
    requires Valid(t)
    ensures Search(Remove(t, k), k') == if k' == k then None else Search(t, k')
  {
  }

  /** Inserting a key that is already present changes neither the size nor the shape. */
  lemma OverwriteKeepsSizeAndShape<V>(t: RedBlackTree<V>, k: int, v: V)
    requires Valid(t) && Search(t, k).Some?
    ensures Size(Insert(t, k, v)) == Size(t)
    ensures Shape(Insert(t, k, v).root) == Shape(t.root)
  {
  }
}
