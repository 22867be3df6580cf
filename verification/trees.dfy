/** Nodes of the red-black tree (rbt.go lines 10-90): colours, the node record with its two
    child links, and the read-only walks over a subtree (in-order, pre-order, minimum, search).
    Parent links are not stored in a node; the zipper of module Zippers stands for them. */
module Trees {

  /** rbt.go `Color`; black is the zero value of the Go type. */
  datatype Color = Black | Red

  /** A possibly absent node. `Nil` is Go's nil `*Node`; a `Node` owns its two children. */
  datatype Tree<V> = Nil | Node(color: Color, left: Tree<V>, key: int, value: V, right: Tree<V>)

  /** One key/value pair as the in-order walk reports it. */
  datatype Entry<V> = Entry(key: int, value: V)

  /** A copy of one node as `Preorder` hands it out (key, value, colour). */
  datatype Snapshot<V> = Snapshot(key: int, value: V, color: Color)

  /** rbt.go `(*Node).Color`: an absent node answers black. */
  function ColorOf<V>(t: Tree<V>): (c: Color)
    ensures t.Nil? ==> c == Black
    ensures t.Node? ==> c == t.color
    ensures c == Red ==> t.Node?
  {
    if t.Nil? then Black else t.color
  }

  /** The in-order walk (rbt.go `inorder`), collecting each visited node's key and value. */
  function Entries<V>(t: Tree<V>): seq<Entry<V>>
  {
    match t
    case Nil => []
    case Node(_, l, k, v, r) => Entries(l) + [Entry(k, v)] + Entries(r)
  }

  /** The keys of a sequence of entries, in the same order. */
  function KeysOf<V>(es: seq<Entry<V>>): (ks: seq<int>)
    ensures |ks| == |es|
    ensures forall i :: 0 <= i < |es| ==> ks[i] == es[i].key
  {
    seq(|es|, i requires 0 <= i < |es| => es[i].key)
  }

  /** Keys strictly increase along the sequence: sorted, without duplicates. */
  predicate Ascending<V>(es: seq<Entry<V>>)
  {
    forall i, j :: 0 <= i < j < |es| ==> es[i].key < es[j].key
  }

  /** Binary-search-tree order, stated on the in-order walk. */
  predicate Ordered<V>(t: Tree<V>)
  {
    Ascending(Entries(t))
  }

  /** Every key of `es` is below `k`. */
  predicate AllBelow<V>(es: seq<Entry<V>>, k: int)
  {
    forall i :: 0 <= i < |es| ==> es[i].key < k
  }

  /** Every key of `es` is above `k`. */
  predicate AllAbove<V>(es: seq<Entry<V>>, k: int)
  {
    forall i :: 0 <= i < |es| ==> k < es[i].key
  }

  /** The pre-order walk (rbt.go `preorder`), copying each visited node. */
  function Preorder<V>(t: Tree<V>): seq<Snapshot<V>>
  {
    match t
    case Nil => []
    case Node(c, l, k, v, r) => [Snapshot(k, v, c)] + Preorder(l) + Preorder(r)
  }

  /** The in-order walk again, copying each node as a `Snapshot` with its colour: the nodes
      `Preorder` must hand out, in key order. */
  function InorderSnapshots<V>(t: Tree<V>): seq<Snapshot<V>>
  {
    match t
    case Nil => []
    case Node(c, l, k, v, r) => InorderSnapshots(l) + [Snapshot(k, v, c)] + InorderSnapshots(r)
  }

  /** The tree with every value erased: the colours, keys and links that an update of a value
      in place must leave alone. */
  function Shape<V>(t: Tree<V>): (u: Tree<()>)
    ensures ColorOf(u) == ColorOf(t) && (u.Nil? <==> t.Nil?)
  {
    match t
    case Nil => Nil
    case Node(c, l, k, _, r) => Node(c, Shape(l), k, (), Shape(r))
  }

  /** rbt.go `minimum`: follow left links to the leftmost node; nil for nil. The node found has
      no left child and holds the first in-order entry of the subtree. */
  function Minimum<V>(t: Tree<V>): (m: Tree<V>)
    ensures m.Nil? <==> t.Nil?
    ensures m.Node? ==> m.left.Nil? && |Entries(t)| > 0 && Entries(t)[0] == Entry(m.key, m.value)
    ensures m.Node? ==> |Entries(m)| <= |Entries(t)| && Entries(t)[..|Entries(m)|] == Entries(m)
  {
    if t.Nil? || t.left.Nil? then t else Minimum(t.left)
  }

  /** rbt.go `search`: descend from the root, left when `k` is smaller, right when larger, and
      stop at the node holding `k` or at nil. */
  function SearchNode<V>(t: Tree<V>, k: int): (n: Tree<V>)
    ensures n.Node? ==> n.key == k && Entry(k, n.value) in Entries(t)
    ensures Ordered(t) && n.Nil? ==> k !in KeysOf(Entries(t))
  {
    match t
    case Nil => Nil
    case Node(_, l, key, _, r) =>
      if k == key then t
      else if k < key then
        OrderedNode(t);
        SearchNode(l, k)
      else
        OrderedNode(t);
        SearchNode(r, k)
  }

  /** In-order walks of a node decompose: the subtrees are ordered and lie on either side of
      the node's key, exactly when the node is ordered. */
  lemma OrderedNode<V>(t: Tree<V>)
    requires t.Node?
    ensures Ordered(t) <==>
      Ordered(t.left) && Ordered(t.right) && AllBelow(Entries(t.left), t.key) && AllAbove(Entries(t.right), t.key)
  {
    if Ordered(t) {
      OrderedSplit(Entries(t.left), Entry(t.key, t.value), Entries(t.right));
    }
    if Ordered(t.left) && Ordered(t.right) && AllBelow(Entries(t.left), t.key) && AllAbove(Entries(t.right), t.key) {
      OrderedJoin(Entries(t.left), Entry(t.key, t.value), Entries(t.right));
    }
  }

  lemma OrderedSplit<V>(l: seq<Entry<V>>, e: Entry<V>, r: seq<Entry<V>>)
    requires Ascending(l + [e] + r)
    ensures Ascending(l) && Ascending(r) && AllBelow(l, e.key) && AllAbove(r, e.key)
  {
    var es := l + [e] + r;
    forall i | 0 <= i < |l| ensures l[i].key < e.key {
      assert es[i] == l[i] && es[|l|] == e;
    }
    forall i, j | 0 <= i < j < |l| ensures l[i].key < l[j].key {
      assert es[i] == l[i] && es[j] == l[j];
    }
    forall i | 0 <= i < |r| ensures e.key < r[i].key {
      assert es[|l| + 1 + i] == r[i] && es[|l|] == e;
    }
    forall i, j | 0 <= i < j < |r| ensures r[i].key < r[j].key {
      assert es[|l| + 1 + i] == r[i] && es[|l| + 1 + j] == r[j];
    }
  }

  lemma OrderedJoin<V>(l: seq<Entry<V>>, e: Entry<V>, r: seq<Entry<V>>)
    requires Ascending(l) && Ascending(r) && AllBelow(l, e.key) && AllAbove(r, e.key)
    ensures Ascending(l + [e] + r)
  {
    var es := l + [e] + r;
    forall i, j | 0 <= i < j < |es| ensures es[i].key < es[j].key {
      if j < |l| {
        assert es[i] == l[i] && es[j] == l[j];
      } else if j == |l| {
        assert es[i] == l[i];
      } else if i < |l| {
        assert es[i] == l[i] && es[j] == r[j - |l| - 1];
      } else if i == |l| {
        assert es[j] == r[j - |l| - 1];
      } else {
        assert es[i] == r[i - |l| - 1] && es[j] == r[j - |l| - 1];
      }
    }
  }

  /** The coloured in-order walk visits the same keys and values as `Entries`, position by
      position. */
  lemma {:induction false} InorderSnapshotsFollowEntries<V>(t: Tree<V>)
    ensures |InorderSnapshots(t)| == |Entries(t)|
    ensures forall i :: 0 <= i < |Entries(t)| ==>
      InorderSnapshots(t)[i].key == Entries(t)[i].key && InorderSnapshots(t)[i].value == Entries(t)[i].value
  {
    match t
    case Nil =>
    case Node(c, l, k, v, r) =>
      InorderSnapshotsFollowEntries(l);
      InorderSnapshotsFollowEntries(r);
      var ss, es := InorderSnapshots(t), Entries(t);
      forall i | 0 <= i < |es| ensures ss[i].key == es[i].key && ss[i].value == es[i].value {
        if i < |Entries(l)| {
          assert ss[i] == InorderSnapshots(l)[i] && es[i] == Entries(l)[i];
        } else if i > |Entries(l)| {
          var m := i - |Entries(l)| - 1;
          assert ss[i] == InorderSnapshots(r)[m] && es[i] == Entries(r)[m];
        }
      }
  }

  /** `Preorder` lists every node exactly once: it is a permutation of the coloured in-order
      walk, so each node's key, value and colour appear once. */
  lemma {:induction false} PreorderListsEachNodeOnce<V>(t: Tree<V>)
    ensures |Preorder(t)| == |Entries(t)|
    ensures multiset(Preorder(t)) == multiset(InorderSnapshots(t))
  {
    InorderSnapshotsFollowEntries(t);
    match t
    case Nil =>
    case Node(c, l, k, v, r) =>
      PreorderListsEachNodeOnce(l);
      PreorderListsEachNodeOnce(r);
      assert multiset(Preorder(t)) == multiset([Snapshot(k, v, c)]) + multiset(Preorder(l)) + multiset(Preorder(r));
      assert multiset(InorderSnapshots(t))
          == multiset(InorderSnapshots(l)) + multiset([Snapshot(k, v, c)]) + multiset(InorderSnapshots(r));
  }

  /** Every key `Preorder` lists is a key of the in-order walk. */
  lemma PreorderKeysFromEntries<V>(t: Tree<V>, i: nat)
    requires i < |Preorder(t)|
    ensures exists m :: 0 <= m < |Entries(t)| && Entries(t)[m].key == Preorder(t)[i].key
  {
    PreorderListsEachNodeOnce(t);
    InorderSnapshotsFollowEntries(t);
    var s := Preorder(t)[i];
    assert s in multiset(Preorder(t));
    assert s in InorderSnapshots(t);
    var m :| 0 <= m < |InorderSnapshots(t)| && InorderSnapshots(t)[m] == s;
    assert Entries(t)[m].key == s.key;
  }

  /** In an ordered tree `Preorder` lists the root first, then every node of the left subtree
      (keys below the root's), then the right subtree: no key above the root's comes before
      one below it. */
  lemma PreorderLeftBeforeRight<V>(t: Tree<V>)
    ensures |Preorder(t)| > 0 <==> t.Node?
    ensures t.Node? ==> Preorder(t)[0] == Snapshot(t.key, t.value, t.color)
    ensures Ordered(t) ==>
      forall i, j :: 1 <= i < j < |Preorder(t)| && Preorder(t)[j].key < Preorder(t)[0].key ==>
        Preorder(t)[i].key < Preorder(t)[0].key
  {
    if t.Node? && Ordered(t) {
      var ss, pl, pr := Preorder(t), Preorder(t.left), Preorder(t.right);
      OrderedNode(t);
      forall i | 1 <= i < |ss| ensures (i <= |pl| <==> ss[i].key < t.key) {
        if i <= |pl| {
          assert ss[i] == pl[i - 1];
          PreorderKeysFromEntries(t.left, i - 1);
        } else {
          assert ss[i] == pr[i - 1 - |pl|];
          PreorderKeysFromEntries(t.right, i - 1 - |pl|);
        }
      }
    }
  }

  /** A concatenation lies above `k` exactly when both parts do. */
  lemma AboveAppend<V>(a: seq<Entry<V>>, b: seq<Entry<V>>, k: int)
    ensures AllAbove(a + b, k) <==> AllAbove(a, k) && AllAbove(b, k)
  {
    if AllAbove(a + b, k) {
      forall i | 0 <= i < |a| ensures k < a[i].key {
        assert (a + b)[i] == a[i];
      }
      forall i | 0 <= i < |b| ensures k < b[i].key {
        assert (a + b)[|a| + i] == b[i];
      }
    }
  }

  /** A concatenation lies below `k` exactly when both parts do. */
  lemma BelowAppend<V>(a: seq<Entry<V>>, b: seq<Entry<V>>, k: int)
    ensures AllBelow(a + b, k) <==> AllBelow(a, k) && AllBelow(b, k)
  {
    if AllBelow(a + b, k) {
      forall i | 0 <= i < |a| ensures a[i].key < k {
        assert (a + b)[i] == a[i];
      }
      forall i | 0 <= i < |b| ensures b[i].key < k {
        assert (a + b)[|a| + i] == b[i];
      }
    }
  }

  /** Concatenation regrouped: the shapes the walk equations of the zipper take. */
  lemma Regroup<T>(p: seq<T>, l: seq<T>, m: seq<T>, r: seq<T>, q: seq<T>)
    ensures p + (l + m + r) + q == (p + l) + m + (r + q) == p + l + m + r + q
    ensures m == [] ==> p + (l + r) + q == (p + l) + (r + q) == p + l + r + q
  {
  }
}
