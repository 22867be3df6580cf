# Red-black tree (rbt.go) in Dafny

This project models the ordered map of the Go package `rbt`. The map is a red-black tree keyed by
an ordered key type. It supports:

- `Insert`, which overwrites the value when the key is already present;
- `Search`, `Remove`, `Keys`, `Preorder` and `Size`;
- the diagnostic validator `IsValidRBTree`.

The model is functional. A tree is an immutable algebraic value, `Tree<V> = Nil | Node(color, left, key, value, right)`.
Each operation that mutates the Go struct returns the updated tree instead.

The Go nodes carry parent pointers. The model has none: a *zipper* takes their place. A zipper is
a focused subtree plus the list of its ancestors. Each ancestor is a frame recording:

- which side the focus hangs on;
- the ancestor's colour, key and value;
- the other child (the sibling).

A Go move to `n.parent` is `Up`, and a move to `n.left`/`n.right` is `Down`. `leftRotate` and
`rightRotate` become rotations at the focus. The loops of `insertFixup` and `deleteFixup` become
recursive functions that take one loop iteration per call. They keep the branch structure of the
Go code: case by case, with each side mirrored.

Modules, in dependency order:

- `Wrappers`: `Option`.
- `Trees`: nodes, colours and walks: in-order `Entries`, `Preorder`, `Minimum`, `SearchNode`.
- `Validator`: the Go validator helpers. Each is proved equal to an independent statement of the
  rule it checks.
- `Contents`: the map that an in-order walk denotes, and how it changes under insertion,
  replacement and removal of one entry.
- `Zippers`: positions, moves, `transplant`, rotations, `grandparent`, and the ordered descent
  used by `search`.
- `Fitting`: how the red-black rules split between a subtree and its ancestors. These are the
  fixup loop invariants.
- `Insertion`: `insertFixup`.
- `Deletion`: `delete` and `deleteFixup`.
- `RedBlackTrees`: the public API on `RedBlackTree(root, size)`.

Three notions of correctness connect these modules:

- **Validity.** A tree is valid when it satisfies the red-black rules (`IsRedBlack`: black root,
  search-tree order, no red node with a red child, equal black heights) and its `size` counts its
  entries. Every public operation keeps this.
- **Content.** The map denoted by the in-order walk (`Content`). Each operation's effect is stated
  on it.
- **Fit.** Each fixup iteration keeps the tree sound everywhere except for a single defect at the
  current position. For insert the defect is a red node under a red parent. For delete it is a
  missing black node. The defect either moves up or is repaired.

## Model

| member | source | states |
|---|---|---|
| Trees.ColorOf | rbt.go:49-55 | an absent node answers black, a present node its own colour; only a present node can be red |
| Trees.Minimum | rbt.go:81-90 | the node reached has no left child and holds the first in-order entry of the subtree; nil exactly for nil |
| Trees.SearchNode | rbt.go:313-326 | a node found holds `k` and its entry is in the tree; in an ordered tree, nil means `k` is absent |
| Trees.InorderSnapshotsFollowEntries | rbt.go:65-71 | the coloured in-order walk visits the same keys and values as the in-order entries, position by position |
| Trees.PreorderListsEachNodeOnce | rbt.go:65-79 | the pre-order walk is a permutation of the coloured in-order walk: each node's key, value and colour appear exactly once |
| Trees.PreorderLeftBeforeRight | rbt.go:73-79 | the root comes first, and in an ordered tree no key above the root's is listed before a key below it |
| Validator.GetBlackHeight | rbt.go:116-129 | the left-link loop returns the black count of the leftmost path |
| Validator.BlackHeightIsAPathCount | rbt.go:116-129 | the leftmost-path count is the black count of some root-to-nil path |
| Validator.SameBlackHeightIffAllPathsEqual | rbt.go:103-114 | comparing leftmost-path counts at every node holds iff all root-to-nil paths have the same black count |
| Validator.NoConsecutiveRedIff | rbt.go:131-140 | the recursive check finds nothing iff every red node in the tree has black (or absent) children |
| Validator.BinarySearchTreeIffOrderedWithin | rbt.go:92-101 | the bounded check accepts iff the in-order keys strictly increase and all lie strictly between the bounds |
| Validator.SearchTreeIffOrdered | rbt.go:92-101 | with optional bounds, the check accepts iff the keys strictly increase and respect the bounds given; with none, iff ordered |
| Zippers.Up | rbt.go:434-435 | moving to the parent keeps the whole tree, and the new ancestor list is the old one without the parent: the result is the parent position |
| Zippers.Down | rbt.go:339-342 | moving to the child in direction `d` keeps the whole tree, pushes a frame recording `d`, and `Up` undoes it |
| Zippers.Transplant | rbt.go:271-283 | the new subtree takes the old one's place under the same ancestors; the walk becomes the ancestors' left part, the new subtree, the right part |
| Zippers.RotateLeft | rbt.go:285-297 | the right child rises to the top, the old root becomes its left child, and the in-order walk of keys, values and colours is unchanged: links move, no colour changes |
| Zippers.RotateRight | rbt.go:299-311 | the left child rises to the top, the old root becomes its right child, and the in-order walk of keys, values and colours is unchanged: links move, no colour changes |
| Zippers.RotationsAreInverse | rbt.go:285-311 | a right rotation undoes a left rotation and vice versa |
| Zippers.RotateLeftAt | rbt.go:285-297 | the subtree at the position is replaced by its left rotation, the ancestors stay, and the whole tree's walk is kept |
| Zippers.RotateRightAt | rbt.go:299-311 | the subtree at the position is replaced by its right rotation, the ancestors stay, and the whole tree's walk is kept |
| Zippers.PaintAncestor | rbt.go:334-336 | the chosen ancestor gets colour `c`; every other field of it, every other ancestor, the focus and the walk are unchanged |
| Zippers.PaintSibling | rbt.go:426 | the chosen ancestor's other child gets colour `c`; nothing else in the tree changes, and the walk is kept |
| Zippers.WithSibling | rbt.go:439-442 | the parent's other child becomes `s`, which has the same walk; focus, the rest of the parent frame and all higher ancestors are unchanged |
| Zippers.Grandparent | rbt.go:57-63 | the grandparent exists iff the node exists and has two ancestors; it is the subtree at the second ancestor |
| Zippers.Descend | rbt.go:313-326 | the descent stops at `search`'s answer; in an ordered tree, keys left of it are below `k` and keys right of it above |
| Zippers.DescendMin | rbt.go:81-90 | following left links reaches `minimum` of the subtree without changing what lies left of the position |
| Zippers.PlugEntries | rbt.go:65-71 | the in-order walk of the whole tree is the ancestors' left part, the focus's walk, the ancestors' right part |
| Fitting.PlugSound | rbt.go:240-246 | a sound subtree that fits its position yields a sound tree |
| Fitting.SoundInContext | rbt.go:240-246 | every subtree of a sound tree is sound and fits its position |
| Insertion.ParentHasGrandparent | rbt.go:329-366 | while the parent is red the grandparent exists and is black, so the panic branch is unreachable |
| Insertion.RecolorPreserves | rbt.go:333-337 | red uncle: recolouring and climbing two levels keeps the loop invariant and the walk |
| Insertion.RotateLeftPreserves | rbt.go:338-346 | black uncle, parent a left child: the optional left rotation and the right rotation restore the red rule and end the loop |
| Insertion.RotateRightPreserves | rbt.go:355-363 | the mirror case for a parent that is a right child |
| Insertion.InsertStep | rbt.go:329-367 | one iteration keeps the invariant and the walk and shortens the path |
| Insertion.InsertFixup | rbt.go:328-371 | the result has a black root, satisfies the red and black-height rules, and has the same walk |
| Deletion.SiblingPresent | rbt.go:421-424 | inside the loop the sibling is present, and Go's `n == parent.left` test picks the true side even for a nil `n` |
| Deletion.Case1LeftPreserves | rbt.go:424-430 | red sibling: after the recolouring and left rotation the sibling is black, the parent red, and the invariant holds one level lower |
| Deletion.Case1RightPreserves | rbt.go:453-459 | the mirror of case 1 |
| Deletion.Case2Preserves | rbt.go:431-435 | black sibling with black children: painting it red and climbing keeps the invariant and the walk |
| Deletion.Case3LeftPreserves | rbt.go:437-443 | black sibling with red near child: after the right rotation of the sibling its far child is red |
| Deletion.Case3RightPreserves | rbt.go:466-472 | the mirror of case 3 |
| Deletion.Case4LeftPreserves | rbt.go:444-449 | red far child: the recolouring and left rotation repair the missing black node and end at the root |
| Deletion.Case4RightPreserves | rbt.go:473-478 | the mirror of case 4 |
| Deletion.DeleteStep | rbt.go:421-481 | one iteration keeps the invariant and the walk and decreases the termination measure |
| Deletion.StepLeft | rbt.go:422-450 | the left-side branch keeps the invariant and decreases the measure |
| Deletion.StepRight | rbt.go:451-480 | the right-side branch keeps the invariant and decreases the measure |
| Deletion.DeleteFixup | rbt.go:418-486 | the result has a black root, satisfies the red and black-height rules, and has the same walk |
| Deletion.SpliceTarget | rbt.go:377-382 | the node spliced out is the target itself when it has at most one child, and otherwise `minimum` of its right subtree (which has no left child), in a tree where the target now carries the successor's key and value; with that copy the walk without the spliced node equals the walk without the target |
| Deletion.OnlyChild | rbt.go:384-389 | `x` is one of `y`'s children and carries all of `y`'s descendants' entries |
| Deletion.Unlink | rbt.go:391-414 | linking `x` in `y`'s place, then the fixup for a black `y`, gives a valid-coloured tree whose walk lacks exactly `y`'s entry |
| Deletion.Delete | rbt.go:373-416 | the result satisfies the red-black colour rules and its walk is the old one without the target's entry |
| RedBlackTrees.Make | rbt.go:148-150 | the empty tree is valid with empty content and size 0 |
| RedBlackTrees.Search | rbt.go:195-204 | on an ordered tree, `Some(v)` exactly when the content maps `k` to `v`, else `None` |
| RedBlackTrees.SearchAnswers | rbt.go:313-326 | the node `search` finds is nil iff `k` is absent from the content, and otherwise holds its value |
| RedBlackTrees.Insert | rbt.go:154-191 | the result is valid, its content is the old content updated at `k`, size grows by one iff `k` was absent, and an overwrite keeps the shape |
| RedBlackTrees.Remove | rbt.go:207-213 | the result is valid, its content is the old content without `k`, size drops by one iff `k` was present, and an absent key changes nothing |
| RedBlackTrees.Keys | rbt.go:216-223 | the keys of the in-order walk, strictly ascending on a valid tree, as many as `Size`, and exactly the content's keys |
| RedBlackTrees.PreorderNodes | rbt.go:226-233 | a permutation of the coloured in-order walk (each node once, with its key, value and colour), as many as `Size`, the root first, and in an ordered tree left-subtree nodes before right-subtree nodes |
| RedBlackTrees.Size | rbt.go:236-238 | returns the cached count; on a valid tree it is the number of keys stored |
| RedBlackTrees.SizeCounts | rbt.go:236-238 | on a valid tree the cached count equals the number of keys in the content and in `Keys` |
| RedBlackTrees.IsValidRBTreeIff | rbt.go:250-269 | the validator accepts iff the root is present and the tree is red-black with all keys strictly inside the bounds |
| RedBlackTrees.EmptyTreeIsNotValid | rbt.go:248-254 | the empty tree is rejected by the validator although it satisfies the invariant |
| RedBlackTrees.InsertKeepsValidator | rbt.go:154-191 | inserting a key inside the bounds into a valid tree with keys inside the bounds gives a tree the validator accepts |
| RedBlackTrees.RemoveKeepsValidator | rbt.go:207-213 | removing a key from an accepted tree gives an accepted tree iff the result is non-empty |
| RedBlackTrees.SearchAfterInsert | rbt.go:195-204 | after inserting `v` at `k`, `k` answers `v` and every other key answers as before |
| RedBlackTrees.SearchAfterRemove | rbt.go:207-213 | after removing `k`, `k` is absent and every other key answers as before |
| RedBlackTrees.OverwriteKeepsSizeAndShape | rbt.go:179-182 | inserting a present key keeps the size and every colour, key and link |
| RedBlackTrees.ExtremeKeyRejected | rbt.go:92-101 | a valid one-node tree holding the upper bound's key is rejected by the bounded validator |
| RedBlackTrees.IsValidTreeIff | rbt.go:250-269 | the validator with an unbounded search-tree check accepts exactly the non-empty red-black trees |
| RedBlackTrees.ValidTreePasses | rbt.go:250-269 | every valid tree passes the unbounded validator iff it is non-empty |

## Left out

- Keys are `int`. The Go key type is any `constraints.Ordered` type, and the value type stays a
  type parameter `V`.
- `utils.MinValue`/`utils.MaxValue` (reflection over the key type) are not modelled. The
  validator takes the two bounds as parameters `minKey`/`maxKey`.
- `Color.String`, `Node.String` and the `panic("invalid node color")` in `Color.String` are not
  modelled. They are formatting only.
- `panic("parent has no grandparent")` (rbt.go:365-366) is not a behaviour of the model.
  `Insertion.ParentHasGrandparent` proves the branch unreachable.
- `MakeNode` and the `Node` record's parent field have no counterpart. Nodes are built by the
  datatype constructor, and the zipper holds the ancestors.
- Pointer aliasing is not modelled. Go's `Preorder` returns shallow node copies whose `left`,
  `right` and `parent` pointers still lead into the live tree. The model returns
  `Snapshot(key, value, color)` values, which carry no links.
- The `size` field is an unbounded integer. Go's `int` is 64 bits wide on 64-bit platforms and 32
  bits wide on 32-bit ones, so the Go count would wrap after 2^63−1 or 2^31−1 stored keys. Only
  an insert of a new key increments it; overwrites leave it alone.
- RedBlackTrees.PreorderNodes: the visiting order is stated at the root only (root first, then
  the left subtree's nodes, then the right subtree's). That the same order holds again inside each
  subtree is not part of its contract.
- RedBlackTrees.Insert: requires `Valid(t)`, the invariant that every tree built by `Make`,
  `Insert` and `Remove` satisfies. The Go fields are unexported, so no other tree can reach the
  method. On arbitrary pointer structures the Go code can dereference nil; the model does not
  describe that.
- RedBlackTrees.Remove: requires `Valid(t)`, for the same reason as `Insert`.
- Deletion.SpliceTarget: the successor's key and value are copied into the target node before the
  successor is unlinked. Go copies them afterwards (rbt.go:406-409). The successor is a different
  node from the target, so the two orders give the same tree.
- Deletion.DeleteFixup: the `deleteFixup` loop starts from the position the spliced node
  occupied, i.e. from `x` and `y.parent`. As in Go, `x` may be nil there.
- RedBlackTrees.Search: it states its answer under `Ordered(t.root)`, which every valid tree
  satisfies. On an unordered tree it still follows Go's descent, but the result is not related to
  the content.
- The Go tests and benchmarks (`rbt_test.go`, `utils`) are not part of this model. Their
  assertions correspond to `Valid`, `IsValidRBTreeIff` and the content contracts.

## Findings

| source | as written | input that shows it | evidently intended | confidence | as-written member | corrected member |
|---|---|---|---|---|---|---|
| rbt.go:96 with rbt.go:256 | `isBinarySearchTree` is started on the open interval (`MinValue`, `MaxValue`) of the key type and rejects `node.key <= minKey \|\| node.key >= maxKey` | a tree holding one key equal to the key type's maximum (for `int`, `math.MaxInt`), built by `Insert` into an empty tree | the bounds stand for "no bound", so every key value is allowed and a valid non-empty tree passes | medium; not executed | RedBlackTrees.ExtremeKeyRejected | RedBlackTrees.IsValidTreeIff |
