# AVL tree with parent links — a Dafny model

This project models the engine of `avltree<T>` in `src/avltree.hpp`. It is a
binary search tree whose nodes carry a key, a balance tag (`LH = -1`,
`EH = 0`, `RH = +1`) and left, right and parent pointers. The operations are:

- Insertion: descend to a null slot, link a fresh `EH` leaf, then walk up
  with `rebalance_after_insert` / `handle_subtree_growth`, doing at most
  one single or double rotation.
- Lookup by key.
- Removal:
  - A node with two children first trades places with its in-order
    successor (`swap_with_successor`).
  - The node is then unlinked.
  - The walk then goes up with `handle_subtree_shrink`, which may rotate
    at several levels.
- An in-order cursor: `begin`, `end`, `advance`, built on `leftdown` and
  `leftup`.
- The self-check `sanity` / `insanity`. It recomputes the subtree depths,
  the parent links, the balance tags, the BST bounds and the node count.

## How the heap is modelled

- The heap is an arena of parallel sequences, fields of class
  `AvlTrees.AvlTree`: `data`, `balance`, `left`, `right`, `parent`.
- A node is an index. The null pointer is `NIL = -1`.
- `root` and `size` are the tree's own fields; `size` is `the_size`.
- The arena only grows: an unlinked node stays in the arena but is no
  longer reachable.
- Each method changes these fields step by step, as the C++ code changes
  its pointers.

Beside the fields, two ghost fields state what the pointers mean:

- `shape`, a `Tree` (`Nil | Br(l, id, r)`): the tree of node ids that the
  links spell out.
- `rotations`, a count of the rotations done.

The predicates are:

- `Rep`: the links, including every parent link, spell out `shape`
  exactly.
- `Ordered`: the keys along the in-order sequence increase strictly.
- `AVL`: every node's tag equals the height of its right subtree minus
  the height of its left subtree, and that difference lies in -1..1.
- `Valid()`: all of the above, and `size` equals the number of nodes.

Walks up the tree carry a zipper. A zipper is a sequence of `Frame`s, the
path from a subtree back to the root. `Plug(Z, S)` rebuilds the whole tree
from the path and the subtree. The rebalancing invariants are:

- `Grown`: a subtree has grown by one level, not yet recorded in the
  tags above it.
- `Shrunk`: a subtree has shrunk by one level, not yet recorded in the
  tags above it.
- `Settled`: the walk can stop.

The modules are:

- `AvlShape`: trees, zippers and the link representation.
- `AvlBalance`: tags, and the tag rules of rotations.
- `AvlOrder`: keys and order.
- `AvlLinks`: pointer surgery on sequences.
- `AvlRebalance`: the walk invariants.
- `AvlWalk`: in-order successor and erasure.
- `AvlSteps` and `AvlRemoval`: the proof steps of insertion and removal.
- `AvlCheck`: `sanity` and `insanity` as compiled functions.
- `AvlTrees`: the class.

## Model

| member | source | states |
|---|---|---|
| AvlTrees.AvlTree.constructor | src/avltree.hpp:23 | a new tree is valid, empty, with no root and size 0 |
| AvlTrees.AvlTree.Size | src/avltree.hpp:38 | the reported size is the number of distinct keys stored |
| AvlTrees.AvlTree.Clear | src/avltree.hpp:41-45 | afterwards the tree is valid and empty with size 0 |
| AvlTrees.AvlTree.Sanity | src/avltree.hpp:47-51 | for any arena whose child links spell out a finite tree, sanity() is true exactly when the parent links match, the keys are strictly increasing in order, every tag is the height difference within -1..1, and the_size is the node count |
| AvlCheck.Sanity | src/avltree.hpp:47-51 | the same iff, over bare sequences: an empty tree is sane exactly when the size is 0; otherwise insanity must succeed and its node count must equal the size |
| AvlCheck.Insanity | src/avltree.hpp:77-115 | the count returned is n plus the number of nodes in the subtree; the depth returned is -1 (failure) or depth plus the subtree's height, so a nil child yields depth-1 |
| AvlCheck.ChildBounds | src/avltree.hpp:84-104 | the bounds passed to each child always include the current key at one end (a one-sided bound is encoded as min == max) |
| AvlCheck.InsanityMeaning | src/avltree.hpp:77-115 | insanity succeeds exactly when the links from t up to p are consistent, the subtree is ordered and AVL, and (unless t is the root) all its keys lie within the bound described by min, max and isleft |
| AvlCheck.InsanityChecks | src/avltree.hpp:81-114 | by induction: success is exactly parent consistency, AVL tags and the recursive BST bound tests |
| AvlCheck.BoundsMeaningAll | src/avltree.hpp:84-104 | the recursive bound tests hold exactly when the subtree is ordered and lies entirely within the one- or two-sided range handed to it |
| AvlCheck.RootOnce | src/avltree.hpp:84 | in a finite link structure the root does not occur below itself, so the `t == root` test fires only at the top |
| AvlCheck.OrderedDistinct | src/avltree.hpp:101 | strictly increasing in-order keys imply that no node occurs twice |
| AvlBalance.SingleRotationAVL | src/avltree.hpp:318-324 | a single rotation over a child heavy in the same direction (or EH) yields an AVL subtree under the new tags; the height drops by one unless the child was EH |
| AvlBalance.DoubleRotationAVL | src/avltree.hpp:453-477 | a double rotation with the tags written by double_rotate yields an AVL subtree of the heavy child's height |
| AvlLinks.ReplaceChildSlot | src/avltree.hpp:129-138 | when the old child is the root of a subtree hanging in the tree, the new child lands in exactly the link of the parent that held it (the left one exactly when it was a left child) and the other link stays; with a null parent the root pointer becomes the new child |
| AvlTrees.AvlTree.Rotate | src/avltree.hpp:399-412 | the links become the rotation of the old links; keys, balance tags, size and shape are untouched |
| AvlLinks.RotationShape | src/avltree.hpp:399-412 | rotate's link writes spell out the rotated tree: B takes A's slot (or becomes the root), every parent link stays consistent, and no node is duplicated |
| AvlShape.RotatedKeeps | src/avltree.hpp:399-412 | a rotation preserves the in-order sequence, the set of nodes, the count and distinctness |
| AvlTrees.AvlTree.DoubleRotate | src/avltree.hpp:453-477 | returns E (the inner grandchild); the links become the double rotation; A, B and E get the tags set by the sign-of-E rules; keys and size are untouched |
| AvlLinks.DoubleRotationShape | src/avltree.hpp:453-477 | double_rotate's link writes spell out the double-rotated tree with E in A's slot and consistent parent links |
| AvlShape.DoubleRotatedKeeps | src/avltree.hpp:453-477 | a double rotation preserves the in-order sequence, the nodes, the count and distinctness |
| AvlTrees.AvlTree.Lookup | src/avltree.hpp:516-532 | returns NIL exactly when x is absent; otherwise a node in the tree whose key is x; it changes nothing |
| AvlTrees.AvlTree.LeftDown | src/avltree.hpp:166-170 | returns the first node of the subtree's in-order sequence (NIL for an empty subtree) |
| AvlTrees.AvlTree.LeftUp | src/avltree.hpp:174-178 | returns the first node that follows the subtree in the whole tree's in-order sequence (NIL when none does) |
| AvlWalk.NextInTree | src/avltree.hpp:488-494 | a node's in-order successor is the leftmost node of its right subtree if there is one, else the first node after its subtree |
| AvlTrees.AvlTree.Advance | src/avltree.hpp:488-494 | advancing the end is a no-op; otherwise the result is the node with the next larger key, or the end after the maximum |
| AvlWalk.NextKey | src/avltree.hpp:488-494 | in an increasing sequence the successor has the least key above the current one, and is NIL exactly at the last position |
| AvlTrees.AvlTree.Begin | src/avltree.hpp:507-509 | returns the leftmost node, which holds the minimum key, or the end when the tree is empty |
| AvlTrees.AvlTree.End | src/avltree.hpp:510-512 | the end cursor is the null node, which is no node of the tree (so `Lookup` of an absent key and `Advance` of the last node both return it) |
| AvlTrees.AvlTree.Insert | src/avltree.hpp:182-193 | the tree stays valid and its keys gain x; a present key changes nothing at all; otherwise size grows by one and at most one rotation is done |
| AvlTrees.AvlTree.InsertFirst | src/avltree.hpp:183-185 | inserting into an empty tree makes a single-node root and size 1 |
| AvlTrees.AvlTree.InsertAt | src/avltree.hpp:198-213 | either x was present and nothing changed, or the returned node is a new EH leaf in the next arena slot holding x, hung in the hole where the search fell off the old tree; the tree stays ordered with x added, and the tags above it are unchanged |
| AvlTrees.AvlTree.NewNode | src/avltree.hpp:73-74 | appends a node with key x, tag EH, no children and parent t, and links it on the requested side of t |
| AvlSteps.Descend | src/avltree.hpp:199-211 | one step of the descent: an equal key is present, a smaller one belongs in the left subtree, a larger one in the right |
| AvlSteps.AttachLeafKeys | src/avltree.hpp:202-207 | linking the new leaf in its slot keeps the tree ordered, adds exactly x to its keys, and x was absent before |
| AvlSteps.AttachLeafLinks | src/avltree.hpp:202-207 | the new leaf's parent link and its parent's child link make the links spell out the tree with the leaf in place |
| AvlTrees.AvlTree.RebalanceAfterInsert | src/avltree.hpp:216-234 | the walk leaves an AVL tree with the same in-order sequence and at most one more rotation |
| AvlRebalance.GrowFromLeaf | src/avltree.hpp:219-223 | the new leaf's parent was EH or leaned away; after adjusting it, it is either balanced (done) or has grown |
| AvlTrees.AvlTree.HandleSubtreeGrowth | src/avltree.hpp:255-370 | false only when p was EH: p then leans toward t, nothing else changes and the growth moves up one level; true means the tree is AVL again after at most one rotation |
| AvlRebalance.GrowAbsorbed | src/avltree.hpp:267-271 | if p leaned away from the grown side, setting p to EH makes the whole tree AVL |
| AvlRebalance.GrowPropagates | src/avltree.hpp:259-264 | if p was EH, leaning it toward the grown side moves the growth up to p |
| AvlTrees.AvlTree.GrowthRotate | src/avltree.hpp:318-324 | a single rotation at p, with both tags set to EH, makes the tree AVL without changing the in-order sequence |
| AvlRebalance.GrowRotated | src/avltree.hpp:318-324 | after the single rotation the rotated subtree is exactly as tall as before the insertion |
| AvlTrees.AvlTree.GrowthDoubleRotate | src/avltree.hpp:365 | a double rotation makes the tree AVL without changing the in-order sequence |
| AvlRebalance.GrowDoubleRotated | src/avltree.hpp:337-365 | after the double rotation the subtree is exactly as tall as before the insertion |
| AvlSteps.GrowthRotation | src/avltree.hpp:318-324 | the rotation's links and tags give a linked AVL tree with the same in-order sequence |
| AvlSteps.GrowthDoubleRotation | src/avltree.hpp:365 | the double rotation's links and tags give a linked AVL tree with the same in-order sequence |
| AvlTrees.AvlTree.Remove | src/avltree.hpp:537-544 | returns true exactly when x was present; the tree stays valid without x and size drops by one; an absent key changes nothing |
| AvlTrees.AvlTree.RemoveAt | src/avltree.hpp:547-552 | removing the node under a valid cursor drops its key and decrements the size |
| AvlTrees.AvlTree.RemoveNode | src/avltree.hpp:556-600 | unlinks exactly that node: the in-order sequence loses it and the tree stays linked and AVL |
| AvlTrees.AvlTree.Unlink | src/avltree.hpp:578-593 | returns the old parent and whether the node was its left child; the links become those with the node spliced out (its child, if any, takes its place and parent) |
| AvlRemoval.UnlinkLinks | src/avltree.hpp:578-593 | splicing out a node with at most one child leaves links that spell out the tree with that child in its place |
| AvlRemoval.UnlinkKeeps | src/avltree.hpp:578-593 | the in-order sequence loses exactly the node, and the remaining subtree is one level short of what the tags above it expect |
| AvlTrees.AvlTree.SwapWithSuccessor | src/avltree.hpp:605-660 | the node leaves the in-order sequence; its successor (the leftmost node of its right subtree) takes its left child, parent and balance tag; returns the successor's old parent (or the successor itself) and which side shrank |
| AvlRemoval.SwapKeeps | src/avltree.hpp:605-660 | after the swap the in-order sequence is the old one without x, the node that moved is x's successor, and the shrink walk starts from its old place |
| AvlRemoval.SwapNextLinks | src/avltree.hpp:607-620 | when the right child has no left child, letting it take x's place gives consistent links |
| AvlRemoval.SwapDeepLinks | src/avltree.hpp:622-658 | when the successor lies deeper, moving it into x's place gives consistent links |
| AvlTrees.AvlTree.PromoteSuccessor | src/avltree.hpp:607-620 | the right child takes x's place, left child, parent and tag |
| AvlTrees.AvlTree.SpliceSuccessor | src/avltree.hpp:622-658 | the leftmost node of the right subtree is spliced out of its parent and takes x's place, left child, parent and tag |
| AvlTrees.AvlTree.AdoptRight | src/avltree.hpp:647-648 | the successor takes x's right child, and that child's parent link points to it |
| AvlTrees.AvlTree.MoveSuccessor | src/avltree.hpp:653-658 | the successor takes x's left child, parent and tag, and x's parent now points to it |
| AvlWalk.EraseSub | src/avltree.hpp:556-600 | erasing a node from an increasing sequence leaves an increasing sequence |
| AvlRemoval.EraseKeys | src/avltree.hpp:537-544 | removing one node from an ordered tree keeps it ordered, removes exactly its key and lowers the count by one |
| AvlTrees.AvlTree.HandleSubtreeShrink | src/avltree.hpp:687-786 | returns NIL only once the tree is AVL again, and then only if p was EH, or p was the root, or a single rotation over an EH child happened; otherwise it returns the next parent, strictly higher, with the correct shrunk side |
| AvlRebalance.ShrinkAbsorbed | src/avltree.hpp:693-700 | if p was EH, leaning it toward the other side makes the whole tree AVL |
| AvlRebalance.ShrinkPropagates | src/avltree.hpp:702-709 | if p leaned toward the shrunk side, setting it to EH moves the shrinkage up to p |
| AvlRebalance.ShrinkTall | src/avltree.hpp:711-714 | when p leans away from the shrunk side, its other child exists and is two levels taller |
| AvlTrees.AvlTree.ShrinkRotate | src/avltree.hpp:722-778 | the walk stops exactly when the heavy child was EH, leaving an AVL tree; otherwise the rotated subtree is one level short |
| AvlRebalance.ShrinkRotatedStop | src/avltree.hpp:726-774 | a rotation over an EH child leaves the subtree's height unchanged, so the tree is AVL |
| AvlRebalance.ShrinkRotated | src/avltree.hpp:776-777 | a rotation over a same-side heavy child, with both tags set to EH, leaves the subtree one level short |
| AvlTrees.AvlTree.ShrinkDoubleRotate | src/avltree.hpp:780 | the double rotation returns E, which is the new subtree root, and that subtree is one level short |
| AvlRebalance.ShrinkDoubleRotated | src/avltree.hpp:780 | a double rotation with double_rotate's tags leaves the subtree one level short |
| AvlSteps.ShrinkRotation | src/avltree.hpp:722-778 | the rotation at p keeps the links consistent and the in-order sequence, and yields the stop or continue state by t's old tag |
| AvlSteps.ShrinkDoubleRotation | src/avltree.hpp:780 | the double rotation keeps the links consistent and the in-order sequence, and yields the continue state |
| AvlSteps.ShrinkChild | src/avltree.hpp:714 | `child(p, sign)` is the taller sibling and its tag is within -1..1 |

## Left out

- `src/container.hpp` is not part of this model. A cursor is a node id,
  with `NIL` for the end, and two cursors are equal when their ids are.
- `src/avltest.cpp`, the test driver, is not modelled.
- The copy constructor, assignment, the destructor, `copy` and `purge`
  (lines 25-35, 146-162) are left out. Memory release (`delete` in
  `remove`) is also left out: unlinked nodes stay unreachable in the
  arena.
- Keys are `int` rather than a generic `T` with `<` and `>`.
- `balance_type` is an unbounded `int`. The tags stay within -1..1
  whenever `AVL` holds, so the `signed char` range never matters.
- The `dynamic_cast` in `remove(Iterator)` (line 548) is not modelled.
  Instead, `AvlTrees.AvlTree.RemoveAt` requires the cursor to denote a
  node of the tree.
- Insanity terminates on a finite link structure only. Its ghost tree
  argument (`Spells`) expresses that assumption, so `AvlCheck.Insanity`
  and `AvlTrees.AvlTree.Sanity` are stated only for arenas whose child
  links spell out a finite tree. Cyclic child links are outside the model.
- AvlCheck.Insanity: the BST test of a one-sided bound compares with
  `t->parent->data`. The model compares with the key of `p`, the parent
  the walk came from. The two agree whenever the parent check passes;
  when it fails the result is -1 either way. The source would dereference
  a null pointer where a non-root node has a null parent link; the model
  has no such case.
- The `do … while` loops (lines 226-233, 597-599, 623-626) are `while`
  loops with the first iteration unrolled, or guarded by the same
  condition. Each iteration does the same work.
- The rotation counter is a ghost field that exists only to state
  "at most one rotation per insertion"; the source has no counter.
