# Treap engine of bst::set / bst::map, in Dafny

This project models the treap behind the library's `bst::set` and
`bst::map` containers (`bst::impl::treap` in `src/bst.h`), together with
the `strndup` helper that the test programs use (`tests/strndup.h`).

The treap is a binary search tree on keys that is also a max-heap on
random 32-bit priorities. Every node holds a record, a priority and three
pointers: left, right and par. A sentinel header node is the `end()`
position:

- its `par` slot is the root;
- its `left` slot is the minimum node (`begin()`), or the header itself
  when the treap is empty;
- its `right` slot is the maximum node (`rightmost()`), or the header
  itself when the treap is empty;
- its priority is `UINT32_MAX`, so rotations never lift a node above it.

The model has four modules:

- `Trees` (trees.dfy): the treap as a value. A `Tree` records each node's
  id, key and priority. `Elems` is its in-order sequence of `Item(id,
  key)`. It also defines the BST order, the heap order and the pure merge
  `MergeTree`, plus the in-order `Successor` and `Predecessor` that
  iterator `++` and `--` must compute.
- `Links` (links.dfy): the node arena. A `seq<NodeRec>` indexed by node
  id stands in for the heap of `node` objects, with index 0 as the header
  and `NIL` as `nullptr`. `Linked(t, q, ns)` says the arena realises tree
  `t` hanging below `q`. `Kept` is what `assign_and_keep` does to the
  arena. A `Slot` names the pointer variable `dst` refers to: a node's
  left or right field, or a caller's local pointer.
- `TreeEdits` (edits.dfy): the tree-level effect of each mutation, with
  lemmas that these edits keep the in-order sequence, the ids, the order
  and the heap. The edits are grafting a leaf, rotating at a node and
  erasing a node, which replaces it by the merge of its children.
- `Treaps` (treap.dfy): class `Treap`. Its fields are the arena `nodes`,
  the counter `size` (`size_`) and a ghost `tree` that the arena realises.
  The invariant `Valid()` states four things:
  - the arena is linked to `tree`;
  - keys strictly increase in order;
  - priorities form a heap under the header;
  - the header caches the first and last node, and `size` counts the
    nodes.

  Every operation the containers' interface uses is a method of the
  class, as is every private helper that changes the tree. Each contract
  is stated against the in-order sequence `Elems(tree)`. The private
  accessors `root()`, `n_begin()`, `n_rightmost()`, `rightmost()` and
  `key_of()` become direct reads of the header record and of a node's
  `key` field.

Keys and mapped values are integers compared with `<`. Priorities are
the subtype `u32` of integers in `[0, UINT32_MAX]`. They are passed in as
parameters because the source draws them from a random generator. An
iterator is the index of its node.

`strndup.dfy` (module `StrNDup`) models `strndup(s, n)`. `PrefixLen`
and `Dup` specify the copy. The method `Strndup` keeps the source's scan
loop and copy loop over arrays.

## Model

| member | source | states |
|---|---|---|
| `Treaps.Treap.constructor` | src/bst.h:78-83 | A new treap is valid and empty. The header's begin and rightmost slots point at the header itself, and the root is null. |
| `Treaps.Treap.Size` | src/bst.h:213-215 | `size()` is the number of items in the in-order sequence. |
| `Treaps.Treap.Empty` | src/bst.h:217-220 | `empty()`, computed as `begin() == end()`, is true exactly when there are no items. |
| `Treaps.Treap.Begin` | src/bst.h:197-199 | `begin()` is the first item's node, or `end()` when the treap is empty. |
| `Treaps.Treap.End` | src/bst.h:205-207 | `end()` is the header. |
| `Treaps.Treap.LowerBound` | src/bst.h:110-130 | The result is the node at the position `i` where every earlier key is less than `k` and no later key is; past the last item it is `end()`. |
| `Treaps.Treap.UpperBound` | src/bst.h:133-147 | The result is the node at the first position whose key is greater than `k`, with every earlier key at most `k`; otherwise `end()`. |
| `Treaps.Treap.Find` | src/bst.h:97-100 | The result is `end()` exactly when no item has key `k`; otherwise it is the node holding `k`. |
| `Treaps.Treap.Next` | src/bst.h:294-315 | `++it` on a node gives its in-order successor, and gives `end()` after the last node. This includes the header special case at line 303. |
| `Treaps.Treap.NextUp` | src/bst.h:295-306 | With no right child, `++` climbs while the node is its parent's right child and then steps to the parent. This gives the in-order successor, and the header (`end()`) after the last node. |
| `Treaps.Treap.UpResult` | src/bst.h:296-306 | Once the climb stops at a node that is not its parent's right child, the parent is the successor. The line 303 test selects the node itself, which is then the header. |
| `Treaps.Treap.NextDown` | src/bst.h:308-313 | With a right child, stepping right and then left as far as possible gives the in-order successor. |
| `Treaps.Treap.Prev` | src/bst.h:338-360 | `--it` on any position except `begin()` gives its in-order predecessor. From `end()` it gives the last node, either through the header's rightmost slot or by descending from the root. |
| `Trees.PredecessorOfSuccessor` | src/bst.h:291-315 | `--` undoes `++`: the predecessor of a node's successor is that node. |
| `Trees.SuccessorOfPredecessor` | src/bst.h:335-360 | `++` undoes `--` on every position but `begin()`, including `end()`. |
| `Trees.AdvanceFromFirst` | src/bst.h:294-315 | `k` increments from `begin()` reach the `k`-th item, and exactly `size()` increments reach `end()`. |
| `Treaps.Treap.RotateRight` | src/bst.h:479-502 | After the rotation the arena realises the tree rotated right at `par`. Only `par`, `child`, the moved subtree and `par`'s old parent are written; that parent is the header's root slot when `par` was the root. Records are untouched. |
| `Treaps.Treap.RotateLeft` | src/bst.h:504-526 | The mirror image of `RotateRight`. |
| `TreeEdits.RotateRightAtShape` | src/bst.h:479-502 | A right rotation keeps the in-order sequence and the set of ids. The lifted child's subtree grows, which is why the sift-up loop ends. |
| `TreeEdits.RotateLeftAtShape` | src/bst.h:504-526 | The mirror image of `RotateRightAtShape`. |
| `TreeEdits.RotateRightAtHeap` | src/bst.h:570-578 | Rotating a child above a parent of lower priority moves the single heap violation one level up. |
| `TreeEdits.RotateLeftAtHeap` | src/bst.h:570-578 | The mirror image of `RotateRightAtHeap`. |
| `Treaps.Treap.CreateNode` | src/bst.h:696-702 | `create_node` appends an unlinked record with the given key, value and priority, and increments `size_`. The tree is unchanged. |
| `Treaps.Treap.LinkLeaf` | src/bst.h:548-566 | The new node becomes a leaf. Its parent is `pos` when `pos` has no left child, and otherwise `prev(pos)`, where it becomes the right child. The tree is the old tree with that one leaf grafted in, so every other subtree is unchanged. The node lands exactly at its in-order position, and the heap holds everywhere except at the new node. |
| `TreeEdits.OrderedInsert` | src/bst.h:548-566 | Inserting a key at a position where it fits keeps the keys strictly increasing. |
| `Treaps.Treap.SiftUp` | src/bst.h:569-579 | The rotation loop restores the heap order. It keeps the in-order sequence and the header's begin and rightmost slots. |
| `Treaps.Treap.FixEnds` | src/bst.h:581-588 | Afterwards the header's begin and rightmost slots are the first and last items of the new sequence. Only those two slots change. |
| `Treaps.Treap.InsertAt` | src/bst.h:531-591 | `insert_(pos, value)` puts the new node at the position just before `pos`, and the treap stays valid. The empty-treap case is included. |
| `Treaps.Treap.Insert` | src/bst.h:152-160 | The insertion happens exactly when the key is absent. If it is present, nothing changes and the result is the node holding it. Otherwise the new node sits at the key's sorted place, and the result always holds the key. |
| `Treaps.LowerFits` | src/bst.h:154-159 | The lower_bound position of an absent key is where that key belongs. |
| `Treaps.FitsUnique` | src/bst.h:152-178 | A key fits at one position only, and only when it is absent. |
| `Treaps.Treap.HintKept` | src/bst.h:166-172 | A hint is kept only when it is exactly the key's insertion position. Every correct hint other than `end()` is kept. |
| `Treaps.HintFits` | src/bst.h:170 | A hint whose key is greater than `k`, with a predecessor whose key is less than `k`, is the key's insertion position. |
| `Treaps.Treap.InsertHint` | src/bst.h:166-178 | The same result as `insert(value)`, whatever the hint. |
| `Treaps.AddedUnique` | src/bst.h:166-178 | Inserting a key gives the same sequence whether its position came from a hint or from lower_bound. |
| `Treaps.Treap.Index` | src/bst.h:223-231 | `operator[]` returns the node holding the key. The treap is unchanged when the key is present. Otherwise a node with a value-initialised mapped value (0) is inserted at the key's place. |
| `Treaps.Treap.SetMapped` | src/bst.h:223-225 | Writing through the returned reference changes only that node's mapped value. |
| `Treaps.Treap.Store` | src/bst.h:630 | Writing a pointer through a reference changes only the named slot. |
| `Treaps.Treap.AssignAndKeep` | src/bst.h:614-665 | The arena becomes `Kept(old, dst, src, par)`, i.e. slot `dst` is overwritten with `src`; afterwards `src` has `par` as parent and, when `dst` was not null and `par` is a node, `src` is `par`'s left or right child (the source's closing asserts). |
| `Links.KeptChild` | src/bst.h:648-664 | For a node's own child slot, `assign_and_keep` re-points that slot and has the new child adopt the node. |
| `Links.KeptLocal` | src/bst.h:614-665 | Through a caller's local pointer, only `src`, `par` and the header change. `par`'s child slot that held the old node now holds `src`, and under the header the root slot does. |
| `Treaps.Treap.DestroyNode` | src/bst.h:704-713 | `destroy_node` lowers `size_` by the number of nodes in the subtree it frees. |
| `Treaps.Treap.AssignAndDestroy` | src/bst.h:670-690 | The arena becomes `assign_and_keep`'s result with the old node's children cleared, and `size_` drops by one. When `size_` reaches 0 the header is reset to the empty state. |
| `Trees.MergeTreeFacts` | src/bst.h:441-466 | The merge's in-order sequence is the left one followed by the right one, and its ids are their union. Distinct ids and the heap order are kept. |
| `Treaps.MergeStepLeft` | src/bst.h:457-459 | When `lhs` has the lower priority, re-hanging `merge(lhs, rhs->left)` under `rhs` realises the merged tree. |
| `Treaps.MergeStepRight` | src/bst.h:461-465 | Otherwise, re-hanging `merge(lhs->right, rhs)` under `lhs` realises the merged tree. |
| `Treaps.Treap.Merge` | src/bst.h:445-466 | The result is the root of the merged tree, and the arena realises that tree. Only the nodes of the two inputs are written, and the root keeps its parent. |
| `Treaps.Treap.EraseEnds` | src/bst.h:594-604 | `erase_` first computes `next(pos)`. If `pos` was first, begin moves to its successor; if it was last, rightmost moves to its predecessor. |
| `Treaps.RemovedEnds` | src/bst.h:598-604 | Once an item is removed, the first and last items are as `erase_` updates them. |
| `Treaps.EraseLinked` | src/bst.h:606 | Hanging the merge of the erased node's children in its place realises the tree with that node erased. |
| `Treaps.Treap.Unlink` | src/bst.h:606 | The tree becomes the old tree with `pos` erased, and `size_` drops by one. An emptied treap gets its header reset. |
| `TreeEdits.EraseFacts` | src/bst.h:594-609 | Erasing a node removes exactly its item from the in-order sequence and its id from the set of ids, and keeps the heap order. |
| `TreeEdits.OrderedRemove` | src/bst.h:594-609 | Removing an item keeps the keys strictly increasing. |
| `Treaps.Treap.EraseAt` | src/bst.h:594-609 | `erase(pos)` removes exactly `pos`'s item and returns the in-order successor it had, which is the node now at that position. The treap stays valid. |
| `Treaps.Treap.Erase` | src/bst.h:188-195 | `erase(key)` returns 0 exactly when the key is absent, and then nothing changes. Otherwise it returns 1, the item holding the key is removed, and no item with the key remains. |
| `Treaps.RemovedKeyGone` | src/bst.h:188-195 | In an ordered sequence, removing the item holding a key leaves no item with that key. |
| `StrNDup.PrefixLen` | tests/strndup.h:17-23 | The copied length is at most `n`. No NUL comes before it, and when it is below `n` it is the position of a NUL. |
| `StrNDup.PrefixLenUnique` | tests/strndup.h:17-23 | Those three facts determine the length. |
| `StrNDup.ScanInBounds` | tests/strndup.h:18-19 | The scan never reads past the readable characters. |
| `StrNDup.Strndup` | tests/strndup.h:12-31 | A null `s` gives null. Otherwise the result is a fresh array of `PrefixLen + 1` characters: the prefix of `s`, then NUL. |
| `StrNDup.DupIdempotent` | tests/strndup.h:25-28 | The copy is a proper NUL-terminated string. Copying it again with a bound that reaches its NUL gives it back unchanged. |

## Left out

- The random priority generator (`src/bst.h:719-733`) is a `std::minstd_rand` shared by all treaps. Priorities are an input of `CreateNode`, `Insert`, `InsertHint` and `Index` instead. Nothing proved depends on their values.
- `INSTRUMENT_DEPTH` counters (`src/bst.h:106-128`) are not modelled. They are debug instrumentation.
- Memory allocation is not modelled. This covers the allocator, `get_allocator` and `get_node_allocator`. Nodes live in an arena whose slots are never reclaimed: `destroy_node` only adjusts `size_`, and a destroyed node's record stays in the arena, unreachable.
- The destructor (`src/bst.h:85-92`) is not modelled. Its only effect is deallocation.
- Copy and move are not modelled, because the source leaves them unimplemented.
- `const_iterator`, `operator->`, postfix `++`/`--` and iterator comparison are not modelled. They are thin wrappers over the modelled operations.
- The `bst::set` and `bst::map` front ends, `src/main.cpp` and the debug allocator are not part of this model.
- Keys are integers compared with `<`, not an arbitrary `Compare`. `Find` and `insert` use `==` for equivalence, as the source does.
- `Treaps.Treap.HintKept`: the header's record is value-initialised, so at `end()` the source compares `k` with key 0. A correct `end()` hint is therefore kept only for negative keys; otherwise `lower_bound` is used. The result is the same either way, as `InsertHint` and `AddedUnique` show.
- `StrNDup.Strndup`: the source's loop counter is an `int` compared with a `size_t`. Bounds beyond `INT_MAX` are not modelled, because the counter is unbounded here.
- `StrNDup.Strndup`: memory is an array plus a readability precondition. The precondition says that the first `n` characters are readable, or that a NUL comes before the end of the array. Reading beyond the array is undefined behaviour in the source and is excluded.
