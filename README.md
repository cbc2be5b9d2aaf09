# tbp: a copy-on-write B+ tree, modelled in Dafny

`tbp` is an in-memory ordered key/value index. It is a B+ tree whose items
live in the leaves. Internal nodes hold separator items and one more child
than separators. Cloning a tree is cheap: a clone shares every node with the
original. A node is forked into the mutating tree's copy-on-write pool
(its "cow") the first time that tree changes it.

This project models the package's core:

- **Item codec** (`codec.dfy`, module `Codec`). An item is a 4-byte
  little-endian key length, then the key, then the value. The module proves
  both round trips of `putUint32`/`getUint32` and of encoding/decoding.
- **Byte-string order** (`bytes.dfy`, module `Bytes`). `bytes.Compare` is
  modelled as lexicographic comparison, and its order laws are proved.
- **Sorted item runs** (`items.dfy`, module `Items`; `leafspec.dfy`, module
  `LeafSpec`). `itemFind`, `itemInsert` and `itemRemove` work on a sorted
  run. The leaf's `insert` and `remove` are specified against the map the
  run denotes (`Contents`).
- **Node pool** (`cow.dfy`, module `Cow`). `copyOnWrite` is a class `Pool`
  with two free stacks of node shells. Its methods follow the stack
  discipline and the capacity bound of `newInter`, `freeInter`, `newLeaf`
  and `freeLeaf`.
- **Nodes** (`node.dfy`, module `Nodes`; `order.dfy`, module `Order`;
  `internal.dfy`, module `Internal`; `remove.dfy`, module `Removal`). A node is a value:
  `Leaf(owner, max, items)` or `Inter(owner, max, items, children)`.
  - `owner` is the cow stamp.
  - `max` is the node size: the capacity `cap(items)` a node is created
    with, fixed for the whole tree. The source's capacity can grow when
    `append` overflows it; that growth is not modelled (see "Left out").
  - `Fork` is `mutableFor`.
  - The internal-node operations (`split`, `splitChild`, `maybeSplit`,
    `stealLeft`, `stealRight`, `mergeRight`, `stealRemove`, `insert`,
    `remove`) are functions on these values.
- **Refinement proofs** (`insertproof.dfy`, `insertfilled.dfy`,
  `rebalance.dfy`, `removeproof.dfy`, `removerefines.dfy`). These prove
  three things:
  - A tree's in-order item sequence (`Flatten`) changes under insert and
    remove exactly as the leaf operation changes a single sorted run.
  - Separator order is kept (`Ordered`, with inherited bounds).
  - Every leaf below the root stays non-empty (`Filled`).
- **Tree handle** (`tree.dfy`, module `Trees`). `Tree` is a class with the
  fields `root`, `size` and `cow`, plus a ghost height. Its methods change
  those fields. Each is proved against the tree's ghost item sequence
  `Items()` and its map `Mapping()`.
- **Iterators** (`iter.dfy`, module `Iterators`; `path.dfy`, module
  `Paths`). `AscendIterator` and `DescendIterator` are classes with the
  source's fields `nstack`, `istack`, `focus`, `idx`, `stop` and
  `inclusive`. `Next` is proved to move one position forward (or back) in
  `Items()`.
- **As-written variants** (`aswritten.dfy`, module `AsWritten`). These are
  the operations whose source differs from what is evidently intended. Each
  comes with a lemma that exhibits the difference (see "Findings").

Go panics that the public surface can reach are modelled as `Err` results
(`Wrappers.Error`), for example an empty key, an index out of range, or
the fork into the nil pool of a tree cloned with `Clone(nil)`.
There is one exception. `Tree.Remove`, `RemoveMin` and `RemoveMax` are
built on the corrected node remove of the Findings rows for
`leaf.go:57-58`, `inter.go:74-96` and `inter.go:177-184`. Where those
lines panic or leave a misordered tree, the model's removal succeeds and
keeps the tree ordered (see "Left out"). Panics that no caller can reach
are excluded by preconditions that the source's own callers always meet.

The code's behaviour is modelled where it may be unexpected:

- `Tree.Remove` rejects an empty key only. The value is not involved.
- `removeMin` and `removeMax` on an empty tree are silent no-ops in the
  code (`leaf.go:35-37`), not an error.
- `Remove` collapses the root when it holds at most one separator
  (`tree.go:70-74`). With exactly one separator it merges children 0 and 1.
  With zero separators `mergeRight(0)` indexes out of range.
- `RemoveMin` and `RemoveMax` never collapse the root, so they can leave
  a root with no separators and one child. On such a root they remove
  from that child when it holds more than max/2 items. Otherwise
  `stealRemove` merges at index -1 and indexes out of range
  (`inter.go:138-142`, `inter.go:171-176`).
- `RemoveMin` and `RemoveMax` do not update `size` (`tree.go:57-63`).

## Model

| member | source | states |
|---|---|---|
| Codec.GetOfPut | tbp/node.go:24-35 | `Codec.GetUint32` (getUint32) reading back the 4 bytes `putUint32` wrote gives the original 32-bit value |
| Codec.PutOfGet | tbp/node.go:24-35 | writing back a 4-byte prefix that `Codec.GetUint32` (getUint32) read reproduces those bytes |
| Codec.PutUint32 | tbp/node.go:24-30 | writes the little-endian digits of v into b[0..4] and leaves the rest of the buffer unchanged |
| Codec.DecodeEncode | tbp/node.go:37-50 | an encoded item is well formed, and `Codec.Key`/`Codec.Val` (itemGetKey/itemGetVal) return exactly the key and value it was built from |
| Codec.EncodeDecode | tbp/node.go:37-50 | re-encoding the key and value of a well-formed item gives back the item |
| Codec.EncodedLength | tbp/node.go:66-70 | an encoded item is 4 + len(key) + len(val) bytes long, and its prefix holds len(key) |
| Codec.SameKeyAndVal | tbp/node.go:47-50 | two well-formed items with the same key and value are the same item, so `itemGet` identifies an item |
| Codec.MakeItem | tbp/node.go:66-71 | builds the buffer `itemInsert` allocates: length prefix, key, value; its key and value decode back when the key fits 32 bits |
| Codec.ReplaceValue | tbp/node.go:79-80 | keeping the key prefix and appending a new value gives an item with the same key and the new value |
| Bytes.Compare | tbp/node.go:54-56 | lexicographic `bytes.Compare` returns -1, 0 or 1, and 0 exactly for equal strings |
| Bytes.CompareAntisymmetric | tbp/node.go:54-56 | swapping the arguments negates the comparison |
| Bytes.LessTransitive | tbp/node.go:54-56 | the byte order is transitive, as the binary search in `itemFind` needs |
| Bytes.LessTotal | tbp/node.go:54-56 | the byte order is total and asymmetric, and "not greater" is the same as "less or equal" |
| Items.SearchIndex | tbp/node.go:53-55 | `sort.Search` returns the first index whose key is above k, with every key before it at most k |
| Items.SearchIndexUnique | tbp/node.go:53-55 | that index is the only one with this property |
| Items.FindSpec | tbp/node.go:52-60 | on a sorted run, `Items.Find` (itemFind) reports found exactly when the key is present; the index is its position, or else the insertion point with smaller keys before it and larger keys after it |
| Items.ItemFind | tbp/node.go:52-60 | the binary-search loop returns the same (index, found) as the specification `Find` |
| Items.ItemInserted | tbp/node.go:62-81 | `itemInsert` either replaces the item at idx or shifts the tail right by one; everything else is unchanged |
| Items.ItemRemoved | tbp/node.go:83-91 | `itemRemove(i)` shifts the tail left by one and drops one item; `itemRemove(-1)` is the i == len-1 case |
| Items.ContentsHasKey | tbp/node.go:52-60 | a key is in the map a run denotes exactly when some item of the run carries it |
| Items.SortedContentsSize | tbp/tree.go:85-87 | a sorted run denotes a map with exactly as many keys as it has items, so the item count is the map's size |
| LeafSpec.InsertSpec | tbp/leaf.go:28-32 | `LeafSpec.Insert` (leaf insert) keeps the run sorted; the returned flag means the key was absent; the length grows by the flag; the map becomes old map [key := val] |
| LeafSpec.InsertWellFormed | tbp/leaf.go:28-32 | leaf insert keeps every item well formed |
| LeafSpec.RemoveAsWritten | tbp/leaf.go:34-62 | the leaf remove as written; when it does not panic, it agrees with the corrected `Remove` |
| LeafSpec.RemoveLastItemPanics | tbp/leaf.go:57-58 | removing the only item of a leaf by key or as the minimum reads `items[0]` of the emptied leaf; the corrected remove empties it |
| LeafSpec.RemoveByKeySpec | tbp/leaf.go:47-61 | `LeafSpec.Remove` by key keeps the run sorted; reports removed exactly when the key was present; the map loses the key; a new first item is reported exactly when the removed key was at index 0 and items remain, and it is the new first item |
| LeafSpec.RemoveMinSpec | tbp/leaf.go:35-46 | `LeafSpec.Remove` in min mode on an empty run changes nothing and reports nothing; otherwise it drops the first item and reports the new first |
| LeafSpec.RemoveMaxSpec | tbp/leaf.go:35-44 | `LeafSpec.Remove` in max mode on an empty run changes nothing; otherwise it drops the last item and reports no new first |
| LeafSpec.RemoveMissingSpec | tbp/leaf.go:47-53 | removing an absent key leaves the run and its map unchanged and reports not found |
| LeafSpec.RemoveFoundSpec | tbp/leaf.go:47-53 | removing a present key shortens the run by one and deletes exactly that key from the map |
| LeafSpec.InsertFrame | tbp/inter.go:147-153 | inserting into a run whose outer parts are below and above the key only changes the middle part: descending into one child is the same as inserting into the whole sequence |
| LeafSpec.RemoveFrame | tbp/inter.go:155-177 | removing from a run whose outer parts lie outside the removed position only changes the middle part, for each of the three modes |
| LeafSpec.RemoveShape | tbp/leaf.go:34-62 | remove drops at most one item; a reported first item is the new first item; found means exactly one item was dropped |
| Nodes.Fork | tbp/node.go:94-109 | `mutableFor` returns the node itself when the cow already owns it; otherwise it returns a copy with the same kind, capacity, items and children, stamped with the cow |
| Nodes.ForkKeeps | tbp/inter.go:13-21 | a fork has the same in-order items and keeps shape, separator order and non-empty leaves |
| Nodes.ChildInserted | tbp/inter.go:29-33 | `childInsert` places the child at idx and shifts the rest right |
| Nodes.ChildRemoved | tbp/inter.go:35-40 | `childRemove` drops the child at idx and shifts the rest left |
| Nodes.ChildInsertRemove | tbp/inter.go:29-40 | removing a child just inserted at idx restores the children |
| Nodes.ChildRemoveInsert | tbp/inter.go:29-40 | inserting back the child removed at idx restores the children |
| Nodes.OrderedFlatten | tbp/node.go:17-21 | a node whose separators bound its subtrees has sorted in-order items that lie within the bounds |
| Nodes.ChildFrame | tbp/inter.go:147-153 | the child that `itemFind` routes a key to holds every item with that key; the items before it are below the key and those after it are above |
| Nodes.FilledFlatten | tbp/inter.go:130-145 | a tree whose leaves below the root are non-empty has a non-empty in-order sequence |
| Internal.Split | tbp/inter.go:42-52 | `split(i)` keeps items[..i] on the left; for an internal node the middle separator moves up and the children are divided, for a leaf the right half starts with the middle item; both halves keep owner and capacity |
| Internal.SplitChild | tbp/inter.go:54-59 | `splitChild` inserts one separator at i and one child after i, and leaves the other separators and children in place |
| Internal.Descend | tbp/inter.go:148-151 | the routing step of insert keeps the node well shaped and in the same pool, never loses a separator, and picks a valid child index |
| Internal.Insert | tbp/node.go:124-133 | insert on a leaf or an internal node keeps the node well shaped at the same height, in the same pool and of the same kind, and never loses a separator |
| Internal.MaybeSplit | tbp/inter.go:61-68 | splits child i exactly when it is full (len(items) >= cap) and reports whether it did |
| Internal.SplitShaped | tbp/inter.go:42-52 | both halves of a split of a well-shaped node are well shaped at the same height |
| Internal.SplitChildShaped | tbp/inter.go:54-59 | splitting an over-half-full child keeps the parent well shaped |
| InsertProof.SplitFlatten | tbp/inter.go:42-52 | the two halves of a split hold the node's in-order items, left then right |
| InsertProof.SplitChildOrdered | tbp/inter.go:54-59 | splitting a full child keeps separator order, and the new separator is inserted at position i |
| InsertProof.DescendSpec | tbp/inter.go:147-151 | the pre-split and index step of internal insert keeps the items and order, and routes the key to the right child |
| InsertProof.InsertRefines | tbp/inter.go:147-153 | node insert changes the in-order items exactly as leaf insert changes the flat sequence, returns the same "added" flag, and keeps separator order |
| InsertFilling.InsertFilled | tbp/inter.go:147-153 | insert leaves every leaf below the root non-empty |
| Removal.Route | tbp/inter.go:156-170 | the child index chosen for a key or mode is a valid child index |
| Removal.StealLeft | tbp/inter.go:70-83 | stealing from the left sibling leaves every other child and separator unchanged, and the receiving child gains one item |
| Removal.StealRight | tbp/inter.go:85-98 | stealing from the right sibling leaves every other child and separator unchanged, and the receiving child gains one item |
| Removal.MergeRight | tbp/inter.go:100-128 | merging children i and i+1 removes one separator and one child, and the merged child holds both item lists (plus the separator when internal) |
| Removal.StealLeftRotates | tbp/inter.go:70-83 | stealing from the left equals splitting off the left sibling's last subtree and joining it to the right sibling across the parent separator |
| Removal.StealRightRotates | tbp/inter.go:85-98 | stealing from the right equals splitting off the right sibling's first subtree and joining it to the left sibling across the parent separator |
| Removal.MergeRightJoins | tbp/inter.go:100-128 | merging equals joining the two siblings across their separator |
| Removal.StealRemove | tbp/inter.go:130-145 | refilling child i keeps the parent well shaped, and the returned index names a child with at least one separator when it is internal |
| Removal.Propagate | tbp/inter.go:177-184 | a reported new first item replaces separator j-1 when j > 0 and is passed upward only from child 0 |
| Removal.Prepare | tbp/inter.go:156-175 | routing plus refilling keeps the node well shaped and yields a valid child index |
| Removal.Remove | tbp/inter.go:155-185 | node remove keeps the tree well shaped, and a reported first item is well formed |
| Removal.StealLeftShaped | tbp/inter.go:70-83 | stealing from the left keeps the parent well shaped |
| Removal.StealRightShaped | tbp/inter.go:85-98 | stealing from the right keeps the parent well shaped |
| Removal.MergeRightShaped | tbp/inter.go:100-128 | merging keeps the parent well shaped |
| Rebalance.JoinFlatten | tbp/inter.go:100-128 | the in-order items of two joined siblings are the left's items then the right's |
| Rebalance.JoinOrdered | tbp/inter.go:114-122 | joining two ordered siblings across a separator that lies between them gives an ordered node |
| RemoveProof.StealLeftKeeps | tbp/inter.go:70-83 | stealing from a left sibling with at least two items keeps the in-order items, separator order, non-empty leaves, and the routing of the key |
| RemoveProof.StealRightKeeps | tbp/inter.go:85-98 | stealing from a right sibling with at least two items keeps the in-order items, separator order, non-empty leaves, and the routing of the key |
| RemoveProof.MergeRightKeeps | tbp/inter.go:100-128 | merging keeps the in-order items, separator order and non-empty leaves, and routes the key to the merged child |
| RemoveProof.StealRemoveKeeps | tbp/inter.go:130-145 | refilling an underfull child keeps the items and order and leaves the routed child able to lose an item |
| RemoveProof.PrepareKeeps | tbp/inter.go:155-175 | the steps of node remove before descending keep the items and order and leave the routed child able to lose an item |
| RemoveRefinement.RemoveRefines | tbp/inter.go:155-185 | node remove changes the in-order items exactly as leaf remove changes the flat sequence, reports the same first item and found flag, and keeps separator order and non-empty leaves |
| Paths.PathFlatten | tbp/iter.go:16-23 | the stack of ancestors and child indexes down to a node lays out the whole tree as items before, the node's items, and items after |
| Paths.PathItem | tbp/iter.go:25-35 | item idx of the focused leaf is item number len(items before) + idx of the whole tree |
| Paths.FindInTree | tbp/tree.go:134-167 | the by-key descent reaches the leaf that holds the key's place in the whole sequence |
| Paths.EndInTree | tbp/tree.go:134-167 | the min/max descent reaches a leaf that is empty only for an empty tree and holds the first/last item |
| Trees.Grown | tbp/tree.go:46-51 | the grown root is internal, in the old root's pool and with its capacity, with one separator and two children |
| Trees.GrowKeeps | tbp/tree.go:46-51 | wrapping a full root in a new internal root and splitting it keeps the tree sound, one level taller, with the same items |
| Trees.Collapsed | tbp/tree.go:70-74 | the collapsed root keeps the pool and capacity, and holds as many items as both children together, plus one for the separator pulled down when they are internal |
| Trees.CollapseKeeps | tbp/tree.go:70-74 | merging the two children of a one-separator root and promoting the result keeps the tree sound, one level lower, with the same items |
| Trees.LeafIndex | tbp/tree.go:154-167 | the leaf index is -1..len, non-negative going forward unless mode is max, and below len for max and for a descending start by key |
| Trees.LeafIndexByKey | tbp/tree.go:160-166 | by key, the forward index is `itemFind`'s index; the backward index is one less unless the key was found |
| Trees.AscendStartPastEnd | tbp/tree.go:159-162 | an ascending Iter from a key above every key of the leaf starts at idx == len(items), past the last item |
| Trees.GetByKey | tbp/tree.go:89-119 | a by-key Get reads the key's value when present; otherwise what it reads is the value of the first key after it |
| Trees.GetRead | tbp/tree.go:89-119 | a Get by min or max reads the tree's first or last item, and reads nothing only from an empty tree |
| Trees.InsertStep | tbp/tree.go:52-54 | root insert keeps the tree sound and changes its items as leaf insert on the flat sequence |
| Trees.InsertInto | tbp/tree.go:45-54 | fork, grow when full, and insert: the result is sound, owned by the cow, one level taller exactly when the old root was full, and holds the leaf-insert result of the old items |
| Trees.InsertMapping | tbp/tree.go:41-55 | on the flat sequence, insert maps key to val, reports "added" exactly for a new key, and grows the count by that flag |
| Trees.RemoveStep | tbp/tree.go:75 | root remove keeps the tree sound and changes its items as leaf remove on the flat sequence |
| Trees.RemoveFrom | tbp/tree.go:69-75 | fork, collapse and remove: the result is sound, owned by the cow, one level lower exactly when the old root was internal with one separator, holds the leaf-remove result, and is one item shorter exactly when found |
| Trees.WalkFrom | tbp/tree.go:134-152 | the descent loop reaches a leaf along a routed path |
| Trees.AscendStart | tbp/tree.go:121-188 | an ascending Iter starts at the first item whose key is at least k (at the first item when k is empty) |
| Trees.DescendStart | tbp/tree.go:121-188 | a descending Iter with an empty k starts at the last item; with a key it starts, if anywhere, at the last item whose key is at most k |
| Trees.Tree.constructor | tbp/tree.go:18-33 | a new tree has an empty leaf root owned by the given pool, or by a fresh pool of 64 shells; node size 0 means 64; the root shell is popped from the pool's leaf freelist, with the capacity newLeaf gives it, or is fresh at the node size when that freelist is empty; the internal freelist is untouched |
| Trees.Tree.Clone | tbp/tree.go:35-39 | a clone shares root and size, is stamped with the new pool (which may be nil), and has the same items |
| Trees.Tree.Insert | tbp/tree.go:41-55 | empty key or value, a nil root, or a nil pool (after Clone(nil), where mutableFor's newLeaf/newInter panic) is an error and changes nothing; otherwise the root is forked into the tree's pool, the tree grows one level exactly when the old root was full, the items become the leaf-insert result, the map gets key := val, and size grows exactly for a new key |
| Trees.Tree.Remove | tbp/tree.go:65-79 | an empty key, a nil root, a nil pool (after Clone(nil)), or a root with no separator is an error and changes nothing; otherwise the root is forked into the tree's pool, the tree shrinks one level exactly when the old root was internal with one separator, the map loses the key and size shrinks exactly when it was present |
| Trees.Tree.RemoveMin | tbp/tree.go:57-59 | removes the first item of a non-empty tree through the root as it stands, not forked (the root keeps its pool), leaves size unchanged, and so loses the size count; a root with no separators fails exactly when its lone child holds at most max/2 items |
| Trees.Tree.RemoveMax | tbp/tree.go:61-63 | removes the last item of a non-empty tree through the root as it stands, not forked (the root keeps its pool), leaves size unchanged, and so loses the size count; a root with no separators fails exactly when its lone child holds at most max/2 items |
| Trees.Tree.RemoveMinCounted | tbp/tree.go:57-59 | corrected remove-min: forks the root into the tree's pool like Remove, drops the first item and keeps size equal to the item count |
| Trees.Tree.RemoveMaxCounted | tbp/tree.go:61-63 | corrected remove-max: forks the root into the tree's pool like Remove, drops the last item and keeps size equal to the item count |
| Trees.Tree.Reset | tbp/tree.go:81-83 | drops the root, so the tree has no items; size is left as it was |
| Trees.Tree.Size | tbp/tree.go:85-87 | size is the number of keys whenever the count has been kept |
| Trees.Tree.Get | tbp/tree.go:89-119 | by key: the stored value when present, else an error or the value of the next key; min/max: the first/last value, or an error on an empty tree |
| Trees.Tree.Iter | tbp/tree.go:121-188 | returns an ascending iterator exactly when not reversed, positioned on the whole tree's items at the start its key and mode call for; a descending start by key is fixed only when it starts on an item |
| Trees.Tree.IterSettled | tbp/tree.go:154-168 | corrected ascending Iter: never rests past a leaf's end, and is exhausted exactly when every key is below k |
| Iterators.AscendIterator.GetKey | tbp/iter.go:25-27 | the key of the item at the iterator's position in the tree, or an error when not on an item |
| Iterators.AscendIterator.GetVal | tbp/iter.go:29-31 | the value of the item at the iterator's position, or an error when not on an item |
| Iterators.AscendIterator.Get | tbp/iter.go:33-35 | the key and value at the position, together |
| Iterators.AscendIterator.Valid | tbp/iter.go:37-47 | false when exhausted; true with no stop key; otherwise the key is at most (or below) the stop key; an error when resting past a leaf's end with a stop key |
| Iterators.AscendIterator.Next | tbp/iter.go:49-70 | moves to the next item of the whole tree, and is exhausted exactly when it was on the last one |
| Iterators.AscendIterator.Climb | tbp/iter.go:54-69 | leaving a leaf goes to the first item after it, or to the exhausted state at the end of the tree |
| Iterators.DescendIterator.GetKey | tbp/iter.go:81-83 | the key of the item at the iterator's position, or an error when exhausted |
| Iterators.DescendIterator.GetVal | tbp/iter.go:85-87 | the value of the item at the iterator's position, or an error when exhausted |
| Iterators.DescendIterator.Get | tbp/iter.go:89-91 | the key and value at the position, together |
| Iterators.DescendIterator.Valid | tbp/iter.go:93-103 | false when exhausted; true with no stop key; otherwise the stop key is at most (or below) the key |
| Iterators.DescendIterator.Next | tbp/iter.go:105-127 | moves to the previous item of the whole tree, and is exhausted exactly when it was on the first one |
| Iterators.DescendIterator.Climb | tbp/iter.go:110-125 | leaving a leaf goes to the last item before it, or to the exhausted state at the start of the tree |
| Cow.Pool.constructor | tbp/cow.go:15-20 | a new pool has empty free stacks whose capacity is max |
| Cow.Pool.NewInter | tbp/cow.go:22-45 | pops the last free internal shell (reallocated when too small) or makes a fresh one, stamped with the pool; the leaf stack is untouched |
| Cow.Pool.FreeInter | tbp/cow.go:47-57 | pushes the cleared shell when there is room and otherwise drops it |
| Cow.Pool.NewLeaf | tbp/cow.go:59-80 | pops the last free leaf shell (reallocated when too small) or makes a fresh one, stamped with the pool |
| Cow.Pool.FreeLeaf | tbp/cow.go:82-91 | pushes the cleared leaf shell when there is room and otherwise drops it |
| Cow.Reissued | tbp/cow.go:29-33 | a reused shell keeps its slices when they are large enough and is reallocated at the requested capacity otherwise |
| AsWritten.StealLeftAsWritten | tbp/inter.go:70-83 | stealLeft as written fails (index out of range) exactly when the left sibling is internal with fewer children than the parent |
| AsWritten.StealRightAsWritten | tbp/inter.go:85-98 | stealRight as written fails exactly when the left sibling is internal with fewer children than the parent |
| AsWritten.StealLeftAsWrittenMisorders | tbp/inter.go:74-81 | wherever stealLeft as written succeeds between internal siblings (the sibling has at least as many children as the parent), it breaks separator order |
| AsWritten.StealRightAsWrittenMisorders | tbp/inter.go:89-96 | wherever stealRight as written succeeds between internal siblings (child i has at least as many children as the parent), it breaks separator order |
| AsWritten.PropagateAsWritten | tbp/inter.go:177-184 | as written, the new first item is passed upward from child 1 and not from child 0 |
| AsWritten.PropagateAsWrittenMisreports | tbp/inter.go:177-184 | removing the first item of child 1 reports a "new minimum" that is not the tree's first item; the corrected rule reports nothing |

## Left out

- Nodes are values, not heap objects. In-place update, aliasing of node references between clones, and the identity of node shells are not modelled. A fork is a value copy stamped with a new owner. Sharing a subtree is sharing a value. The clone-isolation property holds trivially in this model.
- Nodes.Fork: the fork reuses a recycled shell whose stale item slices are appended to (`leaf.go:11-13`, `inter.go:15-17`). The model copies the items into a clean slice. `Cow.Reissued` records the stale slots, but the node model does not use them.
- The tree operations do not pop and push shells from the pool, except `NewTree`. Node allocation is value construction. `mergeRight` returning the right sibling to the pool (`inter.go:113,124`) is left out. That sibling may still be shared with a clone.
- Internal.Insert: the source descends into `children[i]` without `mutableChild` (`inter.go:152`). So a shared child would be changed under a clone. The model forks the child, as every other path does.
- The mutexes of `copyOnWrite` and all concurrency are left out.
- The `Invalid` node type and `removeInvalid` mode are left out, along with their `panic("???")` and `panic("invalid type")` branches. `LeafSpec.Mode` has only the three valid modes.
- Codec.MakeItem: keys of 2^32 bytes or more are truncated by `uint32(len(key))`. The model encodes `|key| % 2^32`, but the round trips are proved only for shorter keys. Tree operations require keys shorter than 2^32 bytes.
- The internal exchange items that `itemInsert` stores unencoded (`node.go:72-75`) are always separators copied from children. The model inserts them as the items they already are.
- Trees.Tree.constructor: negative node sizes are excluded by the `nat` parameter. Go accepts them (`NodeSize int`, `tree.go:8`, with only 0 special-cased at `tree.go:23-25`): a fresh pool then panics in `make` (`cow.go:76`), and a pool holding a recycled leaf silently reuses that shell's capacity (`cow.go:66`).
- Trees.Tree.constructor: a node size of 1 is excluded. With it a leaf split leaves an empty leaf, and `stealRight` reads `items[0]` of an emptied sibling.
- Trees.Tree.Get: when an absent key's successor lies in the next leaf, `itemGetVal(len)` indexes out of range. The contract allows `Err(IndexOutOfRange)` or the value of the first key after k, without saying which.
- Trees.Tree.Remove, Trees.Tree.RemoveMin, Trees.Tree.RemoveMax: these use the corrected node remove, not the code as written. So they succeed where the source panics: removing the only item of a one-leaf tree by key or as the minimum (`leaf.go:57-58`), and a steal between internal siblings with fewer children than the parent (`inter.go:81`, `inter.go:96`). They also keep the tree ordered where the source misorders it: the internal steals of `inter.go:74-76` and `inter.go:89-91`, and the separator repair of `inter.go:177-184`. The as-written behaviour is modelled only node by node, in `AsWritten` and `LeafSpec.RemoveAsWritten`.
- Trees.Tree.Reset: size is kept, as in the source. The size count is then no longer the item count.
- Trees.DescendStart, Trees.Tree.Iter: a descending Iter by key may start exhausted although a smaller key exists in an earlier leaf. That happens when `itemFind` returns 0 in a leaf whose separator is not tight. The contract only says where it starts when it starts on an item.
- Trees.Tree.Clone: the original keeps its pool and keeps owning the shared nodes (`tree.go:35-39`). That can only matter through aliasing, which is not modelled.
- Iterators.AscendIterator.Next, Iterators.DescendIterator.Next: calling `Next` on an exhausted iterator (idx == -1) is excluded by the precondition. In the source it would restart from index 0.
- The value `itemRemove` returns (`node.go:83-91`) is not modelled separately. Only `mergeRight` uses it, and there it is the removed separator.
- Removal.Remove: removing from an inner node reads `cap(n.items)/2` as the minimum. The model uses the node's `max` field for `cap`. The separate capacity of a recycled shell is left out.
- Removal.MergeRight, Internal.MaybeSplit, Removal.Remove: capacity growth by `append` is not modelled. A merge of two half-full internal children appends max+1 separators (`inter.go:120-121`), and Go then grows `cap(lin.items)`, for example from 4 to 8. Later thresholds read the grown capacity: `maybeSplit` (`inter.go:62`), the remove minimum (`inter.go:172`), the halves of `split` (`inter.go:45`) and root growth (`tree.go:46-49`). The model keeps one `max` per tree, so after such a merge its node shapes can differ from the source's, while `Items()` and `Mapping()` are the same.
- No upper occupancy bound is proved. A merge of two half-full internal nodes with an even node size holds max+1 separators, and the source lets that happen.

## Findings

| source | as written | input that shows it | evidently intended | confidence | as-written member | corrected member |
|---|---|---|---|---|---|---|
| tbp/leaf.go:57-58 | after removing the only item by key, or as the minimum, the leaf returns `n.items[0]` of the now empty slice | a leaf holding one item, removed by key or by `removeMin` | report no new first item when the leaf became empty | high, not executed | LeafSpec.RemoveLastItemPanics | LeafSpec.RemoveByKeySpec |
| tbp/inter.go:177-184 | the new first item of child i replaces separator i-1, and is passed upward only when i == 1 | a tree of height 2 whose child 1 loses its first item: the parent reports that item as the new minimum of a subtree whose first item is in child 0 | pass the new first item upward only from child 0, whose first item is the subtree's first | high, not executed | AsWritten.PropagateAsWrittenMisreports | RemoveRefinement.RemoveRefines |
| tbp/inter.go:81 | stealLeft moves the left sibling's child `len(n.children)-1`, indexed by the parent's child count | internal siblings whose own child count is below the parent's | move the left sibling's last child | high, not executed | AsWritten.StealLeftAsWritten | RemoveProof.StealLeftKeeps |
| tbp/inter.go:96 | stealRight inserts the stolen child at `len(n.children)` of the left sibling, indexed by the parent's child count | an internal left sibling whose child count is below the parent's | append it after the left sibling's last child | high, not executed | AsWritten.StealRightAsWritten | RemoveProof.StealRightKeeps |
| tbp/inter.go:74-76 | between internal siblings, stealLeft moves the left sibling's last separator into both the parent and the right sibling | internal siblings where the left one has at least as many children as the parent, so the child index of line 81 is in range | rotate: the parent separator moves down to the right sibling and the left sibling's last separator moves up | high, not executed | AsWritten.StealLeftAsWrittenMisorders | Removal.StealLeftRotates |
| tbp/inter.go:89-91 | between internal siblings, stealRight moves the right sibling's first separator down into the left sibling and its second up into the parent | internal siblings where child i has at least as many children as the parent and the right one has at least two separators | rotate: the parent separator moves down to the left sibling and the right sibling's first separator moves up | high, not executed | AsWritten.StealRightAsWrittenMisorders | Removal.StealRightRotates |
| tbp/tree.go:57-63 | RemoveMin and RemoveMax neither fork the root nor decrement size | a one-leaf tree of two items after RemoveMax: Size() is 2 and an iteration yields one item | fork like Remove and decrement size when an item was removed | high, not executed | Trees.Tree.RemoveMax | Trees.Tree.RemoveMaxCounted |
| tbp/tree.go:159-168 | an ascending Iter whose start key is above every key of its leaf rests at idx == len(items); with no stop key, `Valid` is true and `GetKey` indexes out of range | a one-leaf tree holding key "a", with Iter from "b" | move on to the next leaf, or become exhausted at the end of the tree | high, not executed | Trees.AscendStartPastEnd | Trees.Tree.IterSettled |
