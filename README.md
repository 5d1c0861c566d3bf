# Ordered map over an unbalanced binary search tree

This project models `Map<Key, Value>` of Map.h. The map is an unbalanced
binary search tree of heap nodes, each owning its left and right child. It
also keeps an ordered set of keys, `m_keys_set`, beside the tree. The model
covers these operations:

- `insert`, `find`, `contains`, `operator[]`;
- `remove`, in all three of its cases;
- `clear`, `size` and `keys`;
- the copy constructor, with `copy` and its recursive `populate`.

Keys are integers and values have an arbitrary type `V`.

The model is imperative, like the source.

- `Tree.Node` is the heap node. `OrderedMap.Map` is the map object, with the
  fields `head` and `keySet`.
- Each pointer walk of the source is a `while` loop over `Node` references.
- The tree the heap holds is tracked by a ghost value, `Tree.Tree`:
  - `Coherent` ties that value to the heap.
  - `Distinct` says that no node is shared, which is what `unique_ptr`
    ownership guarantees.
- The ghost zipper of module `Path` records where a walk stands (the frames
  it passed and the subtree in front of it). A write at the end of a walk is
  then reasoned about at that one slot.
- The recursive functions `Ins` and `Del` state what `insert` and `remove`
  do to the tree. Each method is proved to perform exactly that change.
- The lemmas of `Tree` prove the meaning of that change for the stored
  entries:
  - `Contents` is updated at one key, or loses one key;
  - BST order (`Ordered`) is kept;
  - node identities and shape are kept when an existing key is overwritten.
- The class invariant `Map.Valid()` states four things:
  - the heap is the tree;
  - no node is shared;
  - the keys are in BST order;
  - `keySet` is exactly the set of keys in the tree.

  `Entries()` is the public view of the map: its key/value pairs.

Module `Examples` holds client scenarios whose outcomes are proved from the
contracts alone. One is the double insert of main.cpp; the others cover a
missing key, removal, copying and clearing.

## Model

| member | source | states |
|---|---|---|
| Tree.Node.constructor | Map.h:23-27 | A new node holds the given key and value and has two empty child slots. |
| OrderedMap.Map.constructor | Map.h:77 | A new map is valid and empty: no entries and no nodes. |
| OrderedMap.Map.Locate | Map.h:224-247 | The walk from `head` stops at a node exactly when `k` is stored, and that node holds `k` and its stored value. It also returns the parent and the side of the slot where it stops, together with the walk that leads there. |
| OrderedMap.Map.Insert | Map.h:101-145 | Afterwards the entries are the old ones with `k` mapped to `v`, and the tree is `Ins` of the old tree. An existing key keeps all nodes, the shape and the count; a new key adds one node. The invariant, including the key set, is kept. |
| OrderedMap.Map.OverwriteAt | Map.h:128-131 | When the walk has found `k`, only that node's value changes: same nodes, same shape, and `Entries()` updated at `k`. |
| OrderedMap.Map.AttachAt | Map.h:134-143 | When the walk for an absent `k` ends in an empty child slot, one fresh node is hung there. The tree becomes `Ins` of the old one, the count grows by one, and the entries gain `k`. |
| OrderedMap.Map.Size | Map.h:147-149 | The size of the key set equals the number of entries and the number of tree nodes. |
| OrderedMap.Map.Keys | Map.h:151-153 | The returned set is exactly the set of stored keys. |
| OrderedMap.Map.Contains | Map.h:155-158 | True exactly when `k` is stored. |
| OrderedMap.Map.Find | Map.h:160-173 | Returns a value exactly when `k` is stored, and that value is the stored one. Otherwise it returns None, the null pointer. |
| OrderedMap.Map.Get | Map.h:175-183 | Returns the stored value when `k` is present, and fails with KeyNotFound, the thrown runtime_error, exactly when it is absent. |
| OrderedMap.Map.Clear | Map.h:215-218 | Afterwards there are no entries, no nodes and an empty key set. |
| OrderedMap.Map.Remove | Map.h:220-294 | The tree becomes `Del` of the old tree, and the entries lose `k`. An absent key changes nothing. A present key removes exactly one node. The footprint only shrinks. |
| OrderedMap.Map.DeleteAt | Map.h:251-293 | Once the node holding `k` is found, the leaf, one-child and two-children cases each produce `Del` of the tree and exactly one node fewer. The invariant is kept. |
| OrderedMap.Map.TakePredecessor | Map.h:276-293 | In the two-children case, the node takes the entry of the rightmost node of its left subtree, and that node's left child takes its slot. The result is coherent with `DelRoot` of the subtree. |
| OrderedMap.Map.FindPredecessor | Map.h:276-284 | Following right slots from the left child reaches the rightmost vertex of the left subtree. The parent it returns is the removed node itself exactly when no step was taken, and otherwise a node of that subtree. |
| OrderedMap.Map.Relink | Map.h:254-257 | The subtree in front of the walk is replaced in `head` or in the parent's left or right slot, and the heap is coherent with the new tree. |
| OrderedMap.Map.Hang | Map.h:140-143 | A subtree is stored in the parent's left or right slot, as `isLeft` says, and the heap is coherent with the new tree. |
| OrderedMap.Map.Overwrite | Map.h:129 | Writing the value of one node keeps the heap coherent with the tree in which only that vertex's value changed. |
| OrderedMap.Map.SetEntry | Map.h:286-287 | Moving the predecessor's key and value into the node keeps the heap coherent with the tree in which only that vertex's entry changed. |
| OrderedMap.Map.Copy | Map.h:36-73 | Copying from an empty map changes nothing. Otherwise the copy gets the source's key set and a tree of fresh nodes that mirrors the source: the same keys and values in the same places. |
| OrderedMap.Map.Populate | Map.h:47-69 | The node copied to `dst` gets fresh twins of the source children, filled in turn. The result mirrors the source subtree, has no shared node, and every node except `dst` is fresh. |
| OrderedMap.Map.CopyChild | Map.h:51-67 | When a source child exists, a fresh twin is hung into the same slot and filled. The result mirrors the child, and every node of it is fresh. |
| OrderedMap.Map.CopyOf | Map.h:81-84 | The copy constructor clears and then copies: the result has the same entries as `other`, a mirror-image tree and the same key set, all in fresh nodes. |
| Tree.Ins | Map.h:119-143 | The recursive description of `insert` following the comparison chain: the result is non-empty, its keys are the old keys plus `k`, and it has at most one vertex more. |
| Tree.Rightmost | Map.h:276-284 | The end of the right spine is a vertex with an empty right slot, holding a key and a node of the tree. |
| Tree.RemoveMax | Map.h:288-291 | Splicing out the rightmost vertex, whose left child takes its slot, loses exactly one vertex and adds no key. |
| Tree.DelRoot | Map.h:253-293 | Deleting at the found node, in the leaf, one-child (left preferred) and two-children cases, loses exactly one vertex and adds no key. |
| Tree.Del | Map.h:234-293 | The recursive description of `remove` following the comparison chain: it adds no key and loses at most one vertex. |
| Tree.InsContents | Map.h:101-145 | `Ins` on an ordered tree stays ordered, and its entries are the old ones updated at `k`. |
| Tree.InsOrdered | Map.h:119-143 | `Ins` keeps BST order, and its keys are the old keys plus `k`. |
| Tree.InsShape | Map.h:128-143 | On an existing key, `Ins` changes no node, no shape and no count. On a new key, it adds exactly the new node. |
| Tree.InsDistinct | Map.h:134-143 | Hanging a fresh node keeps the tree free of sharing. |
| Tree.DelContents | Map.h:220-294 | `Del` on an ordered tree stays ordered, and its entries are the old ones without `k`. |
| Tree.DelOrdered | Map.h:251-293 | `Del` keeps BST order, and its keys are the old keys minus `k`. |
| Tree.DelAbsent | Map.h:249 | Deleting an absent key leaves the tree as it was. |
| Tree.DelNodes | Map.h:251-293 | `Del` shares no node and adds none. Deleting a present key removes exactly one vertex. |
| Tree.RemoveMaxOrdered | Map.h:276-293 | The rightmost vertex holds the largest key. Splicing it out keeps order and removes exactly that key. |
| Tree.RemoveMaxValue | Map.h:286-287 | The rightmost vertex's value is the value stored under its key, and splicing it out changes no other entry. |
| Tree.CountIsSize | Map.h:147-149 | In an ordered tree, the number of distinct keys equals the number of vertices, so `size()` from the key set counts the nodes. |
| Tree.MirrorContents | Map.h:47-69 | Two mirror-image trees store the same keys, values and count, and one is ordered exactly when the other is. |
| Path.PlugFind | Map.h:160-173 | Along the comparison chain of `k`, the subtree in front of the walk holds `k`, with the same value, exactly when the whole tree does. |
| Path.InsAtEmpty | Map.h:134-143 | Hanging the new node in the empty slot the walk reached is `Ins` on the whole tree. `k` was absent, and the tree gains that node, the key and the entry. |
| Path.InsAtKey | Map.h:128-131 | Overwriting the value at the found node is `Ins` on the whole tree, with the same nodes and shape. |
| Path.DelAtKey | Map.h:251-293 | Putting `DelRoot` of the found subtree in its slot is `Del` on the whole tree. It loses exactly the entry of `k` and one node. |
| Path.PlugPredecessor | Map.h:276-293 | The walk through the left slot and down the right spine, with the predecessor's left child in its slot, rebuilds the tree with `DelRoot` in place. |
| Examples.InsertTwice | main.cpp:34-35 | After inserting the same key with 1 and then 30000, the size is 1 and `find` gives 30000. |
| Examples.IndexMissing | Map.h:175-183 | In the map {1 ↦ 10}, indexing key 1 gives 10 and indexing any other key `k` gives KeyNotFound. |
| Examples.RemoveRoot | Map.h:274-293 | Removing the root of the tree built from 5, 3, 8 (a root with two children) leaves the other two entries and size 2. |
| Examples.RemoveAbsent | Map.h:249 | Removing an absent key keeps the size and the entries. |
| Examples.CopyIsIndependent | Map.h:81-84 | Writing to a copy leaves the original's value unchanged. |
| Examples.ClearEmpties | Map.h:215-218 | After `clear`, the size is 0 and the key set is empty. |

## Left out

- `print()` (Map.h:185-213) only writes to the console. Console output is not part of this model.
- The copy and move assignment operators (Map.h:91-99) are not modelled. Both are declared to return `Map&` but have no `return` statement, which is undefined behaviour in C++. The copy assignment also routes self-assignment through `clear`, which empties the map.
- The move constructor (Map.h:86-89) transfers the `unique_ptr` and the `std::set`, and the moved-from set is left unspecified. Ownership transfer is not modelled.
- Destruction through `unique_ptr` (`~Map`, `~Node`, and the `reset` calls freeing nodes) is not modelled. In the model, detached nodes simply leave `Repr`, the footprint of the map.
- `find` returns a pointer into the node, and `operator[]` returns a reference; both let callers modify the stored value in place. The model returns the value instead (`Option` and `Result`), so writes through those handles are not captured.
- Keys are `int`, with the ordering `<`. The source is generic over `Key` and uses `operator<`, `operator>` and `operator==`; general comparators are not modelled.
- `OrderedMap.Map.Copy` requires `other != this`. A `copy` from the map into itself is reachable only through the assignment operator, which is left out.
- The `!other_node` guard (Map.h:49) never fires: every call passes an existing node, so `!other_node` is never true. `Populate` therefore takes non-null nodes.
- `OrderedMap.Map.Insert` and `OrderedMap.Map.Remove` update `keySet` after the walk, not before it. The walk and the key set are independent, so the order cannot be observed as long as allocation succeeds.
- The insert walk of the source (Map.h:119-132) also sets `parent` at the node holding `k` before it overwrites; the shared `Locate` stops there without that assignment. The parent is never used on that path.
- `OrderedMap.Map.Keys` returns a snapshot of the key set. `keys()` (Map.h:151-153) returns a `const std::set<Key>&`, a live view that also shows later insertions and removals.
- Allocation failure is not modelled. `insert` adds the key to `m_keys_set` (Map.h:104) before `make_unique` (Map.h:107, 134), and `copy` assigns the set (Map.h:40) before allocating nodes. A `bad_alloc` there would leave the key set out of step with the tree.
- Concurrency and the main.cpp driver with random strings (main.cpp:6-14, 37-60) are not modelled: they involve randomness, I/O and string keys.
