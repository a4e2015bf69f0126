# gomicollector: a toy mark-and-sweep heap, modelled in Dafny

The repository's library (`src/lib.rs`) is a toy garbage-collected heap. An `Object` owns two
optional boxed children, `head` and `tail`, and carries a mark bit. A `Heap` holds a fixed-length
vector of object slots, an optional `root`, its `size` and a `free_list` of cloned objects.
`allocate` pops the free list. When the free list is empty it first runs a collection: it clears
every slot's mark bit, marks a clone of the root, and rebuilds the free list from the unmarked
slots. It fails with `None` only when that rebuilt list is empty.

The model follows the code as written:

- `Options.dfy` defines Rust's `Option`.
- `Objects.dfy` holds the `Object` datatype, `set_head` and `set_tail`, and helpers over object
  trees: paths through the links, erasing marks, all-marked and all-unmarked.
- `Marking.dfy` holds `mark` as a pure function that returns the marked tree, with lemmas that
  characterise exactly which objects it marks.
- `Heaps.dfy` holds a value model of the heap (`HeapState`) and of one `allocate` call
  (`AllocateSpec`), with lemmas about both. It also holds the imperative `Heap` class. That class
  keeps the slots in an `array` and the free list in a `seq`. Its `Allocate` method runs the
  clear loop and the sweep loop and is proved equal to `AllocateSpec`. `NewObject` models
  `Object::new`.
- `Scenarios.dfy` replays the three unit tests against the class.

### Marking runs on a clone

`allocate` marks `self.root.clone()` (src/lib.rs:71). The marks land on the temporary and are
dropped, so the slots stay unmarked after the clearing loop. The sweep then puts every slot back
on the free list, and the collection path returns `None` only for a heap with no slots at all.
`Heaps.CollectReclaimsAll` and `Heaps.AllocateNoneIff` prove this.

The test `test_full_heap` (src/lib.rs:125-142) expects `None` from the four allocations that
follow ten root-chained ones. With the code as written those four calls succeed, and
`Scenarios.FullHeap` proves it. The model describes the code, not the test.

The mark phase is also not connected to the slots. The root and the objects linked from it are
owned trees of clones, not slot indices, so no slot is ever "reachable". That is why no corrected
collector is proposed here: no intended reachability over slots can be read off this code.

## Model

| member | source | states |
|---|---|---|
| `Objects.SetHead` | src/lib.rs:18-20 | `set_head` replaces the head link and keeps the tail and mark bit; the object is unchanged exactly when the new head equals the old one |
| `Objects.SetTail` | src/lib.rs:21-23 | `set_tail` replaces the tail link and keeps the head and mark bit; the object is unchanged exactly when the new tail equals the old one |
| `Marking.Mark` | src/lib.rs:48-62 | `mark` returns an object exactly when it is given one, and that object is marked; the tree comes back unchanged exactly when it is absent or already marked at the top (no child is visited); the shape of the tree is preserved, only mark bits change |
| `Marking.MarkAt` | src/lib.rs:49-60 | for every path of head/tail links: a node exists after marking exactly when it existed before, and it is marked afterwards exactly when it was marked before or no marked node lies above it (marking stops at marked nodes and visits everything else) |
| `Marking.MarkAllUnmarked` | src/lib.rs:54-56 | on a tree whose nodes are all unmarked, every node ends up marked |
| `Marking.MarkCompleteIff` | src/lib.rs:51-56 | marking leaves every node marked if and only if no marked node has an unmarked node below it |
| `Marking.MarkIdempotent` | src/lib.rs:51-53 | marking a second time changes nothing |
| `Heaps.NewState` | src/lib.rs:35-42 | a new heap of `n` slots has `n` blank slots (no links, unmarked), no root, size `n` and an empty free list, and satisfies the heap invariant |
| `Heaps.ClearMarks` | src/lib.rs:66-69 | the clearing loop's result: same number of slots, every mark bit false, every link untouched |
| `Heaps.Unmarked` | src/lib.rs:73-79 | the sweep's free list holds no more entries than there are slots, and each of them is an unmarked slot |
| `Heaps.Collect` | src/lib.rs:65-79 | a collection pass never changes the root or the size |
| `Heaps.Unlinked` | src/lib.rs:86-89 | the object handed out has both links cleared and keeps its mark bit |
| `Heaps.AllocateSpec` | src/lib.rs:64-95 | one `allocate` call never changes the root, the size or the number of slots, and every object it returns has no head and no tail |
| `Heaps.AllocateFastPath` | src/lib.rs:84-89 | with a non-empty free list, `allocate` returns the last free-list entry with its links cleared, shrinks the free list by exactly that entry and leaves slots, root and size unchanged |
| `Heaps.UnmarkedMembers` | src/lib.rs:75-79 | an object is in the swept free list if and only if it is a slot and unmarked |
| `Heaps.UnmarkedKeepsAllIff` | src/lib.rs:75-79 | the sweep keeps every slot, in order, if and only if no slot is marked |
| `Heaps.UnmarkedEmptyIff` | src/lib.rs:75-82 | the sweep finds nothing if and only if every slot is marked |
| `Heaps.CollectReclaimsAll` | src/lib.rs:66-79 | because marking runs on a clone of the root, a collection leaves every slot unmarked and rebuilds the free list as all `size` slots |
| `Heaps.CollectionPath` | src/lib.rs:65-89 | with an empty free list, `allocate` clears every mark, resets the free list and rebuilds it from the unmarked slots only, in index order, with no stale entries; it returns `None` exactly when that list is empty, and otherwise the list's last entry, unlinked, with the rest left as the free list |
| `Heaps.AllocateNoneIff` | src/lib.rs:65-82 | `allocate` returns `None` if and only if the free list was empty and the heap has no slots |
| `Heaps.AllocatePreservesInv` | src/lib.rs:64-95 | `allocate` keeps one slot per unit of size and never more free-list entries than slots; after a collection on a non-empty heap the free list holds `size - 1` entries |
| `Heaps.AllocateKeepsPristine` | src/lib.rs:35-89 | nothing writes a link into a slot, so when every slot and free-list entry is blank this stays true after `allocate`, and every object it returns is blank |
| `Heaps.Heap.constructor` | src/lib.rs:35-42 | `Heap::new(n)` has `n` blank slots, no root, size `n` and an empty free list, equal to `NewState(n)` |
| `Heaps.Heap.AddToFreeList` | src/lib.rs:43-45 | `add_to_free_list` appends a copy of the object to the free list and changes nothing else |
| `Heaps.Heap.Allocate` | src/lib.rs:64-95 | the imperative `allocate` (clear loop, mark of the root's clone, sweep loop, pop) ends in exactly the state and result `AllocateSpec` gives; it keeps the heap invariant and the root; it returns `None` exactly when the free list was empty and there are no slots; and every returned object has no links |
| `Heaps.NewObject` | src/lib.rs:9-17 | `Object::new` runs one `allocate` (which must succeed), drops the allocated slot and returns an unmarked object with the given links |
| `Scenarios.AllocateTwice` | src/lib.rs:102-111 | both allocations of `test_can_allocate_twice` succeed |
| `Scenarios.RootNotRecycled` | src/lib.rs:113-123 | the root of `test_root_is_not_recycled` is allocated, and all of the twice-the-heap-size allocations that follow succeed, and the heap's root afterwards is the same object as before them |
| `Scenarios.FullHeap` | src/lib.rs:125-142 | after the ten root-chained allocations of `test_full_heap`, the four further allocations all return an object, contrary to the test's expectation of `None` |

## Left out

- `src/main.rs` is a demo driver that prints. It calls an API that `src/lib.rs` does not have (`Heap<String>`, `allocate(payload)` returning an index, `get`, `set_data`), so it has nothing to model.
- The `std::ptr::eq` checks in the tests (src/lib.rs:110, 121) compare the addresses of two local variables. A value model has no addresses, so `Scenarios.AllocateTwice` and `Scenarios.RootNotRecycled` leave them out.
- `dbg!` output (src/lib.rs:136, 139) is diagnostics only.
- `Box` allocation, cloning and borrowing are not modelled. Objects are immutable values and a clone is a copy. `mark`'s in-place update through `&mut` becomes a function that returns the marked tree; in `allocate` its result is dropped, as the code drops the marked clone.
- The `assert!` in `Object::new` (src/lib.rs:11) becomes a precondition of `Heaps.NewObject`: the free list is non-empty or the heap has slots.
- The `None` arm after `free_list.pop()` (src/lib.rs:91-93) cannot be reached, because both paths to the pop leave a non-empty free list. The model has no branch for it.
- Indexing `self.heap[i]` for `i < size` cannot panic, because the heap invariant keeps the slot vector exactly `size` long. `usize` overflow is not modelled: the only arithmetic on a size, `heap_size*2` in a test (src/lib.rs:119), stays far below `usize::MAX`.
