/** The unit tests at the end of src/lib.rs, replayed against the model. Pointer comparisons
    (`std::ptr::eq`) and `dbg!` output have no counterpart here. */
module Scenarios {
  import opened Options
  import opened Objects
  import opened Heaps

  /** `test_can_allocate_twice`: two allocations from a heap of 10000 slots both succeed, the
      first one being made the root in between. */
  method AllocateTwice() returns (obj1: Option<Object>, obj2: Option<Object>)
    ensures obj1.Some? && obj2.Some?
  {
    var heap := new Heap(10000);
    obj1 := heap.Allocate();
    heap.root := obj1;
    obj2 := heap.Allocate();
  }

  /** `test_root_is_not_recycled`: with an allocated object as root, twice as many allocations as
      there are slots all succeed and leave the root as it was. */
  method RootNotRecycled() returns (root: Option<Object>, results: seq<Option<Object>>, finalRoot: Option<Object>)
    ensures root.Some? && |results| == 20000
    ensures finalRoot == root
    ensures forall k :: 0 <= k < |results| ==> results[k].Some?
  {
    var heapSize := 10000;
    var heap := new Heap(heapSize);
    heap.root := heap.Allocate();
    root := heap.root;
    results := [];
    for k := 0 to heapSize * 2
      invariant heap.Valid() && heap.size == heapSize && fresh(heap.heap)
      invariant heap.root == root
      invariant |results| == k && forall j :: 0 <= j < k ==> results[j].Some?
    {
      var tmp := heap.Allocate();
      results := results + [tmp];
    }
    finalRoot := heap.root;
  }

  /** `test_full_heap`: ten allocations chained through their tails from the root, then four more.
      The test expects the four to fail; because marking runs on a clone of the root, each
      collection reclaims every slot and all four succeed. */
  method FullHeap() returns (later: seq<Option<Object>>)
    ensures |later| == 4
    ensures forall k :: 0 <= k < 4 ==> later[k].Some?
  {
    var heapSize := 10;
    var heap := new Heap(heapSize);
    for _ := 0 to heapSize
      invariant heap.Valid() && heap.size == heapSize && fresh(heap.heap)
    {
      var obj := heap.Allocate();
      assert obj.Some?;
      var o := SetHead(obj.value, None);
      o := SetTail(o, heap.root);
      heap.root := Some(o);
    }
    later := [];
    for k := 0 to 4
      invariant heap.Valid() && heap.size == heapSize && fresh(heap.heap)
      invariant |later| == k && forall j :: 0 <= j < k ==> later[j].Some?
    {
      var obj := heap.Allocate();
      later := later + [obj];
    }
  }
}
