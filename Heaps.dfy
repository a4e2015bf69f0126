/** The `Heap` of src/lib.rs: a fixed number of object slots, an optional root, the slot count and
    a free list of cloned objects, with the allocator that runs a mark-and-sweep collection when
    the free list is empty.

    `HeapState` and `AllocateSpec` describe the heap and one `allocate` call as values; the class
    `Heap` is the imperative heap, and each of its methods is proved against those functions. */
module Heaps {
  import opened Options
  import opened Objects
  import opened Marking

  /** The heap's four fields as one value. */
  datatype HeapState = HeapState(slots: seq<Object>, root: Option<Object>, size: nat, freeList: seq<Object>)

  /** What `Heap::new` and `allocate` keep: one slot per unit of size, and never more free-list
      entries than slots. */
  predicate Inv(s: HeapState)
  {
    |s.slots| == s.size && |s.freeList| <= s.size
  }

  /** Every slot and every free-list entry is the blank object. */
  predicate Pristine(s: HeapState)
  {
    (forall i :: 0 <= i < |s.slots| ==> s.slots[i] == Blank) &&
    (forall i :: 0 <= i < |s.freeList| ==> s.freeList[i] == Blank)
  }

  /** The heap `Heap::new(n)` builds. */
  function NewState(n: nat): (s: HeapState)
    ensures Inv(s) && Pristine(s)
    ensures |s.slots| == n && s.root == None && s.freeList == []
  {
    HeapState(seq(n, _ => Blank), None, n, [])
  }

  /** The first step of a collection: every slot's mark bit cleared, its links untouched. */
  function ClearMarks(slots: seq<Object>): (r: seq<Object>)
    ensures |r| == |slots|
    ensures forall i :: 0 <= i < |slots| ==>
      !r[i].marked && r[i].head == slots[i].head && r[i].tail == slots[i].tail
  {
    seq(|slots|, i requires 0 <= i < |slots| => slots[i].(marked := false))
  }

  /** The sweep: the unmarked slots, in index order. */
  function Unmarked(slots: seq<Object>): (r: seq<Object>)
    ensures |r| <= |slots|
    ensures forall x :: x in r ==> x in slots && !x.marked
  {
    if slots == [] then []
    else
      var last := slots[|slots| - 1];
      var rest := Unmarked(slots[..|slots| - 1]);
      assert forall x :: x in rest ==> x in slots;
      if last.marked then rest else rest + [last]
  }

  /** A collection pass: clear the marks, mark a clone of the root (whose marks are then dropped,
      so the slots keep the cleared bits), and rebuild the free list from the unmarked slots. */
  function Collect(s: HeapState): (t: HeapState)
    ensures t.root == s.root && t.size == s.size
  {
    var cleared := ClearMarks(s.slots);
    s.(slots := cleared, freeList := Unmarked(cleared))
  }

  /** What `allocate` hands out: the popped entry with both links cleared. */
  function Unlinked(o: Object): (r: Object)
    ensures r.head == None && r.tail == None && r.marked == o.marked
  {
    o.(head := None, tail := None)
  }

  /** The heap after an `allocate` call and the object it returned. */
  datatype Allocation = Allocation(next: HeapState, obj: Option<Object>)

  /** One `allocate` call: collect if the free list is empty, fail if it is still empty,
      otherwise pop the last entry. */
  function AllocateSpec(s: HeapState): (a: Allocation)
    ensures a.next.root == s.root && a.next.size == s.size && |a.next.slots| == |s.slots|
    ensures a.obj.Some? ==> a.obj.value.head == None && a.obj.value.tail == None
  {
    var t := if s.freeList == [] then Collect(s) else s;
    if t.freeList == [] then Allocation(t, None)
    else
      var n := |t.freeList|;
      Allocation(t.(freeList := t.freeList[..n - 1]), Some(Unlinked(t.freeList[n - 1])))
  }

  /** Fast path: with a non-empty free list, `allocate` pops its last entry and changes nothing else. */
  lemma AllocateFastPath(s: HeapState)
    requires s.freeList != []
    ensures var n := |s.freeList|;
      AllocateSpec(s) == Allocation(s.(freeList := s.freeList[..n - 1]), Some(Unlinked(s.freeList[n - 1])))
  {
  }

  /** Membership in the sweep, both ways: exactly the unmarked slots. */
  lemma {:induction false} UnmarkedMembers(slots: seq<Object>, x: Object)
    ensures x in Unmarked(slots) <==> x in slots && !x.marked
  {
    if slots != [] {
      var init := slots[..|slots| - 1];
      assert slots == init + [slots[|slots| - 1]];
      UnmarkedMembers(init, x);
    }
  }

  /** The sweep keeps every slot exactly when no slot is marked. */
  lemma {:induction false} UnmarkedKeepsAllIff(slots: seq<Object>)
    ensures Unmarked(slots) == slots <==> forall i :: 0 <= i < |slots| ==> !slots[i].marked
  {
    if slots != [] {
      var init, last := slots[..|slots| - 1], slots[|slots| - 1];
      assert slots == init + [last];
      UnmarkedKeepsAllIff(init);
      if last.marked {
        assert |Unmarked(slots)| <= |init| < |slots|;
      } else {
        assert Unmarked(slots) == Unmarked(init) + [last];
        if Unmarked(slots) == slots {
          assert Unmarked(init) == init;
        }
        if forall i :: 0 <= i < |slots| ==> !slots[i].marked {
          assert forall i :: 0 <= i < |init| ==> !init[i].marked;
        }
      }
    }
  }

  /** The sweep finds nothing exactly when every slot is marked. */
  lemma {:induction false} UnmarkedEmptyIff(slots: seq<Object>)
    ensures Unmarked(slots) == [] <==> forall i :: 0 <= i < |slots| ==> slots[i].marked
  {
    if slots != [] {
      var init := slots[..|slots| - 1];
      UnmarkedEmptyIff(init);
      if forall i :: 0 <= i < |slots| ==> slots[i].marked {
        assert forall i :: 0 <= i < |init| ==> init[i].marked;
      }
    }
  }

  /** Because the marks land on a clone of the root, a collection reclaims every slot. */
  lemma CollectReclaimsAll(s: HeapState)
    ensures Collect(s).freeList == Collect(s).slots == ClearMarks(s.slots)
  {
    UnmarkedKeepsAllIff(ClearMarks(s.slots));
  }

  /** Collection path: with an empty free list, `allocate` clears every mark, rebuilds the free list
      from nothing but the unmarked slots in index order (the returned object being its last entry
      before unlinking), and fails exactly when that list is empty. */
  lemma CollectionPath(s: HeapState)
    requires s.freeList == []
    ensures var a := AllocateSpec(s);
      var rebuilt := Unmarked(ClearMarks(s.slots));
      a.next.slots == ClearMarks(s.slots) &&
      (forall i :: 0 <= i < |a.next.slots| ==> !a.next.slots[i].marked) &&
      (a.obj == None <==> rebuilt == []) &&
      (a.obj == None ==> a.next.freeList == []) &&
      (a.obj != None ==> rebuilt == a.next.freeList + [rebuilt[|rebuilt| - 1]] &&
                         a.obj == Some(Unlinked(rebuilt[|rebuilt| - 1])))
  {
    var rebuilt := Unmarked(ClearMarks(s.slots));
    if rebuilt != [] {
      assert rebuilt == rebuilt[..|rebuilt| - 1] + [rebuilt[|rebuilt| - 1]];
    }
  }

  /** `allocate` returns `None` only when the free list was empty and the heap has no slots. */
  lemma AllocateNoneIff(s: HeapState)
    requires Inv(s)
    ensures AllocateSpec(s).obj == None <==> s.freeList == [] && s.size == 0
  {
    CollectReclaimsAll(s);
  }

  /** `allocate` keeps the heap invariant and never touches the root or the size; after a
      collection the free list holds one entry fewer than there are slots. */
  lemma AllocatePreservesInv(s: HeapState)
    requires Inv(s)
    ensures Inv(AllocateSpec(s).next)
    ensures s.freeList == [] && s.size > 0 ==> |AllocateSpec(s).next.freeList| == s.size - 1
  {
    CollectReclaimsAll(s);
  }

  /** Nothing ever writes a link into a slot, so a pristine heap stays pristine and every object
      `allocate` returns is the blank object. */
  lemma AllocateKeepsPristine(s: HeapState)
    requires Pristine(s)
    ensures Pristine(AllocateSpec(s).next)
    ensures AllocateSpec(s).obj.Some? ==> AllocateSpec(s).obj.value == Blank
  {
    var cleared := ClearMarks(s.slots);
    assert forall i :: 0 <= i < |cleared| ==> cleared[i] == Blank;
    CollectReclaimsAll(s);
  }

  class Heap {
    var heap: array<Object>
    var root: Option<Object>
    var size: nat
    var freeList: seq<Object>

    ghost predicate Valid()
      reads this
    {
      heap.Length == size && |freeList| <= size
    }

    /** The abstract value of the heap. */
    ghost function State(): HeapState
      reads this, heap
    {
      HeapState(heap[..], root, size, freeList)
    }

    /** `Heap::new`: `heapSize` blank slots, no root, an empty free list. */
    constructor (heapSize: nat)
      ensures Valid() && fresh(heap)
      ensures State() == NewState(heapSize)
      ensures forall i :: 0 <= i < heap.Length ==> heap[i] == Blank
      ensures root == None && size == heapSize && freeList == []
    {
      heap := new Object[heapSize](_ => Blank);
      root := None;
      size := heapSize;
      freeList := [];
    }

    /** `add_to_free_list`: pushes a copy of `p`. */
    method AddToFreeList(p: Object)
      modifies this`freeList
      ensures freeList == old(freeList) + [p]
    {
      freeList := freeList + [p];
    }

    /** `allocate`. */
    method Allocate() returns (r: Option<Object>)
      requires Valid()
      modifies this`freeList, heap
      ensures Valid()
      ensures AllocateSpec(old(State())) == Allocation(State(), r)
      ensures root == old(root) && size == old(size)
      ensures r == None <==> old(freeList) == [] && size == 0
      ensures r.Some? ==> r.value.head == None && r.value.tail == None
    {
      ghost var s := State();
      if freeList == [] {
        // 1. clear mark bits
        for i := 0 to size
          invariant forall j :: 0 <= j < i ==> heap[j] == old(heap[j]).(marked := false)
          invariant forall j :: i <= j < size ==> heap[j] == old(heap[j])
        {
          heap[i] := heap[i].(marked := false);
        }
        ghost var cleared := heap[..];
        assert cleared == ClearMarks(s.slots);
        // 2. mark phase, on a clone of the root: its result is dropped
        var scratch := Mark(root);
        // 3. sweep phase
        freeList := [];
        for i := 0 to size
          invariant heap[..] == cleared
          invariant freeList == Unmarked(heap[..i])
        {
          assert heap[..i + 1][..i] == heap[..i];
          if !heap[i].marked {
            AddToFreeList(heap[i]);
          }
        }
        assert heap[..size] == heap[..];
        if freeList == [] {
          AllocateNoneIff(s);
          return None;
        }
      }
      AllocatePreservesInv(s);
      AllocateNoneIff(s);
      var p := freeList[|freeList| - 1];
      freeList := freeList[..|freeList| - 1];
      p := Unlinked(p);
      return Some(p);
    }
  }

  /** `Object::new`: allocates a slot (the `assert!` demands that this succeeds), drops it, and
      returns a fresh unmarked object with the given links. */
  method NewObject(h: Heap, head: Option<Object>, tail: Option<Object>) returns (o: Object)
    requires h.Valid()
    requires h.freeList != [] || h.size > 0
    modifies h`freeList, h.heap
    ensures h.Valid()
    ensures h.State() == AllocateSpec(old(h.State())).next
    ensures o == Object(head, tail, false)
  {
    var slot := h.Allocate();
    assert slot.Some?;
    o := Object(head, tail, false);
  }
}
