/** `Heap::mark` of src/lib.rs: the recursive mark phase over an owned object tree.
    The source mutates the tree behind a `&mut`; here it returns the marked tree. */
module Marking {
  import opened Options
  import opened Objects

  /** Visits `o`: stops at an absent link or an already-marked object, otherwise sets the mark
      and visits the head and then the tail. */
  function Mark(o: Option<Object>): (r: Option<Object>)
    ensures r.Some? <==> o.Some?
    ensures r.Some? ==> r.value.marked
    ensures r == o <==> (o.None? || o.value.marked)
    ensures Erase(r) == Erase(o)
  {
    match o
    case None => None
    case Some(x) =>
      if x.marked then o
      else Some(Object(Mark(x.head), Mark(x.tail), true))
  }

  /** Some object strictly above the end of `p`, on the way down from `o`, is marked:
      marking stops there and never reaches the end of `p`. */
  predicate Shielded(o: Option<Object>, p: seq<Link>)
    decreases |p|
  {
    p != [] && o.Some? && (o.value.marked || Shielded(Child(o.value, p[0]), p[1..]))
  }

  /** Every marked object of the tree has a fully marked subtree below it. */
  predicate DownClosed(o: Option<Object>)
  {
    match o
    case None => true
    case Some(x) =>
      if x.marked then AllMarked(x.head) && AllMarked(x.tail)
      else DownClosed(x.head) && DownClosed(x.tail)
  }

  /** Mark changes mark bits only, and after it an object is marked exactly when it was marked
      before or no marked object lies above it. */
  lemma {:induction false} MarkAt(o: Option<Object>, p: seq<Link>)
    ensures At(Mark(o), p).Some? <==> At(o, p).Some?
    ensures MarkedAt(Mark(o), p) <==> At(o, p).Some? && (MarkedAt(o, p) || !Shielded(o, p))
    decreases |p|
  {
    if p != [] && o.Some? && !o.value.marked {
      var x := o.value;
      assert Child(Mark(o).value, p[0]) == Mark(Child(x, p[0]));
      MarkAt(Child(x, p[0]), p[1..]);
    }
  }

  /** On a tree whose objects are all unmarked, every object ends up marked. */
  lemma {:induction false} MarkAllUnmarked(o: Option<Object>)
    requires AllUnmarked(o)
    ensures AllMarked(Mark(o))
  {
    if o.Some? {
      MarkAllUnmarked(o.value.head);
      MarkAllUnmarked(o.value.tail);
    }
  }

  /** Marking leaves every object marked exactly when no marked object sits above an unmarked one. */
  lemma {:induction false} MarkCompleteIff(o: Option<Object>)
    ensures AllMarked(Mark(o)) <==> DownClosed(o)
  {
    if o.Some? && !o.value.marked {
      MarkCompleteIff(o.value.head);
      MarkCompleteIff(o.value.tail);
    }
  }

  /** Marking twice is marking once. */
  lemma MarkIdempotent(o: Option<Object>)
    ensures Mark(Mark(o)) == Mark(o)
  {
  }
}
