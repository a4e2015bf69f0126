/** The `Object` record of src/lib.rs: an owned tree with two optional boxed children and a mark bit.
    Ownership rules out cycles and sharing, so the record is a plain inductive datatype and a clone is a copy. */
module Objects {
  import opened Options

  datatype Object = Object(head: Option<Object>, tail: Option<Object>, marked: bool)

  /** The object every slot of a new heap holds: no links, unmarked. */
  const Blank: Object := Object(None, None, false)

  /** `Object::set_head`: replaces the head link and nothing else. */
  function SetHead(o: Object, head: Option<Object>): (r: Object)
    ensures r.head == head && r.tail == o.tail && r.marked == o.marked
    ensures r == o <==> head == o.head
  {
    o.(head := head)
  }

  /** `Object::set_tail`: replaces the tail link and nothing else. */
  function SetTail(o: Object, tail: Option<Object>): (r: Object)
    ensures r.tail == tail && r.head == o.head && r.marked == o.marked
    ensures r == o <==> tail == o.tail
  {
    o.(tail := tail)
  }

  /** The two outgoing links of an object. */
  datatype Link = Head | Tail

  function Child(x: Object, l: Link): Option<Object>
  {
    match l
    case Head => x.head
    case Tail => x.tail
  }

  /** The sub-object reached from `o` by following the links of `p` in order, if there is one. */
  function At(o: Option<Object>, p: seq<Link>): Option<Object>
    decreases |p|
  {
    if p == [] then o
    else match o
      case None => None
      case Some(x) => At(Child(x, p[0]), p[1..])
  }

  predicate MarkedAt(o: Option<Object>, p: seq<Link>)
  {
    At(o, p).Some? && At(o, p).value.marked
  }

  /** The tree with every mark bit cleared: its shape alone. */
  function Erase(o: Option<Object>): Option<Object>
  {
    match o
    case None => None
    case Some(x) => Some(Object(Erase(x.head), Erase(x.tail), false))
  }

  /** Every node of the tree is marked. */
  predicate AllMarked(o: Option<Object>)
  {
    match o
    case None => true
    case Some(x) => x.marked && AllMarked(x.head) && AllMarked(x.tail)
  }

  /** No node of the tree is marked. */
  predicate AllUnmarked(o: Option<Object>)
  {
    match o
    case None => true
    case Some(x) => !x.marked && AllUnmarked(x.head) && AllUnmarked(x.tail)
  }
}
