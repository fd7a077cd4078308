/** The C++ linked `Queue<T>` (`linear.h`, `queue.cpp`).

    The nodes reachable from `front` are a sequence, front first.  `rear`
    is a second pointer; the model records only whether it is set
    (`hasRear`), which is all `enqueue` looks at: with no rear, the new
    node becomes both `front` and `rear`.  `dequeue` resets `rear` when it
    takes the last node; without that reset the next `enqueue` would
    append to a freed node.  `Valid` is the invariant that `rear` is set
    exactly when there are nodes and that `length` counts them. */
module Queues {
  import opened Wrappers
  import opened Bytes
  import opened Streams

  datatype Queue<T> = Queue(nodes: seq<T>, hasRear: bool, length: int)

  ghost predicate Valid<T>(q: Queue<T>)
  {
    (q.hasRear <==> q.nodes != []) && q.length == |q.nodes|
  }

  function New<T>(): (q: Queue<T>)
  {
    Queue([], false, 0)
  }

  /** `enqueue`: with no `rear` the new node is the whole queue, otherwise
      it is linked after `rear`. */
  function Enqueue<T>(q: Queue<T>, v: T): (r: Queue<T>)
    ensures r.hasRear && r.length == q.length + 1
    ensures Valid(q) ==> Valid(r) && r.nodes == q.nodes + [v]
  {
    if !q.hasRear then Queue([v], true, q.length + 1)
    else Queue(q.nodes + [v], true, q.length + 1)
  }

  /** `dequeue`: "queue is empty" when `front` is null; otherwise the front
      value, and `rear` is reset once the queue runs empty. */
  function Dequeue<T>(q: Queue<T>): (r: Result<(Queue<T>, T)>)
    ensures r.Err? <==> q.nodes == []
    ensures r.Err? ==> r.failure == EmptyContainer
    ensures r.Ok? ==> r.value.1 == q.nodes[0] && r.value.0.nodes == q.nodes[1..]
    ensures r.Ok? ==> r.value.0.length == q.length - 1
    ensures r.Ok? && |q.nodes| == 1 ==> !r.value.0.hasRear
    ensures r.Ok? && Valid(q) ==> Valid(r.value.0)
  {
    if q.nodes == [] then Err(EmptyContainer)
    else
      var rest := q.nodes[1..];
      Ok((Queue(rest, if rest == [] then false else q.hasRear, q.length - 1), q.nodes[0]))
  }

  /** `peek`: the front value, the queue unchanged. */
  function Peek<T>(q: Queue<T>): (r: Result<T>)
    ensures r.Err? <==> q.nodes == []
    ensures r.Err? ==> r.failure == EmptyContainer
    ensures r.Ok? ==> Dequeue(q).Ok? && r.value == Dequeue(q).value.1
  {
    if q.nodes == [] then Err(EmptyContainer) else Ok(q.nodes[0])
  }

  /** `clear`: frees every node, resets `rear` and the counter. */
  function Clear<T>(q: Queue<T>): (r: Queue<T>)
    ensures Valid(r) && r.nodes == []
  {
    Queue([], false, 0)
  }

  function Size<T>(q: Queue<T>): (n: int)
    ensures Valid(q) ==> n == |q.nodes|
  {
    q.length
  }

  /** `empty()`: `front == nullptr`. */
  function IsEmpty<T>(q: Queue<T>): (b: bool)
    ensures b <==> q.nodes == []
    ensures Valid(q) ==> (b <==> Size(q) == 0)
  {
    q.nodes == []
  }

  /** Dequeuing the last element and enqueuing again gives a queue of just
      the new element: the reset `rear` makes `enqueue` start afresh. */
  lemma DequeueLastThenEnqueue<T>(q: Queue<T>, v: T)
    requires Valid(q) && |q.nodes| == 1
    ensures Dequeue(q).Ok? && Enqueue(Dequeue(q).value.0, v).nodes == [v]
    ensures Valid(Enqueue(Dequeue(q).value.0, v))
  {
  }

  /** `dequeue` until empty: the values in the order they come out. */
  function Drain<T>(q: Queue<T>): (r: seq<T>)
    ensures |r| == |q.nodes|
    decreases |q.nodes|
  {
    match Dequeue(q)
    case Err(_) => []
    case Ok((rest, v)) => [v] + Drain(rest)
  }

  /** `enqueue` of every value in turn. */
  function EnqueueAll<T>(q: Queue<T>, xs: seq<T>): (r: Queue<T>)
    requires Valid(q)
    ensures Valid(r) && r.nodes == q.nodes + xs
    decreases |xs|
  {
    if xs == [] then q
    else
      var r := EnqueueAll(Enqueue(q, xs[0]), xs[1..]);
      assert q.nodes + [xs[0]] + xs[1..] == q.nodes + xs;
      r
  }

  lemma {:induction false} DrainIsNodes<T>(q: Queue<T>)
    ensures Drain(q) == q.nodes
    decreases |q.nodes|
  {
    if q.nodes != [] {
      DrainIsNodes(Dequeue(q).value.0);
    }
  }

  /** FIFO: values enqueued onto a valid queue come out after its own
      elements, in the order they went in. */
  lemma Fifo<T>(q: Queue<T>, xs: seq<T>)
    requires Valid(q)
    ensures Drain(EnqueueAll(q, xs)) == q.nodes + xs
  {
    DrainIsNodes(EnqueueAll(q, xs));
  }

  // ---------------------------------------------------------------------
  // Moves

  /** The move constructor: the new queue takes `front`, `rear` and
      `length`, the source is left empty. */
  function MoveConstruct<T>(src: Queue<T>): (r: (Queue<T>, Queue<T>))
    ensures r.0 == src && r.1.nodes == [] && Valid(r.1)
  {
    (src, Queue([], false, 0))
  }

  /** Move assignment: `clear()`, then as the move constructor, unless it
      is a self-assignment. */
  function MoveAssign<T>(dst: Queue<T>, src: Queue<T>, same: bool): (r: (Queue<T>, Queue<T>))
    ensures same ==> r == (dst, src)
    ensures !same ==> r.0 == src && r.1.nodes == [] && Valid(r.1)
  {
    if same then (dst, src) else MoveConstruct(src)
  }

  // ---------------------------------------------------------------------
  // The string codec (`Queue<std::string>`)

  /** `saveToBinary`: the `length` counter as a u32, then the elements
      from front to rear. */
  function Save(q: Queue<Str>): (r: seq<byte>)
    ensures |r| >= 4 + 4 * |q.nodes|
    ensures Valid(q) ==> r == SaveStrings(q.nodes)
  {
    EncodeU32(q.length % TWO_32) + EncodeStrings(q.nodes)
  }

  /** `loadFromBinary`: `clear`, then `enqueue` every string read. */
  function Load(q: Queue<Str>, s: seq<byte>): (r: Option<(Queue<Str>, seq<byte>)>)
    ensures r.Some? ==> Valid(r.value.0)
  {
    match LoadStrings(s)
    case None => None
    case Some((xs, rest)) => Some((EnqueueAll(Clear(q), xs), rest))
  }

  /** Loading what `saveToBinary` wrote rebuilds the queue exactly. */
  lemma SaveLoadRoundTrip(q: Queue<Str>, into: Queue<Str>, rest: seq<byte>)
    requires Valid(q) && |q.nodes| < TWO_32 && ShortStrings(q.nodes)
    ensures Load(into, Save(q) + rest) == Some((q, rest))
  {
    SaveLoadStrings(q.nodes, rest);
    var r := EnqueueAll(Clear(into), q.nodes);
    assert r.nodes == q.nodes;
  }
}
