/** The Go ring-buffer `Queue` of `int` (`queue.go`).

    `data` is the slice (its length is the capacity), `head` the index of
    the front element, `tail` the index the next element goes to and
    `size` the number of elements; both indices advance modulo the
    capacity.  `Valid` is the invariant the operations keep, and
    `Elements` reads the queue front first: element `i` is at
    `(head + i) % capacity`.  `Walk` is the source's own traversal, which
    steps `idx = (idx + 1) % capacity`; `Print`, `SaveToBinary` and
    `resize` use it. */
module GoQueues {
  import opened Wrappers
  import opened Bytes
  import opened Streams
  import opened Text
  import Arrays
  import GoArrays

  datatype GoQueue = GoQueue(data: seq<int>, head: int, tail: int, size: int)

  /** The index shape: a positive capacity, `head` and `size` in range. */
  ghost predicate Shaped(q: GoQueue)
  {
    |q.data| >= 1 && 0 <= q.head < |q.data| && 0 <= q.size <= |q.data|
  }

  ghost predicate Valid(q: GoQueue)
  {
    Shaped(q) && q.tail == (q.head + q.size) % |q.data|
  }

  /** Below twice the modulus, `%` subtracts it at most once. */
  lemma Wrap(x: int, n: int)
    requires n >= 1 && 0 <= x < 2 * n
    ensures x % n == if x < n then x else x - n
  {
    if x >= n {
      assert (x - n) % n == x % n by {
        assert x == (x - n) + n;
      }
    }
  }

  /** The elements, front first. */
  function Elements(q: GoQueue): (xs: seq<int>)
    requires Shaped(q)
    ensures |xs| == q.size
  {
    seq(q.size, i requires 0 <= i < q.size => q.data[(q.head + i) % |q.data|])
  }

  /** The source's traversal: `n` slots from `idx`, stepping around the
      ring. */
  function Walk(data: seq<int>, idx: int, n: nat): (r: seq<int>)
    requires |data| >= 1 && 0 <= idx < |data|
    ensures |r| == n
    decreases n
  {
    if n == 0 then [] else [data[idx]] + Walk(data, (idx + 1) % |data|, n - 1)
  }

  /** Stepping around the ring from `head` reads the elements in order. */
  lemma {:induction false} WalkFrom(q: GoQueue, k: nat)
    requires Shaped(q) && k <= q.size
    ensures Walk(q.data, (q.head + k) % |q.data|, q.size - k) == Elements(q)[k..]
    decreases q.size - k
  {
    var n := |q.data|;
    if k < q.size {
      WalkFrom(q, k + 1);
      Wrap(q.head + k, n);
      Wrap(q.head + k + 1, n);
      Wrap((q.head + k) % n + 1, n);
      assert ((q.head + k) % n + 1) % n == (q.head + k + 1) % n;
      assert Elements(q)[k..] == [Elements(q)[k]] + Elements(q)[k + 1..];
    }
  }

  lemma WalkIsElements(q: GoQueue)
    requires Shaped(q)
    ensures Walk(q.data, q.head, q.size) == Elements(q)
  {
    WalkFrom(q, 0);
    Wrap(q.head, |q.data|);
  }

  /** `NewQueue`: a non-positive capacity is replaced by 10. */
  function NewQueue(initialCapacity: int): (q: GoQueue)
    ensures Valid(q) && Elements(q) == []
    ensures |q.data| == if initialCapacity <= 0 then Arrays.INITIAL_CAPACITY else initialCapacity
  {
    var capacity := if initialCapacity <= 0 then Arrays.INITIAL_CAPACITY else initialCapacity;
    GoQueue(GoArrays.Zeros(capacity), 0, 0, 0)
  }

  // ---------------------------------------------------------------------
  // resize

  /** `resize`: the elements, front first, at the start of a fresh
      zero-filled slice; `head` 0 and `tail` `size`. */
  function Resize(q: GoQueue, capacity: nat): (r: GoQueue)
    requires Valid(q) && q.size < capacity
    ensures Valid(r) && |r.data| == capacity && r.head == 0
    ensures Elements(r) == Elements(q)
  {
    var r := GoQueue(Elements(q) + GoArrays.Zeros(capacity - q.size), 0, q.size, q.size);
    Wrap(q.size, capacity);
    forall i | 0 <= i < q.size
      ensures Elements(r)[i] == Elements(q)[i]
    {
      Wrap(i, capacity);
    }
    assert Elements(r) == Elements(q);
    r
  }

  /** `resize` as the source runs it: copy `size` slots walking the ring
      into the new slice. */
  method ResizeInPlace(q: GoQueue, capacity: nat) returns (r: GoQueue)
    requires Valid(q) && q.size < capacity
    ensures r == Resize(q, capacity)
  {
    var n := |q.data|;
    var data := GoArrays.Zeros(capacity);
    var idx := q.head;
    var i := 0;
    while i < q.size
      invariant 0 <= i <= q.size && |data| == capacity
      invariant idx == (q.head + i) % n
      invariant data[..i] == Elements(q)[..i]
      invariant forall j | i <= j < capacity :: data[j] == 0
    {
      data := data[i := q.data[idx]];
      assert data[..i + 1] == data[..i] + [Elements(q)[i]];
      Wrap(q.head + i, n);
      Wrap(q.head + i + 1, n);
      Wrap(idx + 1, n);
      idx := (idx + 1) % n;
      i := i + 1;
    }
    assert data[q.size..] == GoArrays.Zeros(capacity - q.size);
    assert data == data[..q.size] + data[q.size..];
    assert Elements(q)[..q.size] == Elements(q);
    r := GoQueue(data, 0, q.size, q.size);
  }

  // ---------------------------------------------------------------------
  // The queue operations

  /** `Enqueue`: when full, double the capacity; then store at `tail` and
      advance it around the ring. */
  function Enqueue(q: GoQueue, v: int): (r: GoQueue)
    requires Valid(q)
    ensures Valid(r) && Elements(r) == Elements(q) + [v]
    ensures |r.data| == if q.size >= |q.data| then 2 * |q.data| else |q.data|
  {
    var b := if q.size >= |q.data| then Resize(q, 2 * |q.data|) else q;
    var r := GoQueue(b.data[b.tail := v], b.head, (b.tail + 1) % |b.data|, b.size + 1);
    EnqueueStores(b, v);
    r
  }

  /** The store at `tail` lands just after the elements. */
  lemma EnqueueStores(b: GoQueue, v: int)
    requires Valid(b) && b.size < |b.data|
    ensures var r := GoQueue(b.data[b.tail := v], b.head, (b.tail + 1) % |b.data|, b.size + 1);
      Valid(r) && Elements(r) == Elements(b) + [v]
  {
    var n := |b.data|;
    var r := GoQueue(b.data[b.tail := v], b.head, (b.tail + 1) % n, b.size + 1);
    Wrap(b.head + b.size, n);
    Wrap(b.head + b.size + 1, n);
    Wrap(b.tail + 1, n);
    forall i | 0 <= i < b.size ensures Elements(r)[i] == Elements(b)[i] {
      Wrap(b.head + i, n);
    }
    assert Elements(r)[b.size] == v;
    assert Elements(r) == Elements(b) + [v];
  }

  /** `Dequeue`: "queue is empty" when `size` is 0, otherwise the value at
      `head`, and `head` advances around the ring. */
  function Dequeue(q: GoQueue): (r: Result<(GoQueue, int)>)
    requires Valid(q)
    ensures r.Err? <==> Elements(q) == []
    ensures r.Err? ==> r.failure == EmptyContainer
    ensures r.Ok? ==> Valid(r.value.0) && r.value.0.data == q.data
    ensures r.Ok? ==> Elements(q) == [r.value.1] + Elements(r.value.0)
  {
    if q.size == 0 then Err(EmptyContainer)
    else
      var r := GoQueue(q.data, (q.head + 1) % |q.data|, q.tail, q.size - 1);
      DequeueAdvances(q);
      Ok((r, q.data[q.head]))
  }

  lemma DequeueAdvances(q: GoQueue)
    requires Valid(q) && q.size >= 1
    ensures var r := GoQueue(q.data, (q.head + 1) % |q.data|, q.tail, q.size - 1);
      Valid(r) && Elements(q) == [q.data[q.head]] + Elements(r)
  {
    var n := |q.data|;
    var r := GoQueue(q.data, (q.head + 1) % n, q.tail, q.size - 1);
    Wrap(q.head + 1, n);
    Wrap(q.head + q.size, n);
    Wrap(r.head + r.size, n);
    forall i | 0 <= i < r.size ensures Elements(r)[i] == Elements(q)[i + 1] {
      Wrap(r.head + i, n);
      Wrap(q.head + i + 1, n);
    }
    assert Elements(q)[0] == q.data[q.head] by {
      Wrap(q.head, n);
    }
    assert Elements(q) == [q.data[q.head]] + Elements(r);
  }

  /** `Peek`: the front value, the queue unchanged. */
  function Peek(q: GoQueue): (r: Result<int>)
    requires Valid(q)
    ensures r.Err? <==> Elements(q) == []
    ensures r.Err? ==> r.failure == EmptyContainer
    ensures r.Ok? ==> Dequeue(q).Ok? && r.value == Dequeue(q).value.1
  {
    if q.size == 0 then Err(EmptyContainer) else Ok(q.data[q.head])
  }

  function Size(q: GoQueue): (n: int)
    requires Shaped(q)
    ensures n == |Elements(q)|
  {
    q.size
  }

  /** `Clear`: `head`, `tail` and `size` back to 0; the buffer is kept. */
  function Clear(q: GoQueue): (r: GoQueue)
    requires Valid(q)
    ensures Valid(r) && Elements(r) == [] && r.data == q.data
  {
    GoQueue(q.data, 0, 0, 0)
  }

  /** `Dequeue` until empty: the values in the order they come out. */
  function Drain(q: GoQueue): (r: seq<int>)
    requires Valid(q)
    ensures |r| == q.size
    decreases q.size
  {
    match Dequeue(q)
    case Err(_) => []
    case Ok((rest, v)) => [v] + Drain(rest)
  }

  lemma {:induction false} DrainIsElements(q: GoQueue)
    requires Valid(q)
    ensures Drain(q) == Elements(q)
    decreases q.size
  {
    if q.size > 0 {
      DrainIsElements(Dequeue(q).value.0);
    }
  }

  /** `Enqueue` of every value in turn. */
  function EnqueueAll(q: GoQueue, xs: seq<int>): (r: GoQueue)
    requires Valid(q)
    ensures Valid(r) && Elements(r) == Elements(q) + xs
    decreases |xs|
  {
    if xs == [] then q
    else
      var r := EnqueueAll(Enqueue(q, xs[0]), xs[1..]);
      assert Elements(q) + [xs[0]] + xs[1..] == Elements(q) + xs;
      r
  }

  /** FIFO: values enqueued come out after the queue's own elements, in the
      order they went in, however often the ring wrapped or grew. */
  lemma Fifo(q: GoQueue, xs: seq<int>)
    requires Valid(q)
    ensures Drain(EnqueueAll(q, xs)) == Elements(q) + xs
  {
    DrainIsElements(EnqueueAll(q, xs));
  }

  // ---------------------------------------------------------------------
  // Print and the binary codec

  /** `Print`: `"[]"` when empty, otherwise the values met walking the
      ring from `head`, joined by `", "` in brackets. */
  function Print(q: GoQueue): (r: string)
    requires Shaped(q)
    ensures r == if q.size == 0 then "[]" else Bracketed(Elements(q), ", ")
    ensures r == "[]" <==> q.size == 0
  {
    WalkIsElements(q);
    BracketedEmpty(Elements(q), ", ");
    if q.size == 0 then "[]" else Bracketed(Walk(q.data, q.head, q.size), ", ")
  }

  /** `SaveToBinary`: `int32(size)`, then the values walking the ring. */
  function Save(q: GoQueue): (r: seq<byte>)
    requires Shaped(q)
    ensures r == GoSaveInts(Elements(q))
  {
    WalkIsElements(q);
    EncodeI32(q.size) + EncodeInt32s(Walk(q.data, q.head, q.size))
  }

  /** `LoadFromBinary`: `Clear`, read the count, then `Enqueue` each value
      read; the first failed read ends the load with an error, leaving the
      values read before it. */
  function Load(q: GoQueue, s: seq<byte>): (r: (GoQueue, Result<()>))
    requires Valid(q)
    ensures Valid(r.0) && Elements(r.0) == GoLoadInts(s).values
    ensures r.1.Err? ==> r.1.failure == ShortRead
    ensures r.1.Ok? <==> GoLoadInts(s).ok
  {
    var read := GoLoadInts(s);
    (EnqueueAll(Clear(q), read.values), if read.ok then Ok(()) else Err(ShortRead))
  }

  /** Loading what `SaveToBinary` wrote gives the same elements in the same
      order, wherever the ring started, when the size and every element fit
      in int32. */
  lemma SaveLoadRoundTrip(q: GoQueue, into: GoQueue, rest: seq<byte>)
    requires Valid(q) && Valid(into) && q.size < TWO_31 && Fits32(Elements(q))
    ensures Load(into, Save(q) + rest).1 == Ok(())
    ensures Elements(Load(into, Save(q) + rest).0) == Elements(q)
    ensures Drain(Load(into, Save(q) + rest).0) == Drain(q)
  {
    GoSaveLoadInts(Elements(q), rest);
    DrainIsElements(q);
    DrainIsElements(Load(into, Save(q) + rest).0);
  }
}
