/** The C++ dynamic `Array<T>` (`linear.h`, `array.cpp`).

    The array is its live elements `data[0..length)` and the number of
    allocated slots.  Slots past `length` hold stale values that no
    operation reads, so the functional model keeps only the elements; the
    in-place shifting loops of `insert` and `remove`, which do read and
    write the buffer, are modelled separately as methods on a buffer.

    `resize` doubles the capacity, so an array with capacity 0 (made by
    `Array(0)` or left behind by a move) stays at capacity 0 and the next
    `push` or `insert` stores past the end of its buffer;
    `PushAsWritten` and `InsertAsWritten` model that, and `Push` and
    `Insert` use the corrected growth `Grow`. */
module Arrays {
  import opened Wrappers
  import opened Bytes
  import opened Streams

  const INITIAL_CAPACITY: nat := 10

  datatype Array<T> = Array(elems: seq<T>, capacity: nat)

  ghost predicate Valid<T>(a: Array<T>)
  {
    |a.elems| <= a.capacity
  }

  /** `Array(initialCapacity = 10)`. */
  function New<T>(capacity: nat): (a: Array<T>)
  {
    Array([], capacity)
  }

  // ---------------------------------------------------------------------
  // push and the capacity-0 defect

  /** `push` as written: when full, `resize` sets the capacity to twice
      itself, then the value is stored at index `length`.  `None`: that
      store lands outside the buffer. */
  function PushAsWritten<T>(a: Array<T>, v: T): (r: Option<Array<T>>)
    requires Valid(a)
    ensures r.None? <==> a.capacity == 0
    ensures r.Some? ==> Valid(r.value) && r.value.elems == a.elems + [v]
  {
    var capacity := if |a.elems| >= a.capacity then 2 * a.capacity else a.capacity;
    if |a.elems| < capacity then Some(Array(a.elems + [v], capacity)) else None
  }

  /** An array constructed with capacity 0 overflows on its first `push`. */
  lemma ZeroCapacityPushOverflows<T>(v: T)
    ensures PushAsWritten(New<T>(0), v) == None
    ensures PushAsWritten(New<T>(INITIAL_CAPACITY), v).Some?
  {
  }

  /** `resize`, corrected: the new capacity always exceeds the old one, so
      the store that follows is in bounds; from capacity 1 up it is the
      source's doubling. */
  function Grow(capacity: nat): (r: nat)
    ensures r > capacity
    ensures capacity >= 1 ==> r == 2 * capacity
  {
    if capacity == 0 then 1 else 2 * capacity
  }

  /** `push`: append, growing first when full. */
  function Push<T>(a: Array<T>, v: T): (r: Array<T>)
    requires Valid(a)
    ensures Valid(r) && r.elems == a.elems + [v]
    ensures |a.elems| < a.capacity ==> r.capacity == a.capacity
    ensures |a.elems| == a.capacity >= 1 ==> r.capacity == 2 * a.capacity
  {
    Array(a.elems + [v], if |a.elems| >= a.capacity then Grow(a.capacity) else a.capacity)
  }

  /** The correction changes nothing for a positive capacity. */
  lemma PushAgrees<T>(a: Array<T>, v: T)
    requires Valid(a) && a.capacity >= 1
    ensures PushAsWritten(a, v) == Some(Push(a, v))
  {
  }

  // ---------------------------------------------------------------------
  // Indexed access

  /** `get`: `out_of_range` for an index at or past `length`. */
  function Get<T>(a: Array<T>, index: nat): (r: Result<T>)
    ensures r.Err? <==> index >= |a.elems|
    ensures r.Err? ==> r.failure == IndexOutOfRange
    ensures r.Ok? ==> r.value == a.elems[index]
  {
    if index >= |a.elems| then Err(IndexOutOfRange) else Ok(a.elems[index])
  }

  /** `insert`: any index in `0..length` (so `length` appends); the later
      elements move one place right; the capacity grows first when full,
      by the corrected `Grow` (see `InsertAsWritten`). */
  function Insert<T>(a: Array<T>, index: nat, v: T): (r: Result<Array<T>>)
    requires Valid(a)
    ensures r.Err? <==> index > |a.elems|
    ensures r.Err? ==> r.failure == IndexOutOfRange
    ensures r.Ok? ==> Valid(r.value) && |r.value.elems| == |a.elems| + 1
    ensures r.Ok? ==> r.value.elems[index] == v
    ensures r.Ok? ==> forall i | 0 <= i < index :: r.value.elems[i] == a.elems[i]
    ensures r.Ok? ==> forall i | index <= i < |a.elems| :: r.value.elems[i + 1] == a.elems[i]
  {
    if index > |a.elems| then Err(IndexOutOfRange)
    else
      var capacity := if |a.elems| >= a.capacity then Grow(a.capacity) else a.capacity;
      Ok(Array(a.elems[..index] + [v] + a.elems[index..], capacity))
  }

  /** `insert` as written: the index check, then `resize` doubling a full
      capacity, then the shifting writes, the first of which is at index
      `length`.  `None`: that write lands outside the buffer. */
  function InsertAsWritten<T>(a: Array<T>, index: nat, v: T): (r: Option<Result<Array<T>>>)
    requires Valid(a)
    ensures r.None? <==> index <= |a.elems| && a.capacity == 0
    ensures r.Some? ==> (r.value.Err? <==> index > |a.elems|)
    ensures r.Some? && r.value.Ok? ==> r.value.value.elems == a.elems[..index] + [v] + a.elems[index..]
  {
    if index > |a.elems| then Some(Err(IndexOutOfRange))
    else
      var capacity := if |a.elems| >= a.capacity then 2 * a.capacity else a.capacity;
      if |a.elems| < capacity then Some(Ok(Array(a.elems[..index] + [v] + a.elems[index..], capacity)))
      else None
  }

  /** An array constructed with capacity 0, or left behind by a move,
      overflows on its first `insert` and its first `push`; the latter is
      what loading into it does. */
  lemma ZeroCapacityInsertOverflows<T>(a: Array<T>, v: T)
    ensures InsertAsWritten(New<T>(0), 0, v) == None
    ensures InsertAsWritten(MoveConstruct(a).1, 0, v) == None
    ensures PushAsWritten(MoveConstruct(a).1, v) == None
  {
  }

  /** The corrected `insert` is the one as written wherever that one stays
      inside its buffer. */
  lemma InsertAgrees<T>(a: Array<T>, index: nat, v: T)
    requires Valid(a) && a.capacity >= 1
    ensures InsertAsWritten(a, index, v) == Some(Insert(a, index, v))
  {
  }

  /** `remove`: the later elements move one place left; the capacity is
      kept. */
  function Remove<T>(a: Array<T>, index: nat): (r: Result<Array<T>>)
    requires Valid(a)
    ensures r.Err? <==> index >= |a.elems|
    ensures r.Err? ==> r.failure == IndexOutOfRange
    ensures r.Ok? ==> Valid(r.value) && r.value.capacity == a.capacity
    ensures r.Ok? ==> |r.value.elems| == |a.elems| - 1
    ensures r.Ok? ==> forall i | 0 <= i < index :: r.value.elems[i] == a.elems[i]
    ensures r.Ok? ==> forall i | index < i < |a.elems| :: r.value.elems[i - 1] == a.elems[i]
  {
    if index >= |a.elems| then Err(IndexOutOfRange)
    else Ok(Array(a.elems[..index] + a.elems[index + 1..], a.capacity))
  }

  /** `replace`: only the indexed slot changes. */
  function Replace<T>(a: Array<T>, index: nat, v: T): (r: Result<Array<T>>)
    ensures r.Err? <==> index >= |a.elems|
    ensures r.Err? ==> r.failure == IndexOutOfRange
    ensures r.Ok? ==> r.value.capacity == a.capacity && |r.value.elems| == |a.elems|
    ensures r.Ok? ==> Get(r.value, index) == Ok(v)
    ensures r.Ok? ==> forall i | 0 <= i < |a.elems| && i != index :: r.value.elems[i] == a.elems[i]
  {
    if index >= |a.elems| then Err(IndexOutOfRange)
    else Ok(Array(a.elems[index := v], a.capacity))
  }

  /** `clear`: the length drops to 0 and the buffer is kept. */
  function Clear<T>(a: Array<T>): (r: Array<T>)
    ensures Valid(r) && r.elems == [] && r.capacity == a.capacity
  {
    Array([], a.capacity)
  }

  function Size<T>(a: Array<T>): (n: nat)
    ensures n == |a.elems|
  {
    |a.elems|
  }

  function IsEmpty<T>(a: Array<T>): (b: bool)
    ensures b <==> a.elems == []
  {
    |a.elems| == 0
  }

  /** `insert` then `remove` at the same index gives the elements back, and
      `get` there reads the inserted value. */
  lemma InsertRemoveInverse<T>(a: Array<T>, index: nat, v: T)
    requires Valid(a) && index <= |a.elems|
    ensures Get(Insert(a, index, v).value, index) == Ok(v)
    ensures Remove(Insert(a, index, v).value, index).value.elems == a.elems
  {
    var b := Insert(a, index, v).value;
    var c := Remove(b, index).value;
    assert c.elems == a.elems[..index] + a.elems[index..];
    assert a.elems[..index] + a.elems[index..] == a.elems;
  }

  /** `push` is `insert` at `length`. */
  lemma PushIsInsertAtEnd<T>(a: Array<T>, v: T)
    requires Valid(a)
    ensures Insert(a, |a.elems|, v) == Ok(Push(a, v))
  {
    assert a.elems[..|a.elems|] + [v] + a.elems[|a.elems|..] == a.elems + [v];
  }

  // ---------------------------------------------------------------------
  // The in-place loops on the buffer

  /** The loop of `insert`, on a buffer with a free slot at `length`: from
      `length` down to `index + 1` each slot takes its left neighbour's
      value, then `value` goes to `index`.  Slots past `length` are
      untouched. */
  method ShiftInsert<T>(data: seq<T>, length: nat, index: nat, value: T) returns (r: seq<T>)
    requires index <= length < |data|
    ensures |r| == |data|
    ensures r[..length + 1] == data[..index] + [value] + data[index..length]
    ensures r[length + 1..] == data[length + 1..]
  {
    r := data;
    var i := length;
    while i > index
      invariant index <= i <= length
      invariant |r| == |data|
      invariant forall j | 0 <= j <= i :: r[j] == data[j]
      invariant forall j | i < j <= length :: r[j] == data[j - 1]
      invariant forall j | length < j < |data| :: r[j] == data[j]
    {
      r := r[i := r[i - 1]];
      i := i - 1;
    }
    r := r[index := value];
    var front, want := r[..length + 1], data[..index] + [value] + data[index..length];
    assert forall j | 0 <= j < |front| :: front[j] == want[j];
    var back, old_back := r[length + 1..], data[length + 1..];
    forall j | 0 <= j < |back|
      ensures back[j] == old_back[j]
    {
      assert back[j] == r[length + 1 + j] && old_back[j] == data[length + 1 + j];
    }
  }

  /** The loop of `remove`: from `index` up to `length - 2` each slot takes
      its right neighbour's value.  The slot at `length - 1` keeps its
      stale value. */
  method ShiftRemove<T>(data: seq<T>, length: nat, index: nat) returns (r: seq<T>)
    requires index < length <= |data|
    ensures |r| == |data|
    ensures r[..length - 1] == data[..index] + data[index + 1..length]
    ensures r[length - 1..] == data[length - 1..]
  {
    r := data;
    var i := index;
    while i < length - 1
      invariant index <= i <= length - 1
      invariant |r| == |data|
      invariant forall j | 0 <= j < index :: r[j] == data[j]
      invariant forall j | index <= j < i :: r[j] == data[j + 1]
      invariant forall j | i <= j < |data| :: r[j] == data[j]
    {
      r := r[i := r[i + 1]];
      i := i + 1;
    }
    var front, want := r[..length - 1], data[..index] + data[index + 1..length];
    assert forall j | 0 <= j < |front| :: front[j] == want[j];
    var back, old_back := r[length - 1..], data[length - 1..];
    assert forall j | 0 <= j < |back| :: back[j] == old_back[j];
  }

  /** The copy loop of `resize`: the first `length` slots of the newly
      allocated `buffer` receive the old elements. */
  method CopyPrefix<T>(data: seq<T>, length: nat, buffer: seq<T>) returns (r: seq<T>)
    requires length <= |data| && length <= |buffer|
    ensures |r| == |buffer|
    ensures r[..length] == data[..length] && r[length..] == buffer[length..]
  {
    r := buffer;
    var i := 0;
    while i < length
      invariant 0 <= i <= length
      invariant |r| == |buffer|
      invariant forall j | 0 <= j < i :: r[j] == data[j]
      invariant forall j | i <= j < |buffer| :: r[j] == buffer[j]
    {
      r := r[i := data[i]];
      i := i + 1;
    }
    var front, want := r[..length], data[..length];
    assert forall j | 0 <= j < |front| :: front[j] == want[j];
    var back, old_back := r[length..], buffer[length..];
    assert forall j | 0 <= j < |back| :: back[j] == old_back[j];
  }

  // ---------------------------------------------------------------------
  // Moves

  /** The move constructor: the new array takes the buffer, the source is
      left with no buffer, capacity 0 and length 0. */
  function MoveConstruct<T>(src: Array<T>): (r: (Array<T>, Array<T>))
    ensures r.0 == src && r.1.elems == [] && r.1.capacity == 0
  {
    (src, Array([], 0))
  }

  /** Move assignment: unless it is a self-assignment (`same`), the
      destination frees its buffer and takes the source's; the source is
      left as after a move construction. */
  function MoveAssign<T>(dst: Array<T>, src: Array<T>, same: bool): (r: (Array<T>, Array<T>))
    ensures same ==> r == (dst, src)
    ensures !same ==> r.0 == src && r.1.elems == [] && r.1.capacity == 0
  {
    if same then (dst, src) else MoveConstruct(src)
  }

  // ---------------------------------------------------------------------
  // The string codec (`Array<std::string>`)

  /** `push` of every value in turn. */
  function PushAll<T>(a: Array<T>, xs: seq<T>): (r: Array<T>)
    requires Valid(a)
    ensures Valid(r) && r.elems == a.elems + xs && r.capacity >= a.capacity
    decreases |xs|
  {
    if xs == [] then a
    else
      var r := PushAll(Push(a, xs[0]), xs[1..]);
      assert a.elems + [xs[0]] + xs[1..] == a.elems + xs;
      r
  }

  /** `saveToBinary`: the u32 length, then the elements in index order. */
  function Save(a: Array<Str>): (r: seq<byte>)
    ensures |r| >= 4 + 4 * |a.elems|
  {
    SaveStrings(a.elems)
  }

  /** `loadFromBinary`: `clear`, then `push` every string read. */
  function Load(a: Array<Str>, s: seq<byte>): (r: Option<(Array<Str>, seq<byte>)>)
    requires Valid(a)
    ensures r.Some? ==> Valid(r.value.0) && r.value.0.capacity >= a.capacity
  {
    match LoadStrings(s)
    case None => None
    case Some((xs, rest)) => Some((PushAll(Clear(a), xs), rest))
  }

  /** Loading what `saveToBinary` wrote, into any array, gives the same
      elements in the same order. */
  lemma SaveLoadRoundTrip(a: Array<Str>, into: Array<Str>, rest: seq<byte>)
    requires Valid(into) && |a.elems| < TWO_32 && ShortStrings(a.elems)
    ensures Load(into, Save(a) + rest).Some?
    ensures Load(into, Save(a) + rest).value.0.elems == a.elems
    ensures Load(into, Save(a) + rest).value.1 == rest
  {
    SaveLoadStrings(a.elems, rest);
  }
}
