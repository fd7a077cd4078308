/** The Go dynamic `Array` of `int` (`array.go`).

    Unlike the C++ model, this one keeps the whole buffer: `data` is the
    slice (its length is the capacity, as the separate `capacity` field
    always equals it) and `length` the number of elements in use.  Go's
    `make` zero-fills, `resize` copies the first `length` slots, and
    `Remove` leaves a stale copy of the last element behind, so the buffer
    past `length` is determined and the model states it.  A non-positive
    initial capacity becomes 10, so the capacity is never 0 and doubling
    always makes room.  Indices are Go `int`s: negative ones are errors. */
module GoArrays {
  import opened Wrappers
  import opened Bytes
  import opened Streams
  import opened Text
  import Arrays

  datatype GoArray = GoArray(data: seq<int>, length: int)

  ghost predicate Valid(a: GoArray)
  {
    0 <= a.length <= |a.data| && |a.data| >= 1
  }

  /** The elements in use. */
  function Elements(a: GoArray): (xs: seq<int>)
    requires 0 <= a.length <= |a.data|
    ensures |xs| == a.length
  {
    a.data[..a.length]
  }

  /** A zero-filled slice, as `make([]int, n)`. */
  function Zeros(n: nat): (r: seq<int>)
    ensures |r| == n && forall i | 0 <= i < n :: r[i] == 0
  {
    seq(n, i => 0)
  }

  /** `NewArray`: a non-positive capacity is replaced by 10. */
  function NewArray(initialCapacity: int): (a: GoArray)
    ensures Valid(a) && Elements(a) == []
    ensures |a.data| == if initialCapacity <= 0 then Arrays.INITIAL_CAPACITY else initialCapacity
  {
    var capacity := if initialCapacity <= 0 then Arrays.INITIAL_CAPACITY else initialCapacity;
    GoArray(Zeros(capacity), 0)
  }

  /** `resize`: a fresh zero-filled slice of the new capacity with the
      elements copied to its front. */
  function Resize(a: GoArray, capacity: nat): (r: GoArray)
    requires 0 <= a.length <= |a.data| && a.length <= capacity
    ensures |r.data| == capacity && r.length == a.length
    ensures Elements(r) == Elements(a)
    ensures forall i | a.length <= i < capacity :: r.data[i] == 0
  {
    var r := GoArray(a.data[..a.length] + Zeros(capacity - a.length), a.length);
    assert Elements(r) == Elements(a);
    r
  }

  /** `resize` as the source runs it: `copy` into the new slice. */
  method ResizeInPlace(a: GoArray, capacity: nat) returns (r: GoArray)
    requires 0 <= a.length <= |a.data| && a.length <= capacity
    ensures r == Resize(a, capacity)
  {
    var buffer := Zeros(capacity);
    var data := Arrays.CopyPrefix(a.data, a.length, buffer);
    assert buffer[a.length..] == Zeros(capacity - a.length);
    assert data == a.data[..a.length] + Zeros(capacity - a.length);
    r := GoArray(data, a.length);
  }

  /** The buffer before a store at `length`: doubled when full. */
  function Room(a: GoArray): (r: GoArray)
    requires Valid(a)
    ensures Valid(r) && r.length == a.length < |r.data| && Elements(r) == Elements(a)
    ensures |r.data| == if a.length >= |a.data| then 2 * |a.data| else |a.data|
  {
    if a.length >= |a.data| then Resize(a, 2 * |a.data|) else a
  }

  /** `Push`: store at `length`, doubling the capacity first when full. */
  function Push(a: GoArray, v: int): (r: GoArray)
    requires Valid(a)
    ensures Valid(r) && Elements(r) == Elements(a) + [v]
    ensures |r.data| == if a.length >= |a.data| then 2 * |a.data| else |a.data|
  {
    var b := Room(a);
    var r := GoArray(b.data[b.length := v], b.length + 1);
    assert Elements(r) == Elements(b) + [v];
    r
  }

  function OutOfRange(a: GoArray, index: int): bool
  {
    index < 0 || index >= a.length
  }

  /** `Get`: an error for a negative index or one at or past `length`. */
  function Get(a: GoArray, index: int): (r: Result<int>)
    requires 0 <= a.length <= |a.data|
    ensures r.Err? <==> OutOfRange(a, index)
    ensures r.Err? ==> r.failure == IndexOutOfRange
    ensures r.Ok? ==> r.value == Elements(a)[index]
  {
    if OutOfRange(a, index) then Err(IndexOutOfRange) else Ok(a.data[index])
  }

  /** `Insert`: any index in `0..length`; the capacity doubles first when
      full, the slots from `index` to `length - 1` move one place right,
      and the value goes to `index`. */
  function Insert(a: GoArray, index: int, v: int): (r: Result<GoArray>)
    requires Valid(a)
    ensures r.Err? <==> index < 0 || index > a.length
    ensures r.Err? ==> r.failure == IndexOutOfRange
    ensures r.Ok? ==> Valid(r.value)
    ensures r.Ok? ==> Elements(r.value) == Elements(a)[..index] + [v] + Elements(a)[index..]
  {
    if index < 0 || index > a.length then Err(IndexOutOfRange)
    else
      var b := Room(a);
      var r := GoArray(b.data[..index] + [v] + b.data[index..b.length] + b.data[b.length + 1..], b.length + 1);
      assert Elements(r) == b.data[..index] + [v] + b.data[index..b.length];
      Ok(r)
  }

  /** `Insert` with its shifting loop. */
  method InsertInPlace(a: GoArray, index: int, v: int) returns (r: Result<GoArray>)
    requires Valid(a)
    ensures r == Insert(a, index, v)
  {
    if index < 0 || index > a.length {
      return Err(IndexOutOfRange);
    }
    var b := Room(a);
    var data := Arrays.ShiftInsert(b.data, b.length, index, v);
    assert data == data[..b.length + 1] + data[b.length + 1..];
    r := Ok(GoArray(data, b.length + 1));
  }

  /** `Remove`: the slots after `index` move one place left; the last one
      keeps its old value, now past `length`. */
  function Remove(a: GoArray, index: int): (r: Result<GoArray>)
    requires Valid(a)
    ensures r.Err? <==> OutOfRange(a, index)
    ensures r.Err? ==> r.failure == IndexOutOfRange
    ensures r.Ok? ==> Valid(r.value) && |r.value.data| == |a.data|
    ensures r.Ok? ==> Elements(r.value) == Elements(a)[..index] + Elements(a)[index + 1..]
  {
    if OutOfRange(a, index) then Err(IndexOutOfRange)
    else
      var r := GoArray(a.data[..index] + a.data[index + 1..a.length] + a.data[a.length - 1..], a.length - 1);
      assert Elements(r) == a.data[..index] + a.data[index + 1..a.length];
      assert Elements(a)[index + 1..] == a.data[index + 1..a.length];
      Ok(r)
  }

  /** `Remove` with its shifting loop. */
  method RemoveInPlace(a: GoArray, index: int) returns (r: Result<GoArray>)
    requires Valid(a)
    ensures r == Remove(a, index)
  {
    if OutOfRange(a, index) {
      return Err(IndexOutOfRange);
    }
    var data := Arrays.ShiftRemove(a.data, a.length, index);
    assert data == data[..a.length - 1] + data[a.length - 1..];
    r := Ok(GoArray(data, a.length - 1));
  }

  /** `Replace`: only the indexed slot changes. */
  function Replace(a: GoArray, index: int, v: int): (r: Result<GoArray>)
    requires Valid(a)
    ensures r.Err? <==> OutOfRange(a, index)
    ensures r.Err? ==> r.failure == IndexOutOfRange
    ensures r.Ok? ==> Valid(r.value) && Get(r.value, index) == Ok(v)
    ensures r.Ok? ==> forall i | 0 <= i < a.length && i != index :: Get(r.value, i) == Get(a, i)
  {
    if OutOfRange(a, index) then Err(IndexOutOfRange)
    else Ok(GoArray(a.data[index := v], a.length))
  }

  function Size(a: GoArray): (n: int)
    requires 0 <= a.length <= |a.data|
    ensures n == |Elements(a)|
  {
    a.length
  }

  /** `Clear`: the length drops to 0; the buffer is kept. */
  function Clear(a: GoArray): (r: GoArray)
    requires Valid(a)
    ensures Valid(r) && Elements(r) == [] && r.data == a.data
  {
    GoArray(a.data, 0)
  }

  /** `Insert` then `Remove` at the same index gives the elements back, and
      `Get` there reads the inserted value. */
  lemma InsertRemoveInverse(a: GoArray, index: int, v: int)
    requires Valid(a) && 0 <= index <= a.length
    ensures Get(Insert(a, index, v).value, index) == Ok(v)
    ensures Elements(Remove(Insert(a, index, v).value, index).value) == Elements(a)
  {
    var xs := Elements(a);
    var ys := Elements(Insert(a, index, v).value);
    assert ys[..index] == xs[..index] && ys[index + 1..] == xs[index..];
    assert xs[..index] + xs[index..] == xs;
  }

  /** `Push` is `Insert` at `length`, buffer and all. */
  lemma PushIsInsertAtEnd(a: GoArray, v: int)
    requires Valid(a)
    ensures Insert(a, a.length, v) == Ok(Push(a, v))
  {
    var b := Room(a);
    assert b.data[..b.length] + [v] + b.data[b.length..b.length] + b.data[b.length + 1..] == b.data[b.length := v];
  }

  // ---------------------------------------------------------------------
  // Print and the binary codec

  /** `Print`: `"[]"` when empty, otherwise the elements joined by `", "`
      in brackets. */
  function Print(a: GoArray): (r: string)
    requires 0 <= a.length <= |a.data|
    ensures r == Bracketed(Elements(a), ", ")
    ensures r == "[]" <==> a.length == 0
    ensures a.length == 1 ==> r == "[" + Decimal(a.data[0]) + "]"
  {
    BracketedEmpty(Elements(a), ", ");
    if a.length == 0 then "[]" else Bracketed(Elements(a), ", ")
  }

  /** `SaveToBinary`: `int32(length)`, then the elements. */
  function Save(a: GoArray): (r: seq<byte>)
    requires 0 <= a.length <= |a.data|
    ensures r == GoSaveInts(Elements(a))
  {
    EncodeI32(a.length) + EncodeInt32s(Elements(a))
  }

  /** `Push` of every value in turn. */
  function PushAll(a: GoArray, xs: seq<int>): (r: GoArray)
    requires Valid(a)
    ensures Valid(r) && Elements(r) == Elements(a) + xs
    decreases |xs|
  {
    if xs == [] then a
    else
      var r := PushAll(Push(a, xs[0]), xs[1..]);
      assert Elements(a) + [xs[0]] + xs[1..] == Elements(a) + xs;
      r
  }

  /** `LoadFromBinary`: `Clear`, read the count, then `Push` each value
      read; the first failed read ends the load with an error, leaving the
      values read before it. */
  function Load(a: GoArray, s: seq<byte>): (r: (GoArray, Result<()>))
    requires Valid(a)
    ensures Valid(r.0) && Elements(r.0) == GoLoadInts(s).values
    ensures r.1.Err? ==> r.1.failure == ShortRead
    ensures r.1.Ok? <==> GoLoadInts(s).ok
  {
    var read := GoLoadInts(s);
    (PushAll(Clear(a), read.values), if read.ok then Ok(()) else Err(ShortRead))
  }

  /** Loading what `SaveToBinary` wrote gives the same elements, so the
      same `Print`, when the length and every element fit in int32. */
  lemma SaveLoadRoundTrip(a: GoArray, into: GoArray, rest: seq<byte>)
    requires Valid(a) && Valid(into) && a.length < TWO_31 && Fits32(Elements(a))
    ensures Load(into, Save(a) + rest).1 == Ok(())
    ensures Elements(Load(into, Save(a) + rest).0) == Elements(a)
    ensures Print(Load(into, Save(a) + rest).0) == Print(a)
  {
    GoSaveLoadInts(Elements(a), rest);
  }
}
