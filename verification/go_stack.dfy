/** The Go array-backed `Stack` of `int` (`stack.go`).

    `data` is the slice (its length is the capacity) and `top` the index
    of the top element, -1 when the stack is empty; the elements run from
    the bottom, `data[0]`, up to `data[top]`.  Growth reuses the array's
    `resize`, which copies the first `top + 1` slots into a zero-filled
    slice of twice the size. */
module GoStacks {
  import opened Wrappers
  import opened Bytes
  import opened Streams
  import opened Seqs
  import opened Text
  import Arrays
  import GoArrays

  datatype GoStack = GoStack(data: seq<int>, top: int)

  ghost predicate Valid(s: GoStack)
  {
    -1 <= s.top < |s.data| && |s.data| >= 1
  }

  /** The elements, bottom first. */
  function Elements(s: GoStack): (xs: seq<int>)
    requires -1 <= s.top < |s.data|
    ensures |xs| == s.top + 1
  {
    s.data[..s.top + 1]
  }

  /** `NewStack`: a non-positive capacity is replaced by 10. */
  function NewStack(initialCapacity: int): (s: GoStack)
    ensures Valid(s) && Elements(s) == []
    ensures |s.data| == if initialCapacity <= 0 then Arrays.INITIAL_CAPACITY else initialCapacity
  {
    var capacity := if initialCapacity <= 0 then Arrays.INITIAL_CAPACITY else initialCapacity;
    GoStack(GoArrays.Zeros(capacity), -1)
  }

  /** `Push`: when `top + 1` reaches the capacity, double it; then store
      above the old top. */
  function Push(s: GoStack, v: int): (r: GoStack)
    requires Valid(s)
    ensures Valid(r) && Elements(r) == Elements(s) + [v]
    ensures |r.data| == if s.top + 1 >= |s.data| then 2 * |s.data| else |s.data|
  {
    var data := if s.top + 1 >= |s.data| then GoArrays.Resize(GoArrays.GoArray(s.data, s.top + 1), 2 * |s.data|).data else s.data;
    assert data[..s.top + 1] == Elements(s);
    var r := GoStack(data[s.top + 1 := v], s.top + 1);
    assert Elements(r) == data[..s.top + 1] + [v];
    r
  }

  /** `Pop`: "stack is empty" when `top < 0`, otherwise the top element,
      and `top` drops by one. */
  function Pop(s: GoStack): (r: Result<(GoStack, int)>)
    requires Valid(s)
    ensures r.Err? <==> Elements(s) == []
    ensures r.Err? ==> r.failure == EmptyContainer
    ensures r.Ok? ==> Valid(r.value.0) && r.value.0.data == s.data
    ensures r.Ok? ==> Elements(s) == Elements(r.value.0) + [r.value.1]
  {
    if s.top < 0 then Err(EmptyContainer)
    else
      var r := GoStack(s.data, s.top - 1);
      assert Elements(s) == Elements(r) + [s.data[s.top]];
      Ok((r, s.data[s.top]))
  }

  /** `Peek`: the top element, the stack unchanged. */
  function Peek(s: GoStack): (r: Result<int>)
    requires Valid(s)
    ensures r.Err? <==> Elements(s) == []
    ensures r.Err? ==> r.failure == EmptyContainer
    ensures r.Ok? ==> Pop(s).Ok? && r.value == Pop(s).value.1
  {
    if s.top < 0 then Err(EmptyContainer) else Ok(s.data[s.top])
  }

  function Size(s: GoStack): (n: int)
    requires -1 <= s.top < |s.data|
    ensures n == |Elements(s)|
  {
    s.top + 1
  }

  /** `Clear`: `top` back to -1; the buffer is kept. */
  function Clear(s: GoStack): (r: GoStack)
    requires Valid(s)
    ensures Valid(r) && Elements(r) == [] && r.data == s.data
  {
    GoStack(s.data, -1)
  }

  /** `Pop` undoes `Push` and returns the pushed value. */
  lemma PushPop(s: GoStack, v: int)
    requires Valid(s)
    ensures Pop(Push(s, v)).Ok? && Pop(Push(s, v)).value.1 == v
    ensures Elements(Pop(Push(s, v)).value.0) == Elements(s)
  {
    var r := Pop(Push(s, v)).value;
    assert Elements(r.0) + [r.1] == Elements(s) + [v];
    assert Elements(r.0) == (Elements(s) + [v])[..|Elements(s)|];
  }

  /** `Pop` until empty: the values in the order they come off. */
  function Drain(s: GoStack): (r: seq<int>)
    requires Valid(s)
    ensures |r| == s.top + 1
    decreases s.top + 1
  {
    match Pop(s)
    case Err(_) => []
    case Ok((rest, v)) => [v] + Drain(rest)
  }

  /** `Push` of every value in turn. */
  function PushAll(s: GoStack, xs: seq<int>): (r: GoStack)
    requires Valid(s)
    ensures Valid(r) && Elements(r) == Elements(s) + xs
    decreases |xs|
  {
    if xs == [] then s
    else
      var r := PushAll(Push(s, xs[0]), xs[1..]);
      assert Elements(s) + [xs[0]] + xs[1..] == Elements(s) + xs;
      r
  }

  /** The values come off top first. */
  lemma {:induction false} DrainIsReversed(s: GoStack)
    requires Valid(s)
    ensures Drain(s) == Reverse(Elements(s))
    decreases s.top + 1
  {
    if s.top >= 0 {
      var (rest, v) := Pop(s).value;
      DrainIsReversed(rest);
      ReverseAppend(Elements(rest), v);
    }
  }

  /** LIFO: values pushed onto a stack come off in the reverse order,
      before its own elements. */
  lemma Lifo(s: GoStack, xs: seq<int>)
    requires Valid(s)
    ensures Drain(PushAll(s, xs)) == Reverse(xs) + Drain(s)
  {
    DrainIsReversed(PushAll(s, xs));
    DrainIsReversed(s);
    ReverseConcat(Elements(s), xs);
  }

  // ---------------------------------------------------------------------
  // Print and the binary codec

  /** `Print`: `"[]"` when empty, otherwise the elements from the bottom up
      joined by `", "` in brackets. */
  function Print(s: GoStack): (r: string)
    requires -1 <= s.top < |s.data|
    ensures r == Bracketed(Elements(s), ", ")
    ensures r == "[]" <==> s.top < 0
    ensures s.top == 0 ==> r == "[" + Decimal(s.data[0]) + "]"
  {
    BracketedEmpty(Elements(s), ", ");
    if s.top < 0 then "[]" else Bracketed(Elements(s), ", ")
  }

  /** `SaveToBinary`: `int32(Size())`, then the elements from the bottom
      up. */
  function Save(s: GoStack): (r: seq<byte>)
    requires -1 <= s.top < |s.data|
    ensures r == GoSaveInts(Elements(s))
  {
    EncodeI32(Size(s)) + EncodeInt32s(Elements(s))
  }

  /** `LoadFromBinary`: `Clear`, read the count, then `Push` each value
      read in file order; the first failed read ends the load with an
      error, leaving the values read before it. */
  function Load(s: GoStack, bytes: seq<byte>): (r: (GoStack, Result<()>))
    requires Valid(s)
    ensures Valid(r.0) && Elements(r.0) == GoLoadInts(bytes).values
    ensures r.1.Err? ==> r.1.failure == ShortRead
    ensures r.1.Ok? <==> GoLoadInts(bytes).ok
  {
    var read := GoLoadInts(bytes);
    (PushAll(Clear(s), read.values), if read.ok then Ok(()) else Err(ShortRead))
  }

  /** Loading what `SaveToBinary` wrote gives the same elements in the same
      order, so the same pops, when the size and every element fit in
      int32. */
  lemma SaveLoadRoundTrip(s: GoStack, into: GoStack, rest: seq<byte>)
    requires Valid(s) && Valid(into) && s.top + 1 < TWO_31 && Fits32(Elements(s))
    ensures Load(into, Save(s) + rest).1 == Ok(())
    ensures Elements(Load(into, Save(s) + rest).0) == Elements(s)
    ensures Drain(Load(into, Save(s) + rest).0) == Drain(s)
  {
    GoSaveLoadInts(Elements(s), rest);
    DrainIsReversed(s);
    DrainIsReversed(Load(into, Save(s) + rest).0);
  }
}
