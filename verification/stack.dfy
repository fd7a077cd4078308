/** The C++ linked `Stack<T>` (`linear.h`, `stack.cpp`).

    The nodes reachable from `top` are a sequence whose first element is
    the top; `length` is the separately kept counter.  `empty()` tests
    `top` and `size()` returns the counter, so the two agree only on a
    stack that keeps `length == |nodes|` (`Valid`).  Counters are unbounded
    integers. */
module Stacks {
  import opened Wrappers
  import opened Bytes
  import opened Streams
  import opened Seqs

  datatype Stack<T> = Stack(nodes: seq<T>, length: int)

  ghost predicate Valid<T>(s: Stack<T>)
  {
    s.length == |s.nodes|
  }

  function New<T>(): (s: Stack<T>)
  {
    Stack([], 0)
  }

  /** `push`: the new node becomes `top`. */
  function Push<T>(s: Stack<T>, v: T): (r: Stack<T>)
    ensures r.nodes == [v] + s.nodes && r.length == s.length + 1
    ensures Valid(s) ==> Valid(r)
  {
    Stack([v] + s.nodes, s.length + 1)
  }

  /** `pop`: "stack is empty" when `top` is null, otherwise the top value
      and the stack below it. */
  function Pop<T>(s: Stack<T>): (r: Result<(Stack<T>, T)>)
    ensures r.Err? <==> s.nodes == []
    ensures r.Err? ==> r.failure == EmptyContainer
    ensures r.Ok? ==> r.value.1 == s.nodes[0] && r.value.0.nodes == s.nodes[1..]
    ensures r.Ok? ==> r.value.0.length == s.length - 1
    ensures r.Ok? && Valid(s) ==> Valid(r.value.0)
  {
    if s.nodes == [] then Err(EmptyContainer)
    else Ok((Stack(s.nodes[1..], s.length - 1), s.nodes[0]))
  }

  /** `peek`: the top value, the stack unchanged. */
  function Peek<T>(s: Stack<T>): (r: Result<T>)
    ensures r.Err? <==> s.nodes == []
    ensures r.Err? ==> r.failure == EmptyContainer
    ensures r.Ok? ==> Pop(s).Ok? && r.value == Pop(s).value.1
  {
    if s.nodes == [] then Err(EmptyContainer) else Ok(s.nodes[0])
  }

  function Clear<T>(s: Stack<T>): (r: Stack<T>)
    ensures Valid(r) && r.nodes == []
  {
    Stack([], 0)
  }

  function Size<T>(s: Stack<T>): (n: int)
    ensures Valid(s) ==> n == |s.nodes|
  {
    s.length
  }

  /** `empty()`: `top == nullptr`. */
  function IsEmpty<T>(s: Stack<T>): (b: bool)
    ensures b <==> s.nodes == []
    ensures Valid(s) ==> (b <==> Size(s) == 0)
  {
    s.nodes == []
  }

  /** On a valid stack `empty()` and `size() == 0` agree. */
  lemma EmptyIffSizeZero<T>(s: Stack<T>)
    requires Valid(s)
    ensures IsEmpty(s) <==> Size(s) == 0
  {
  }

  /** `pop` undoes `push` and returns the pushed value; `peek` sees it. */
  lemma PushPop<T>(s: Stack<T>, v: T)
    ensures Pop(Push(s, v)) == Ok((s, v))
    ensures Peek(Push(s, v)) == Ok(v)
  {
    assert ([v] + s.nodes)[1..] == s.nodes;
  }

  /** `pop` until empty: the values in the order they come off. */
  function Drain<T>(s: Stack<T>): (r: seq<T>)
    ensures |r| == |s.nodes|
    decreases |s.nodes|
  {
    match Pop(s)
    case Err(_) => []
    case Ok((rest, v)) => [v] + Drain(rest)
  }

  /** `push` of every value in turn. */
  function PushAll<T>(s: Stack<T>, xs: seq<T>): (r: Stack<T>)
    ensures r.nodes == Reverse(xs) + s.nodes && r.length == s.length + |xs|
    decreases |xs|
  {
    if xs == [] then s
    else
      var r := PushAll(Push(s, xs[0]), xs[1..]);
      assert Reverse(xs) == Reverse(xs[1..]) + [xs[0]];
      r
  }

  /** LIFO: values pushed onto an empty stack come off in the reverse
      order. */
  lemma {:induction false} Lifo<T>(xs: seq<T>)
    ensures Drain(PushAll(New(), xs)) == Reverse(xs)
  {
    DrainIsNodes(PushAll(New<T>(), xs));
  }

  lemma {:induction false} DrainIsNodes<T>(s: Stack<T>)
    ensures Drain(s) == s.nodes
    decreases |s.nodes|
  {
    if s.nodes != [] {
      DrainIsNodes(Pop(s).value.0);
    }
  }

  // ---------------------------------------------------------------------
  // Moves

  /** The move constructor: the new stack takes `top` and `length`, the
      source is left empty. */
  function MoveConstruct<T>(src: Stack<T>): (r: (Stack<T>, Stack<T>))
    ensures r.0 == src && r.1.nodes == [] && Valid(r.1)
  {
    (src, Stack([], 0))
  }

  /** Move assignment: `clear()`, then as the move constructor, unless it
      is a self-assignment. */
  function MoveAssign<T>(dst: Stack<T>, src: Stack<T>, same: bool): (r: (Stack<T>, Stack<T>))
    ensures same ==> r == (dst, src)
    ensures !same ==> r.0 == src && r.1.nodes == [] && Valid(r.1)
  {
    if same then (dst, src) else MoveConstruct(src)
  }

  // ---------------------------------------------------------------------
  // The string codec (`Stack<std::string>`)

  /** `saveToBinary`: the `length` counter as a u32; then the nodes are
      collected from `top` down into a vector, which is written back to
      front, so the file runs from the bottom of the stack to the top. */
  function Save(s: Stack<Str>): (r: seq<byte>)
    ensures |r| >= 4 + 4 * |s.nodes|
    ensures Valid(s) ==> r == SaveStrings(Reverse(s.nodes))
  {
    EncodeU32(s.length % TWO_32) + EncodeStrings(Reverse(s.nodes))
  }

  /** `loadFromBinary`: `clear`, read every string into a vector, then
      `push` them in file order. */
  function Load(s: Stack<Str>, bytes: seq<byte>): (r: Option<(Stack<Str>, seq<byte>)>)
    ensures r.Some? ==> Valid(r.value.0)
  {
    match LoadStrings(bytes)
    case None => None
    case Some((xs, rest)) => Some((PushAll(Clear(s), xs), rest))
  }

  /** Loading what `saveToBinary` wrote rebuilds the stack exactly, so it
      pops in the same order. */
  lemma SaveLoadRoundTrip(s: Stack<Str>, into: Stack<Str>, rest: seq<byte>)
    requires Valid(s) && |s.nodes| < TWO_32 && ShortStrings(s.nodes)
    ensures Load(into, Save(s) + rest) == Some((s, rest))
  {
    var xs := Reverse(s.nodes);
    ShortReversed(s.nodes);
    SaveLoadStrings(xs, rest);
    assert LoadStrings(Save(s) + rest) == Some((xs, rest));
    var r := PushAll(Clear(into), xs);
    ReverseReverse(s.nodes);
    assert r.nodes == s.nodes + [];
    assert r == s;
  }

  lemma ShortReversed(xs: seq<Str>)
    requires ShortStrings(xs)
    ensures ShortStrings(Reverse(xs))
  {
    var r := Reverse(xs);
    forall i | 0 <= i < |r| ensures |r[i]| < TWO_32 {
      assert r[i] == xs[|xs| - 1 - i];
    }
  }
}
