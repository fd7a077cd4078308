/** The singly linked list: C++ `SingleList<T>` (`linear.h`,
    `singlelist.cpp`) and the Go `SingleList` of `int` (`singlelist.go`),
    which behave alike.  The nodes reachable from `head` are a sequence;
    `length` is the separately kept counter.  Go adds `Print` and a binary
    codec. */
module SingleLists {
  import opened Wrappers
  import opened Bytes
  import opened Streams
  import opened Seqs
  import opened Text

  datatype SingleList<T> = SingleList(nodes: seq<T>, length: int)

  ghost predicate Valid<T>(l: SingleList<T>)
  {
    l.length == |l.nodes|
  }

  function New<T>(): (l: SingleList<T>)
  {
    SingleList([], 0)
  }

  /** `addHead`: the new node points at the old head. */
  function AddHead<T>(l: SingleList<T>, v: T): (r: SingleList<T>)
    ensures r.nodes == [v] + l.nodes && r.length == l.length + 1
    ensures Valid(l) ==> Valid(r)
  {
    SingleList([v] + l.nodes, l.length + 1)
  }

  /** `addTail`: an empty list gets the node as its head, otherwise the
      walk to the last node links it there. */
  function AddTail<T>(l: SingleList<T>, v: T): (r: SingleList<T>)
    ensures r.nodes == l.nodes + [v] && r.length == l.length + 1
    ensures Valid(l) ==> Valid(r)
  {
    if l.nodes == [] then SingleList([v], l.length + 1)
    else SingleList(l.nodes + [v], l.length + 1)
  }

  /** `remove`: the first node holding `v` is unlinked and the counter
      drops; with no such node (or no nodes) the list is unchanged and the
      answer is false. */
  function Remove<T(==)>(l: SingleList<T>, v: T): (r: (SingleList<T>, bool))
    ensures r.1 <==> v in l.nodes
    ensures !r.1 ==> r.0 == l
    ensures r.1 ==> r.0.length == l.length - 1
    ensures r.1 ==> r.0.nodes == l.nodes[..FirstIndex(l.nodes, v)] + l.nodes[FirstIndex(l.nodes, v) + 1..]
    ensures Valid(l) ==> Valid(r.0)
  {
    var (rest, found) := RemoveFirst(l.nodes, v);
    if found then
      RemoveFirstSplices(l.nodes, v);
      (SingleList(rest, l.length - 1), true)
    else (l, false)
  }

  /** `remove` takes away exactly one copy of `v`: every other value keeps
      its number of occurrences. */
  lemma RemoveOneCopy<T>(l: SingleList<T>, v: T)
    ensures multiset(Remove(l, v).0.nodes) == multiset(l.nodes) - multiset{v}
  {
    if v in l.nodes {
      var i := FirstIndex(l.nodes, v);
      assert l.nodes == l.nodes[..i] + [v] + l.nodes[i + 1..];
      assert multiset(l.nodes) == multiset(l.nodes[..i]) + multiset{v} + multiset(l.nodes[i + 1..]);
    }
  }

  /** `contains`: walk from `head` until a node holds `v`. */
  method Contains<T(==)>(l: SingleList<T>, v: T) returns (b: bool)
    ensures b <==> v in l.nodes
  {
    var i := 0;
    while i < |l.nodes|
      invariant 0 <= i <= |l.nodes|
      invariant v !in l.nodes[..i]
    {
      if l.nodes[i] == v {
        return true;
      }
      assert l.nodes[..i + 1] == l.nodes[..i] + [l.nodes[i]];
      i := i + 1;
    }
    assert l.nodes[..i] == l.nodes;
    return false;
  }

  function Clear<T>(l: SingleList<T>): (r: SingleList<T>)
    ensures Valid(r) && r.nodes == []
  {
    SingleList([], 0)
  }

  function Size<T>(l: SingleList<T>): (n: int)
    ensures Valid(l) ==> n == |l.nodes|
  {
    l.length
  }

  /** `empty()`: `head == nullptr`. */
  function IsEmpty<T>(l: SingleList<T>): (b: bool)
    ensures b <==> l.nodes == []
    ensures Valid(l) ==> (b <==> Size(l) == 0)
  {
    l.nodes == []
  }

  // ---------------------------------------------------------------------
  // Go only: Print and the binary codec

  /** `Print`: `"[]"` for an empty list, otherwise the values from `head`
      joined by `" -> "` in brackets. */
  function Print(l: SingleList<int>): (r: string)
    ensures r == Bracketed(l.nodes, " -> ")
    ensures r == "[]" <==> l.nodes == []
    ensures |l.nodes| == 1 ==> r == "[" + Decimal(l.nodes[0]) + "]"
  {
    BracketedEmpty(l.nodes, " -> ");
    if l.nodes == [] then "[]" else Bracketed(l.nodes, " -> ")
  }

  /** `SaveToBinary`: `int32(count)`, then the values from `head`. */
  function Save(l: SingleList<int>): (r: seq<byte>)
    ensures |r| == 4 + 4 * |l.nodes|
    ensures Valid(l) ==> r == GoSaveInts(l.nodes)
  {
    EncodeI32(l.length) + EncodeInt32s(l.nodes)
  }

  /** `AddTail` of every value in turn. */
  function AddAll<T>(l: SingleList<T>, xs: seq<T>): (r: SingleList<T>)
    ensures r.nodes == l.nodes + xs && r.length == l.length + |xs|
    decreases |xs|
  {
    if xs == [] then l
    else
      var r := AddAll(AddTail(l, xs[0]), xs[1..]);
      assert l.nodes + [xs[0]] + xs[1..] == l.nodes + xs;
      r
  }

  /** `LoadFromBinary`: `Clear`, read the count, then `AddTail` each value
      read.  The first failed read ends the load with an error, leaving
      the values read before it in the list. */
  function Load(l: SingleList<int>, s: seq<byte>): (r: (SingleList<int>, Result<()>))
    ensures Valid(r.0)
    ensures r.1.Err? ==> r.1.failure == ShortRead
    ensures |s| < 4 ==> r.0.nodes == [] && r.1.Err?
  {
    var read := GoLoadInts(s);
    (AddAll(Clear(l), read.values), if read.ok then Ok(()) else Err(ShortRead))
  }

  /** Loading what `SaveToBinary` wrote gives the same list, so the same
      `Print`, when the count and every value fit in int32. */
  lemma SaveLoadRoundTrip(l: SingleList<int>, into: SingleList<int>, rest: seq<byte>)
    requires Valid(l) && |l.nodes| < TWO_31 && Fits32(l.nodes)
    ensures Load(into, Save(l) + rest) == (l, Ok(()))
    ensures Print(Load(into, Save(l) + rest).0) == Print(l)
  {
    GoSaveLoadInts(l.nodes, rest);
    assert AddAll(Clear(into), l.nodes).nodes == l.nodes;
  }
}
