/** Sequence vocabulary shared by the linked containers: reversal (a stack's
    file is written bottom-to-top, a doubly linked list can be walked
    backwards) and removal of the first occurrence of a value (`remove` of
    both list kinds). */
module Seqs {
  function Reverse<T>(xs: seq<T>): (r: seq<T>)
    ensures |r| == |xs|
    ensures forall i | 0 <= i < |xs| :: r[i] == xs[|xs| - 1 - i]
  {
    if xs == [] then [] else Reverse(xs[1..]) + [xs[0]]
  }

  /** Reversing twice gives the sequence back. */
  lemma ReverseReverse<T>(xs: seq<T>)
    ensures Reverse(Reverse(xs)) == xs
  {
    var r := Reverse(Reverse(xs));
    assert forall i | 0 <= i < |xs| :: r[i] == xs[i];
  }

  /** Reversal turns appending into prepending. */
  lemma ReverseAppend<T>(xs: seq<T>, x: T)
    ensures Reverse(xs + [x]) == [x] + Reverse(xs)
  {
    var a, b := Reverse(xs + [x]), [x] + Reverse(xs);
    assert forall i | 0 <= i < |a| :: a[i] == b[i];
  }

  /** Reversal of a concatenation swaps and reverses the parts. */
  lemma ReverseConcat<T>(xs: seq<T>, ys: seq<T>)
    ensures Reverse(xs + ys) == Reverse(ys) + Reverse(xs)
  {
    var a, b := Reverse(xs + ys), Reverse(ys) + Reverse(xs);
    assert forall i | 0 <= i < |a| :: a[i] == b[i];
  }

  /** The index of the first occurrence of `v`. */
  function FirstIndex<T(==)>(xs: seq<T>, v: T): (i: nat)
    requires v in xs
    ensures i < |xs| && xs[i] == v && v !in xs[..i]
  {
    if xs[0] == v then 0
    else
      var j := FirstIndex(xs[1..], v);
      assert xs[..j + 1] == [xs[0]] + xs[1..][..j];
      j + 1
  }

  /** `xs` without its first occurrence of `v`, and whether there was one:
      the node-by-node walk of `remove`, which checks the head and then
      every successor in turn. */
  function RemoveFirst<T(==)>(xs: seq<T>, v: T): (r: (seq<T>, bool))
    ensures r.1 <==> v in xs
    ensures !r.1 ==> r.0 == xs
    ensures r.1 ==> |r.0| == |xs| - 1
  {
    if xs == [] then (xs, false)
    else if xs[0] == v then (xs[1..], true)
    else
      var (rest, found) := RemoveFirst(xs[1..], v);
      ([xs[0]] + rest, found)
  }

  /** What `RemoveFirst` drops is exactly the first occurrence: everything
      before it and everything after it stays, in order. */
  lemma {:induction false} RemoveFirstSplices<T>(xs: seq<T>, v: T)
    requires v in xs
    ensures RemoveFirst(xs, v).0 == xs[..FirstIndex(xs, v)] + xs[FirstIndex(xs, v) + 1..]
  {
    if xs[0] != v {
      RemoveFirstSplices(xs[1..], v);
      var j := FirstIndex(xs[1..], v);
      assert xs[..j + 1] == [xs[0]] + xs[1..][..j];
      assert xs[j + 2..] == xs[1..][j + 1..];
    }
  }
}
