/** The doubly linked list: C++ `DoubleList<T>` (`linear.h`,
    `doublelist.cpp`) and the Go `DoubleList` of `int` (`doublelist.go`),
    whose operations relink the same pointers in the same cases.

    Nodes live on a heap, a map from addresses to nodes; `alloc` is an
    address no live node uses, which the next `new Node` returns.  The
    invariant `Linked(l, ids)` says that `ids` lists the addresses from
    `head` to `tail`: each node's `next` is its successor, each `prev` its
    predecessor, the heap holds exactly these nodes, and `length` counts
    them.  Walks from `head` are bounded by `length` steps; on a linked
    list they stop at the null pointer first, as the source's loops do. */
module DoubleLists {
  import opened Wrappers
  import opened Bytes
  import opened Streams
  import opened Seqs
  import opened Text

  datatype Ptr = Null | Ref(id: nat)

  datatype Node<T> = Node(data: T, prev: Ptr, next: Ptr)

  datatype DoubleList<T> = DoubleList(heap: map<nat, Node<T>>, head: Ptr, tail: Ptr, length: int, alloc: nat)

  /** The pointer to the `i`-th listed node, null outside the list. */
  function At(ids: seq<nat>, i: int): (p: Ptr)
    ensures p.Ref? <==> 0 <= i < |ids|
  {
    if 0 <= i < |ids| then Ref(ids[i]) else Null
  }

  /** The node at the `i`-th listed address.  The link conjuncts of
      `Linked` are stated through it, so that they are instantiated only
      for positions a proof names. */
  ghost function NodeAt<T>(l: DoubleList<T>, ids: seq<nat>, i: int): Node<T>
    requires 0 <= i < |ids| && ids[i] in l.heap
  {
    l.heap[ids[i]]
  }

  /** No address is listed twice. */
  ghost predicate Distinct(ids: seq<nat>)
  {
    forall i, j | 0 <= i < j < |ids| :: ids[i] != ids[j]
  }

  /** Every listed address holds a live node below `alloc`. */
  ghost predicate Allocated<T>(l: DoubleList<T>, ids: seq<nat>)
  {
    forall i | 0 <= i < |ids| :: ids[i] in l.heap && ids[i] < l.alloc
  }

  /** Every live node is listed. */
  ghost predicate Covers<T>(l: DoubleList<T>, ids: seq<nat>)
  {
    forall a | a in l.heap :: a in ids
  }

  /** Each listed node's `next` is its successor and its `prev` its
      predecessor, null at the ends. */
  ghost predicate Chained<T>(l: DoubleList<T>, ids: seq<nat>)
    requires Allocated(l, ids)
  {
    && (forall i | 0 <= i < |ids| :: NodeAt(l, ids, i).next == At(ids, i + 1))
    && (forall i | 0 <= i < |ids| :: NodeAt(l, ids, i).prev == At(ids, i - 1))
  }

  ghost predicate Linked<T>(l: DoubleList<T>, ids: seq<nat>)
  {
    && Distinct(ids)
    && Allocated(l, ids)
    && Covers(l, ids)
    && l.head == At(ids, 0)
    && l.tail == At(ids, |ids| - 1)
    && Chained(l, ids)
    && l.length == |ids|
  }

  /** Every pointer the operations follow leads to a live node, and
      `alloc` is free. */
  ghost predicate Live<T>(l: DoubleList<T>)
  {
    && (l.head.Ref? ==> l.head.id in l.heap)
    && (l.tail.Ref? ==> l.tail.id in l.heap)
    && (forall a | a in l.heap :: a < l.alloc)
    && (forall a {:trigger l.heap[a].next} | a in l.heap :: l.heap[a].next.Ref? ==> l.heap[a].next.id in l.heap)
    && (forall a {:trigger l.heap[a].prev} | a in l.heap :: l.heap[a].prev.Ref? ==> l.heap[a].prev.id in l.heap)
  }

  lemma LinkedIsLive<T>(l: DoubleList<T>, ids: seq<nat>)
    requires Linked(l, ids)
    ensures Live(l)
  {
    forall a | a in l.heap
      ensures l.heap[a].next.Ref? ==> l.heap[a].next.id in l.heap
      ensures l.heap[a].prev.Ref? ==> l.heap[a].prev.id in l.heap
    {
      var i :| 0 <= i < |ids| && ids[i] == a;
      assert NodeAt(l, ids, i).next == At(ids, i + 1);
      assert NodeAt(l, ids, i).prev == At(ids, i - 1);
    }
  }

  /** The values from `head` to `tail`. */
  ghost function Values<T>(l: DoubleList<T>, ids: seq<nat>): (vs: seq<T>)
    requires Allocated(l, ids)
    ensures |vs| == |ids|
  {
    seq(|ids|, i requires 0 <= i < |ids| => l.heap[ids[i]].data)
  }

  function Empty<T>(): (l: DoubleList<T>)
  {
    DoubleList(map[], Null, Null, 0, 0)
  }

  /** `NewDoubleList`: no nodes, `head` and `tail` null. */
  lemma EmptyLinked<T>()
    ensures Linked(Empty<T>(), [])
  {
  }

  /** The walk bound: `length` steps. */
  function Steps<T>(l: DoubleList<T>): nat
  {
    if l.length > 0 then l.length else 0
  }

  // ---------------------------------------------------------------------
  // Adding at either end

  /** `addHead`: on an empty list (`head` null) the node becomes `head` and
      `tail`; otherwise it points at the old head, which points back. */
  function AddHead<T>(l: DoubleList<T>, v: T): (r: DoubleList<T>)
    requires l.head.Ref? ==> l.head.id in l.heap
    ensures r.length == l.length + 1 && r.head == Ref(l.alloc) && r.alloc == l.alloc + 1
  {
    var node := Node(v, Null, l.head);
    if l.head.Null? then
      DoubleList(l.heap[l.alloc := node], Ref(l.alloc), Ref(l.alloc), l.length + 1, l.alloc + 1)
    else
      var node0 := l.heap[l.head.id];
      var heap := l.heap[l.head.id := node0.(prev := Ref(l.alloc))][l.alloc := node];
      DoubleList(heap, Ref(l.alloc), l.tail, l.length + 1, l.alloc + 1)
  }

  /** `addTail`: the mirror image of `addHead`. */
  function AddTail<T>(l: DoubleList<T>, v: T): (r: DoubleList<T>)
    requires l.tail.Ref? ==> l.tail.id in l.heap
    ensures r.length == l.length + 1 && r.tail == Ref(l.alloc) && r.alloc == l.alloc + 1
  {
    var node := Node(v, l.tail, Null);
    if l.tail.Null? then
      DoubleList(l.heap[l.alloc := node], Ref(l.alloc), Ref(l.alloc), l.length + 1, l.alloc + 1)
    else
      var node0 := l.heap[l.tail.id];
      var heap := l.heap[l.tail.id := node0.(next := Ref(l.alloc))][l.alloc := node];
      DoubleList(heap, l.head, Ref(l.alloc), l.length + 1, l.alloc + 1)
  }

  /** `addHead` keeps the list linked, with the new node first. */
  lemma AddHeadLinked<T>(l: DoubleList<T>, ids: seq<nat>, v: T)
    requires Linked(l, ids)
    ensures Linked(AddHead(l, v), [l.alloc] + ids)
    ensures Values(AddHead(l, v), [l.alloc] + ids) == [v] + Values(l, ids)
  {
    var r, ids' := AddHead(l, v), [l.alloc] + ids;
    AddHeadChained(l, ids, v);
    FreshDistinct(ids, l.alloc, true);
    forall a | a in r.heap ensures a in ids' {
      if a != l.alloc {
        assert a in l.heap;
      }
    }
    var vs, ws := Values(r, ids'), [v] + Values(l, ids);
    forall i | 0 <= i < |vs| ensures vs[i] == ws[i] {
      if i > 0 {
        assert ids'[i] == ids[i - 1];
      }
    }
  }

  lemma AddHeadChained<T>(l: DoubleList<T>, ids: seq<nat>, v: T)
    requires Linked(l, ids)
    ensures Allocated(AddHead(l, v), [l.alloc] + ids)
    ensures Chained(AddHead(l, v), [l.alloc] + ids)
  {
    var r, ids' := AddHead(l, v), [l.alloc] + ids;
    forall i | 0 <= i < |ids'| ensures ids'[i] in r.heap && ids'[i] < r.alloc {
      if i > 0 {
        assert ids'[i] == ids[i - 1];
      }
    }
    forall i | 0 <= i < |ids'| ensures NodeAt(r, ids', i).next == At(ids', i + 1) && NodeAt(r, ids', i).prev == At(ids', i - 1) {
      if i == 1 {
        assert ids'[1] == ids[0] && NodeAt(l, ids, 0).prev == Null;
      } else if i > 1 {
        assert ids'[i] == ids[i - 1];
        assert NodeAt(l, ids, i - 1).next == At(ids, i) && NodeAt(l, ids, i - 1).prev == At(ids, i - 2);
      }
    }
  }

  /** `addTail` keeps the list linked, with the new node last. */
  lemma AddTailLinked<T>(l: DoubleList<T>, ids: seq<nat>, v: T)
    requires Linked(l, ids)
    ensures Linked(AddTail(l, v), ids + [l.alloc])
    ensures Values(AddTail(l, v), ids + [l.alloc]) == Values(l, ids) + [v]
  {
    var r, ids' := AddTail(l, v), ids + [l.alloc];
    AddTailChained(l, ids, v);
    FreshDistinct(ids, l.alloc, false);
    forall a | a in r.heap ensures a in ids' {
      if a != l.alloc {
        assert a in l.heap;
      }
    }
    var vs, ws := Values(r, ids'), Values(l, ids) + [v];
    forall i | 0 <= i < |vs| ensures vs[i] == ws[i] {
      if i < |ids| {
        assert ids'[i] == ids[i];
      }
    }
  }

  lemma AddTailChained<T>(l: DoubleList<T>, ids: seq<nat>, v: T)
    requires Linked(l, ids)
    ensures Allocated(AddTail(l, v), ids + [l.alloc])
    ensures Chained(AddTail(l, v), ids + [l.alloc])
  {
    var r, ids' := AddTail(l, v), ids + [l.alloc];
    var n := |ids|;
    forall i | 0 <= i < |ids'| ensures ids'[i] in r.heap && ids'[i] < r.alloc {
      if i < n {
        assert ids'[i] == ids[i];
      }
    }
    forall i | 0 <= i < |ids'| ensures NodeAt(r, ids', i).next == At(ids', i + 1) && NodeAt(r, ids', i).prev == At(ids', i - 1) {
      if i == n - 1 {
        assert ids'[i] == ids[i] && NodeAt(l, ids, i).next == Null;
        assert NodeAt(l, ids, i).prev == At(ids, i - 1);
      } else if i < n - 1 {
        assert ids'[i] == ids[i];
        assert NodeAt(l, ids, i).next == At(ids, i + 1) && NodeAt(l, ids, i).prev == At(ids, i - 1);
      }
    }
  }

  /** A new address above every listed one keeps the list distinct, at
      either end. */
  lemma FreshDistinct(ids: seq<nat>, a: nat, front: bool)
    requires Distinct(ids) && forall i | 0 <= i < |ids| :: ids[i] < a
    ensures front ==> Distinct([a] + ids)
    ensures !front ==> Distinct(ids + [a])
  {
    var ids' := if front then [a] + ids else ids + [a];
    forall i, j | 0 <= i < j < |ids'| ensures ids'[i] != ids'[j] {
      var i0, j0 := if front then i - 1 else i, if front then j - 1 else j;
      if 0 <= i0 < |ids| && 0 <= j0 < |ids| {
        assert ids'[i] == ids[i0] && ids'[j] == ids[j0];
      } else if 0 <= i0 < |ids| {
        assert ids'[i] == ids[i0];
      } else {
        assert ids'[j] == ids[j0];
      }
    }
  }

  // ---------------------------------------------------------------------
  // Finding and removing

  /** The walk of `remove` (and Go `Contains`): the first node at or after
      `p` holding `v`, or null. */
  function Seek<T(==)>(l: DoubleList<T>, p: Ptr, v: T, fuel: nat): (r: Ptr)
    requires Live(l) && (p.Ref? ==> p.id in l.heap)
    ensures r.Ref? ==> r.id in l.heap && l.heap[r.id].data == v
    decreases fuel
  {
    if p.Null? || fuel == 0 then Null
    else if l.heap[p.id].data == v then p
    else Seek(l, l.heap[p.id].next, v, fuel - 1)
  }

  /** The first position at or after `k` holding `v`, `|vs|` when there
      is none. */
  ghost function FirstFrom<T>(vs: seq<T>, k: nat, v: T): (j: nat)
    requires k <= |vs|
    ensures k <= j <= |vs| && (j < |vs| ==> vs[j] == v)
    ensures forall i | k <= i < j :: vs[i] != v
    decreases |vs| - k
  {
    if k == |vs| || vs[k] == v then k else FirstFrom(vs, k + 1, v)
  }

  /** On a linked list the walk from the `k`-th node stops at the first
      later node holding `v`. */
  lemma {:induction false} SeekLinked<T>(l: DoubleList<T>, ids: seq<nat>, k: nat, v: T, fuel: nat)
    requires Live(l) && Allocated(l, ids) && Chained(l, ids) && k <= |ids| && fuel >= |ids| - k
    ensures Seek(l, At(ids, k), v, fuel) == At(ids, FirstFrom(Values(l, ids), k, v))
    decreases |ids| - k
  {
    var vs := Values(l, ids);
    if k < |ids| {
      SeekStep(l, ids, k, v, fuel);
      if vs[k] != v {
        SeekLinked(l, ids, k + 1, v, fuel - 1);
        assert FirstFrom(vs, k, v) == FirstFrom(vs, k + 1, v);
      }
    } else {
      assert FirstFrom(vs, k, v) == k;
    }
  }

  lemma NotInPrefix<T>(xs: seq<T>, n: nat, v: T)
    requires n <= |xs| && v !in xs[..n]
    ensures forall t | 0 <= t < n :: xs[t] != v
  {
    assert forall t | 0 <= t < n :: xs[t] == xs[..n][t];
  }

  /** One step of the walk: stop at the `k`-th node or go on to the
      next. */
  lemma SeekStep<T>(l: DoubleList<T>, ids: seq<nat>, k: nat, v: T, fuel: nat)
    requires Live(l) && Allocated(l, ids) && Chained(l, ids) && k < |ids| && fuel >= 1
    ensures Seek(l, At(ids, k), v, fuel)
      == if Values(l, ids)[k] == v then At(ids, k) else Seek(l, At(ids, k + 1), v, fuel - 1)
  {
    var p, node := At(ids, k), NodeAt(l, ids, k);
    assert node == l.heap[p.id] && node.data == Values(l, ids)[k];
    assert node.next == At(ids, k + 1);
  }

  /** The first position from 0 is the first index. */
  lemma FirstFromStart<T>(vs: seq<T>, v: T)
    ensures FirstFrom(vs, 0, v) < |vs| <==> v in vs
    ensures v in vs ==> FirstFrom(vs, 0, v) == FirstIndex(vs, v)
  {
    var j := FirstFrom(vs, 0, v);
    if v in vs {
      var i := FirstIndex(vs, v);
      NotInPrefix(vs, i, v);
    }
  }

  /** Unlink the live node `id`: its predecessor (or `head`) takes its
      `next`, its successor (or `tail`) takes its `prev`, then the node is
      deleted and the counter drops. */
  function Unlink<T>(l: DoubleList<T>, id: nat): (r: DoubleList<T>)
    requires Live(l) && id in l.heap
    ensures r.length == l.length - 1 && id !in r.heap
  {
    var n := l.heap[id];
    var heap1 := if n.prev.Ref? then l.heap[n.prev.id := l.heap[n.prev.id].(next := n.next)] else l.heap;
    var head := if n.prev.Ref? then l.head else n.next;
    var heap2 := if n.next.Ref? then heap1[n.next.id := heap1[n.next.id].(prev := n.prev)] else heap1;
    var tail := if n.next.Ref? then l.tail else n.prev;
    DoubleList(heap2 - {id}, head, tail, l.length - 1, l.alloc)
  }

  /** `remove`: unlink the first node holding `v`; false when there is
      none. */
  function Remove<T(==)>(l: DoubleList<T>, v: T): (r: (DoubleList<T>, bool))
    requires Live(l)
    ensures !r.1 ==> r.0 == l
    ensures r.1 ==> r.0.length == l.length - 1
  {
    var p := Seek(l, l.head, v, Steps(l));
    if p.Null? then (l, false) else (Unlink(l, p.id), true)
  }

  /** Unlinking the `k`-th node leaves the others linked in order. */
  lemma UnlinkLinked<T>(l: DoubleList<T>, ids: seq<nat>, k: nat)
    requires Linked(l, ids) && k < |ids|
    ensures Live(l)
    ensures Linked(Unlink(l, ids[k]), ids[..k] + ids[k + 1..])
    ensures Values(Unlink(l, ids[k]), ids[..k] + ids[k + 1..]) == Values(l, ids)[..k] + Values(l, ids)[k + 1..]
  {
    LinkedIsLive(l, ids);
    DistinctSplice(ids, k);
    UnlinkAllocated(l, ids, k);
    UnlinkChained(l, ids, k);
    UnlinkCovers(l, ids, k);
    UnlinkEnds(l, ids, k);
    UnlinkValues(l, ids, k);
  }

  lemma DistinctSplice(ids: seq<nat>, k: nat)
    requires Distinct(ids) && k < |ids|
    ensures Distinct(ids[..k] + ids[k + 1..])
  {
    var ids' := ids[..k] + ids[k + 1..];
    forall i, j | 0 <= i < j < |ids'| ensures ids'[i] != ids'[j] {
      var i0 := if i < k then i else i + 1;
      var j0 := if j < k then j else j + 1;
      assert ids'[i] == ids[i0] && ids'[j] == ids[j0];
    }
  }

  lemma UnlinkAllocated<T>(l: DoubleList<T>, ids: seq<nat>, k: nat)
    requires Linked(l, ids) && k < |ids|
    ensures Live(l)
    ensures Allocated(Unlink(l, ids[k]), ids[..k] + ids[k + 1..])
  {
    LinkedIsLive(l, ids);
    var r, ids' := Unlink(l, ids[k]), ids[..k] + ids[k + 1..];
    forall i | 0 <= i < |ids'| ensures ids'[i] in r.heap && ids'[i] < r.alloc {
      UnlinkNode(l, ids, k, i);
      var i0 := if i < k then i else i + 1;
      assert ids'[i] == ids[i0];
    }
  }

  lemma UnlinkChained<T>(l: DoubleList<T>, ids: seq<nat>, k: nat)
    requires Linked(l, ids) && k < |ids|
    ensures Live(l) && Allocated(Unlink(l, ids[k]), ids[..k] + ids[k + 1..])
    ensures Chained(Unlink(l, ids[k]), ids[..k] + ids[k + 1..])
  {
    UnlinkAllocated(l, ids, k);
    var r, ids' := Unlink(l, ids[k]), ids[..k] + ids[k + 1..];
    forall i | 0 <= i < |ids'|
      ensures NodeAt(r, ids', i).next == At(ids', i + 1) && NodeAt(r, ids', i).prev == At(ids', i - 1)
    {
      UnlinkNode(l, ids, k, i);
      UnlinkedNodeLinks(l, ids, k, i);
    }
  }

  lemma UnlinkCovers<T>(l: DoubleList<T>, ids: seq<nat>, k: nat)
    requires Linked(l, ids) && k < |ids|
    ensures Live(l) && Covers(Unlink(l, ids[k]), ids[..k] + ids[k + 1..])
  {
    LinkedIsLive(l, ids);
    var r, ids' := Unlink(l, ids[k]), ids[..k] + ids[k + 1..];
    forall a | a in r.heap ensures a in ids' {
      assert a in l.heap;
      var i :| 0 <= i < |ids| && ids[i] == a;
      if i < k {
        assert ids'[i] == a;
      } else {
        assert ids'[i - 1] == a;
      }
    }
  }

  lemma UnlinkValues<T>(l: DoubleList<T>, ids: seq<nat>, k: nat)
    requires Linked(l, ids) && k < |ids| && Live(l)
    requires Allocated(Unlink(l, ids[k]), ids[..k] + ids[k + 1..])
    ensures Values(Unlink(l, ids[k]), ids[..k] + ids[k + 1..]) == Values(l, ids)[..k] + Values(l, ids)[k + 1..]
  {
    var r, ids' := Unlink(l, ids[k]), ids[..k] + ids[k + 1..];
    var vs, ws := Values(r, ids'), Values(l, ids)[..k] + Values(l, ids)[k + 1..];
    forall i | 0 <= i < |vs| ensures vs[i] == ws[i] {
      var i0 := if i < k then i else i + 1;
      UnlinkNode(l, ids, k, i);
      assert vs[i] == UnlinkedNode(l, ids, k, i).data;
      assert ws[i] == Values(l, ids)[i0];
    }
  }

  /** The node at position `i` of the shortened list after unlinking the
      `k`-th node, as `Unlink` leaves it. */
  ghost function UnlinkedNode<T>(l: DoubleList<T>, ids: seq<nat>, k: nat, i: nat): Node<T>
    requires Linked(l, ids) && k < |ids| && i < |ids| - 1
  {
    var i0 := if i < k then i else i + 1;
    var n := l.heap[ids[i0]];
    if i0 == k - 1 then n.(next := At(ids, k + 1))
    else if i0 == k + 1 then n.(prev := At(ids, k - 1))
    else n
  }

  lemma UnlinkNode<T>(l: DoubleList<T>, ids: seq<nat>, k: nat, i: nat)
    requires Linked(l, ids) && k < |ids| && i < |ids| - 1
    ensures Live(l)
    ensures (ids[..k] + ids[k + 1..])[i] in Unlink(l, ids[k]).heap
    ensures Unlink(l, ids[k]).heap[(ids[..k] + ids[k + 1..])[i]] == UnlinkedNode(l, ids, k, i)
  {
    LinkedIsLive(l, ids);
    var i0 := if i < k then i else i + 1;
    assert (ids[..k] + ids[k + 1..])[i] == ids[i0];
    assert ids[i0] != ids[k];
    assert NodeAt(l, ids, k).prev == At(ids, k - 1) && NodeAt(l, ids, k).next == At(ids, k + 1);
    if k >= 1 && i0 != k - 1 {
      assert ids[i0] != ids[k - 1];
    }
    if k + 1 < |ids| && i0 != k + 1 {
      assert ids[i0] != ids[k + 1];
    }
    if k >= 1 && k + 1 < |ids| {
      assert ids[k - 1] != ids[k + 1];
    }
  }

  lemma UnlinkedNodeLinks<T>(l: DoubleList<T>, ids: seq<nat>, k: nat, i: nat)
    requires Linked(l, ids) && k < |ids| && i < |ids| - 1
    ensures UnlinkedNode(l, ids, k, i).next == At(ids[..k] + ids[k + 1..], i + 1)
    ensures UnlinkedNode(l, ids, k, i).prev == At(ids[..k] + ids[k + 1..], i - 1)
  {
    var ids' := ids[..k] + ids[k + 1..];
    var i0 := if i < k then i else i + 1;
    assert NodeAt(l, ids, i0).next == At(ids, i0 + 1) && NodeAt(l, ids, i0).prev == At(ids, i0 - 1);
    assert forall j | 0 <= j < k :: ids'[j] == ids[j];
    assert forall j | k <= j < |ids'| :: ids'[j] == ids[j + 1];
  }

  lemma UnlinkEnds<T>(l: DoubleList<T>, ids: seq<nat>, k: nat)
    requires Linked(l, ids) && k < |ids|
    ensures Live(l)
    ensures Unlink(l, ids[k]).head == At(ids[..k] + ids[k + 1..], 0)
    ensures Unlink(l, ids[k]).tail == At(ids[..k] + ids[k + 1..], |ids| - 2)
  {
    LinkedIsLive(l, ids);
    var ids' := ids[..k] + ids[k + 1..];
    assert NodeAt(l, ids, k).prev == At(ids, k - 1) && NodeAt(l, ids, k).next == At(ids, k + 1);
    assert forall j | 0 <= j < k :: ids'[j] == ids[j];
    assert forall j | k <= j < |ids'| :: ids'[j] == ids[j + 1];
  }

  /** `remove` deletes exactly the first node holding `v`, keeps the rest
      linked in order, and answers whether there was one. */
  lemma RemoveSpec<T>(l: DoubleList<T>, ids: seq<nat>, v: T)
    requires Linked(l, ids)
    ensures Live(l)
    ensures Remove(l, v).1 <==> v in Values(l, ids)
    ensures v in Values(l, ids) ==>
      var k := FirstIndex(Values(l, ids), v);
      Linked(Remove(l, v).0, ids[..k] + ids[k + 1..])
      && Values(Remove(l, v).0, ids[..k] + ids[k + 1..]) == Values(l, ids)[..k] + Values(l, ids)[k + 1..]
    ensures v !in Values(l, ids) ==> Remove(l, v).0 == l
  {
    LinkedIsLive(l, ids);
    var vs := Values(l, ids);
    SeekLinked(l, ids, 0, v, Steps(l));
    FirstFromStart(vs, v);
    if v in vs {
      UnlinkLinked(l, ids, FirstIndex(vs, v));
    }
  }

  // ---------------------------------------------------------------------
  // The rest of the interface

  /** `clear`: every node freed, `head` and `tail` null, the counter 0. */
  function Clear<T>(l: DoubleList<T>): (r: DoubleList<T>)
    ensures Linked(r, []) && r.alloc == l.alloc
  {
    DoubleList(map[], Null, Null, 0, l.alloc)
  }

  function Size<T>(l: DoubleList<T>): (n: int)
    ensures forall ids | Linked(l, ids) :: n == |ids|
  {
    l.length
  }

  /** `empty()`: `head == nullptr`. */
  function IsEmpty<T>(l: DoubleList<T>): (b: bool)
    ensures forall ids | Linked(l, ids) :: b <==> ids == []
  {
    l.head.Null?
  }

  /** The addresses met walking `next` from `p`. */
  function Forward<T>(l: DoubleList<T>, p: Ptr, fuel: nat): (r: seq<nat>)
    requires Live(l) && (p.Ref? ==> p.id in l.heap)
    ensures forall i | 0 <= i < |r| :: r[i] in l.heap
    decreases fuel
  {
    if p.Null? || fuel == 0 then [] else [p.id] + Forward(l, l.heap[p.id].next, fuel - 1)
  }

  /** The addresses met walking `prev` from `p`. */
  function Backward<T>(l: DoubleList<T>, p: Ptr, fuel: nat): (r: seq<nat>)
    requires Live(l) && (p.Ref? ==> p.id in l.heap)
    decreases fuel
  {
    if p.Null? || fuel == 0 then [] else [p.id] + Backward(l, l.heap[p.id].prev, fuel - 1)
  }

  lemma {:induction false} ForwardFrom<T>(l: DoubleList<T>, ids: seq<nat>, k: nat, fuel: nat)
    requires Linked(l, ids) && k <= |ids| && fuel >= |ids| - k
    ensures Live(l) && Forward(l, At(ids, k), fuel) == ids[k..]
    decreases |ids| - k
  {
    LinkedIsLive(l, ids);
    if k < |ids| {
      var p, node := At(ids, k), NodeAt(l, ids, k);
      assert node == l.heap[p.id] && node.next == At(ids, k + 1);
      ForwardFrom(l, ids, k + 1, fuel - 1);
      assert Forward(l, p, fuel) == [ids[k]] + Forward(l, node.next, fuel - 1);
      ConsSlice(ids, k);
    }
  }

  lemma ConsSlice<T>(xs: seq<T>, k: nat)
    requires k < |xs|
    ensures xs[k..] == [xs[k]] + xs[k + 1..]
  {
  }

  lemma WholeSlices<T>(xs: seq<T>)
    ensures xs[0..] == xs && xs[..|xs|] == xs
  {
  }

  lemma {:induction false} BackwardFrom<T>(l: DoubleList<T>, ids: seq<nat>, k: nat, fuel: nat)
    requires Linked(l, ids) && k <= |ids| && fuel >= k
    ensures Live(l) && Backward(l, At(ids, k - 1), fuel) == Reverse(ids[..k])
    decreases k
  {
    LinkedIsLive(l, ids);
    if k > 0 {
      assert NodeAt(l, ids, k - 1).prev == At(ids, k - 2);
      BackwardFrom(l, ids, k - 1, fuel - 1);
      assert ids[..k] == ids[..k - 1] + [ids[k - 1]];
      ReverseAppend(ids[..k - 1], ids[k - 1]);
    }
  }

  /** The invariant seen from the pointers: walking `next` from `head`
      meets the listed nodes in order, walking `prev` from `tail` meets
      them in reverse, and both walks end at null after `length` nodes. */
  lemma Traversals<T>(l: DoubleList<T>, ids: seq<nat>, fuel: nat)
    requires Linked(l, ids) && fuel >= l.length
    ensures Live(l)
    ensures Forward(l, l.head, fuel) == ids && |ids| == l.length
    ensures Backward(l, l.tail, fuel) == Reverse(Forward(l, l.head, fuel))
  {
    ForwardFrom(l, ids, 0, fuel);
    BackwardFrom(l, ids, |ids|, fuel);
    WholeSlices(ids);
  }

  // ---------------------------------------------------------------------
  // Go only: Contains, Print and the binary codec

  /** `Contains`: the walk from `head` finds a node holding `v`. */
  function Contains<T(==)>(l: DoubleList<T>, v: T): (b: bool)
    requires Live(l)
    ensures forall ids | Linked(l, ids) :: b <==> v in Values(l, ids)
  {
    var b := Seek(l, l.head, v, Steps(l)).Ref?;
    assert forall ids | Linked(l, ids) :: b <==> v in Values(l, ids) by {
      forall ids | Linked(l, ids) ensures b <==> v in Values(l, ids) {
        SeekLinked(l, ids, 0, v, Steps(l));
        FirstFromStart(Values(l, ids), v);
      }
    }
    b
  }

  /** The values met walking from `head`. */
  function ForwardValues<T>(l: DoubleList<T>): (vs: seq<T>)
    requires Live(l)
    ensures forall ids | Linked(l, ids) :: vs == Values(l, ids)
  {
    var ps := Forward(l, l.head, Steps(l));
    var vs := seq(|ps|, i requires 0 <= i < |ps| => l.heap[ps[i]].data);
    assert forall ids | Linked(l, ids) :: vs == Values(l, ids) by {
      forall ids | Linked(l, ids) ensures vs == Values(l, ids) {
        Traversals(l, ids, Steps(l));
      }
    }
    vs
  }

  /** `Print`: `"[]"` for an empty list, otherwise the values from `head`
      joined by `" <-> "` in brackets. */
  function Print(l: DoubleList<int>): (r: string)
    requires Live(l)
    ensures forall ids | Linked(l, ids) :: r == Bracketed(Values(l, ids), " <-> ")
    ensures forall ids | Linked(l, ids) :: r == "[]" <==> ids == []
  {
    BracketedEmpty(ForwardValues(l), " <-> ");
    if l.head.Null? then "[]" else Bracketed(ForwardValues(l), " <-> ")
  }

  /** `SaveToBinary`: `int32(count)`, then the values from `head`. */
  function Save(l: DoubleList<int>): (r: seq<byte>)
    requires Live(l)
    ensures forall ids | Linked(l, ids) :: r == GoSaveInts(Values(l, ids))
  {
    EncodeI32(l.length) + EncodeInt32s(ForwardValues(l))
  }

  /** `AddTail` of every value in turn. */
  function AddAll<T>(l: DoubleList<T>, xs: seq<T>): (r: DoubleList<T>)
    requires Live(l)
    ensures Live(r)
    decreases |xs|
  {
    if xs == [] then l
    else
      var m := AddTail(l, xs[0]);
      assert Live(m) by {
        AddTailLive(l, xs[0]);
      }
      AddAll(m, xs[1..])
  }

  lemma AddTailLive<T>(l: DoubleList<T>, v: T)
    requires Live(l)
    ensures Live(AddTail(l, v))
  {
  }

  /** The addresses `AddAll` allocates, in order. */
  function Fresh(from: nat, n: nat): (r: seq<nat>)
    ensures |r| == n && forall i | 0 <= i < n :: r[i] == from + i
  {
    seq(n, i requires 0 <= i < n => from + i)
  }

  lemma FreshStep(ids: seq<nat>, from: nat, next: nat, n: nat, m: nat)
    requires next == from + 1 && m + 1 == n
    ensures ids + [from] + Fresh(next, m) == ids + Fresh(from, n)
  {
    assert [from] + Fresh(next, m) == Fresh(from, n);
  }

  lemma AppendFirst<T>(a: seq<T>, xs: seq<T>)
    requires xs != []
    ensures a + [xs[0]] + xs[1..] == a + xs
  {
    assert [xs[0]] + xs[1..] == xs;
  }

  lemma {:induction false} AddAllLinked<T>(l: DoubleList<T>, ids: seq<nat>, xs: seq<T>)
    requires Linked(l, ids)
    ensures Live(l)
    ensures Linked(AddAll(l, xs), ids + Fresh(l.alloc, |xs|))
    ensures Values(AddAll(l, xs), ids + Fresh(l.alloc, |xs|)) == Values(l, ids) + xs
    decreases |xs|
  {
    LinkedIsLive(l, ids);
    var want := ids + Fresh(l.alloc, |xs|);
    if xs == [] {
      assert want == ids;
    } else {
      var m := AddTail(l, xs[0]);
      AddTailLinked(l, ids, xs[0]);
      AddAllLinked(m, ids + [l.alloc], xs[1..]);
      FreshStep(ids, l.alloc, m.alloc, |xs|, |xs[1..]|);
      AppendFirst(Values(l, ids), xs);
    }
  }

  /** `LoadFromBinary`: `Clear`, read the count, then `AddTail` each value
      read; the first failed read ends the load with an error. */
  function Load(l: DoubleList<int>, s: seq<byte>): (r: (DoubleList<int>, Result<()>))
    ensures Live(r.0)
    ensures r.1.Err? ==> r.1.failure == ShortRead
  {
    var read := GoLoadInts(s);
    (AddAll(Clear(l), read.values), if read.ok then Ok(()) else Err(ShortRead))
  }

  /** Loading what `SaveToBinary` wrote gives a linked list of the same
      values in the same order, when the count and every value fit in
      int32. */
  lemma SaveLoadRoundTrip(l: DoubleList<int>, ids: seq<nat>, into: DoubleList<int>, rest: seq<byte>)
    requires Linked(l, ids) && |ids| < TWO_31 && Fits32(Values(l, ids))
    ensures Live(l)
    ensures Load(into, Save(l) + rest).1 == Ok(())
    ensures Linked(Load(into, Save(l) + rest).0, Fresh(into.alloc, |ids|))
    ensures Values(Load(into, Save(l) + rest).0, Fresh(into.alloc, |ids|)) == Values(l, ids)
  {
    LinkedIsLive(l, ids);
    var vs := Values(l, ids);
    GoSaveLoadInts(vs, rest);
    AddAllLinked(Clear(into), [], vs);
    assert [] + Fresh(into.alloc, |vs|) == Fresh(into.alloc, |ids|);
  }
}
