/** The public face of `AVLTree<T>` (`trees.h`, `avl.cpp`): the root
    pointer together with the `size_t count` that `insertNode` and
    `deleteNode` maintain, the move operations, and the structural binary
    codec (`saveToBinary` / `loadFromBinary`).

    The codec is generic over the element codec.  The C++ code has two
    variants: a raw `sizeof(T)` copy for plain values and a length-prefixed
    string for `AVLTree<std::string>`; both are instances below. */
module AvlTrees {
  import opened Wrappers
  import opened Bytes
  import opened Avl

  datatype AvlTree<T> = AvlTree(root: Tree<T>, count: usize)

  /** The default constructor. */
  const Empty: AvlTree<Key> := AvlTree(Nil, 0)

  /** Every tree the operations build: correct cached heights, balance,
      search order, and a `count` equal to the number of nodes. */
  ghost predicate Valid(t: AvlTree<Key>)
  {
    IsAvl(t.root) && t.count == Size(t.root)
  }

  /** The cached heights are right; every operation keeps this, and the
      loader establishes it. */
  ghost predicate HeightsCached<T>(t: AvlTree<T>)
  {
    HeightsOk(t.root)
  }

  // ---------------------------------------------------------------------
  // Operations (avl.cpp:175-210)

  /** `insert`: `count` is incremented (modulo 2^64, as for `size_t`)
      exactly when a node was created. */
  function Insert(t: AvlTree<Key>, v: Key): (r: AvlTree<Key>)
    requires HeightsCached(t)
    ensures HeightsCached(r)
    ensures Elements(r.root) == Elements(t.root) + {v}
    ensures r.count == if Search(t.root, v) then t.count else Inc(t.count)
  {
    var (root, added) := InsertNode(t.root, v);
    AvlTree(root, if added then Inc(t.count) else t.count)
  }

  /** `remove`: `count` is decremented (modulo 2^64) exactly when a node
      was freed.  In a search tree that is exactly when `v` was stored, and
      `v` is the one value that goes; elsewhere the two-child case reports
      the deletion of the successor it promoted, whatever `v` is. */
  function Remove(t: AvlTree<Key>, v: Key): (r: AvlTree<Key>)
    requires HeightsCached(t)
    ensures HeightsCached(r)
    ensures Bst(t.root) ==> Bst(r.root) && Elements(r.root) == Elements(t.root) - {v}
    ensures Bst(t.root) ==> r.count == if v in Elements(t.root) then Dec(t.count) else t.count
  {
    var (root, removed) := DeleteNode(t.root, v);
    assert Bst(t.root) ==> Bst(root) && Elements(root) == Elements(t.root) - {v}
                           && (removed <==> v in Elements(t.root)) by {
      if Bst(t.root) {
        DeleteKeepsBst(t.root, v);
      }
    }
    AvlTree(root, if removed then Dec(t.count) else t.count)
  }

  /** `search`. */
  function Contains(t: AvlTree<Key>, v: Key): bool
  {
    Search(t.root, v)
  }

  /** In a search tree `search` finds exactly the stored values. */
  lemma ContainsIffElement(t: AvlTree<Key>, v: Key)
    requires Bst(t.root)
    ensures Contains(t, v) <==> v in Elements(t.root)
  {
    SearchFindsElements(t.root, v);
  }

  /** `clear`: frees every node and zeroes `count`. */
  function Clear<T>(t: AvlTree<T>): (r: AvlTree<T>)
    ensures Elements(r.root) == {} && r.count == 0
  {
    AvlTree(Nil, 0)
  }

  /** `size`: the stored count, which the loader trusts. */
  function SizeOf<T>(t: AvlTree<T>): (n: usize)
    ensures n == t.count
  {
    t.count
  }

  /** In a valid tree `size` is the number of distinct stored values. */
  lemma SizeCountsValues(t: AvlTree<Key>)
    requires Valid(t)
    ensures SizeOf(t) == |Elements(t.root)|
  {
    BstSizeIsCardinality(t.root);
  }

  /** `empty`: tests the root, not the count. */
  function IsEmpty<T>(t: AvlTree<T>): (b: bool)
    ensures b <==> Elements(t.root) == {}
  {
    assert t.root.Node? ==> t.root.value in Elements(t.root);
    t.root.Nil?
  }

  /** `height`: the root's cached height, which is the length of the
      longest root-to-leaf path. */
  function HeightOf<T>(t: AvlTree<T>): (h: nat)
    requires HeightsCached(t)
    ensures h == Depth(t.root)
  {
    CachedHeightIsDepth(t.root);
    Height(t.root)
  }

  // ---------------------------------------------------------------------
  // Properties of the operations

  /** The default constructor gives a valid, empty tree. */
  lemma EmptyValid()
    ensures Valid(Empty) && IsEmpty(Empty) && SizeOf(Empty) == 0 && HeightOf(Empty) == 0
  {
  }

  /** Insert keeps the whole invariant (while `count` has not reached the
      top of `size_t`), adds exactly `v`, and grows `count` by one exactly
      for a new value. */
  lemma InsertValid(t: AvlTree<Key>, v: Key)
    requires Valid(t) && t.count + 1 < TWO_64
    ensures Valid(Insert(t, v))
    ensures Elements(Insert(t, v).root) == Elements(t.root) + {v}
    ensures Contains(Insert(t, v), v)
    ensures SizeOf(Insert(t, v)) == SizeOf(t) + (if v in Elements(t.root) then 0 else 1)
  {
    var (root, added) := InsertNode(t.root, v);
    InsertKeepsAvl(t.root, v);
    SearchFindsElements(t.root, v);
    SearchFindsElements(root, v);
    var r := Insert(t, v);
    assert r.root == root && r.count == t.count + (if added then 1 else 0);
  }

  /** Remove keeps the whole invariant, deletes exactly `v`, and shrinks
      `count` by one exactly when `v` was present. */
  lemma RemoveValid(t: AvlTree<Key>, v: Key)
    requires Valid(t)
    ensures Valid(Remove(t, v))
    ensures Elements(Remove(t, v).root) == Elements(t.root) - {v}
    ensures SizeOf(Remove(t, v)) == SizeOf(t) - (if v in Elements(t.root) then 1 else 0)
  {
    var (root, removed) := DeleteNode(t.root, v);
    DeleteKeepsBst(t.root, v);
    DeleteKeepsBalance(t.root, v);
    assert removed ==> t.root.Node?;
    var r := Remove(t, v);
    assert r.root == root && r.count == t.count - (if removed then 1 else 0);
  }

  /** Inserting a value that is already there leaves the tree, and so its
      elements and count, exactly as it was. */
  lemma InsertDuplicateUnchanged(t: AvlTree<Key>, v: Key)
    requires Valid(t) && v in Elements(t.root)
    ensures Insert(t, v) == t
  {
    SearchFindsElements(t.root, v);
    InsertPresentIdle(t.root, v);
  }

  /** Removing an absent value (from the empty tree too) leaves the tree
      exactly as it was. */
  lemma RemoveAbsentUnchanged(t: AvlTree<Key>, v: Key)
    requires Valid(t) && v !in Elements(t.root)
    ensures Remove(t, v) == t
  {
    SearchFindsElements(t.root, v);
    DeleteAbsentIdle(t.root, v);
  }

  /** After `clear` the tree is empty with size and height 0, and a second
      `clear` changes nothing. */
  lemma ClearEmpties(t: AvlTree<Key>)
    ensures Valid(Clear(t)) && IsEmpty(Clear(t)) && SizeOf(Clear(t)) == 0 && HeightOf(Clear(t)) == 0
    ensures Clear(Clear(t)) == Clear(t)
  {
  }

  /** For a valid tree, `empty()` (which tests the root) and `size() == 0`
      (which tests the count) agree. */
  lemma EmptyIffSizeZero(t: AvlTree<Key>)
    requires Valid(t)
    ensures IsEmpty(t) <==> SizeOf(t) == 0
  {
  }

  /** The in-order traversal of a valid tree is strictly ascending and has
      `count` values. */
  lemma ValidInorderAscending(t: AvlTree<Key>)
    requires Valid(t)
    ensures StrictlyAscending(Inorder(t.root))
    ensures |Inorder(t.root)| == SizeOf(t)
  {
    BstIffAscending(t.root);
    SizeIsInorderLength(t.root);
  }

  // ---------------------------------------------------------------------
  // Moves (trees.h:40-57).  Copying is deleted, so a tree value is owned
  // by exactly one object; a move hands the value over and leaves the
  // source as the empty tree.

  /** The move constructor: returns the new tree and the moved-from
      source. */
  function MoveConstruct<T>(src: AvlTree<T>): (r: (AvlTree<T>, AvlTree<T>))
    ensures r.0.root == src.root && r.0.count == src.count
    ensures r.1.root.Nil? && r.1.count == 0
  {
    (src, AvlTree(Nil, 0))
  }

  /** Move assignment `dst = std::move(src)`, returning the new destination
      and source.  `same` says the two names denote one object; then
      nothing happens.  Otherwise the destination's old nodes are freed
      (dropped here), it takes over the source's root and count, and the
      source is left empty. */
  function MoveAssign<T>(dst: AvlTree<T>, src: AvlTree<T>, same: bool): (r: (AvlTree<T>, AvlTree<T>))
    ensures same ==> r == (dst, src)
    ensures !same ==> r.0 == src && r.1.root.Nil? && r.1.count == 0
  {
    if same then (dst, src) else (src, AvlTree(Nil, 0))
  }

  /** After either move the destination is valid when the source was, and
      the moved-from source is a valid empty tree. */
  lemma MovesKeepValid(dst: AvlTree<Key>, src: AvlTree<Key>)
    requires Valid(src)
    ensures Valid(MoveConstruct(src).0) && Valid(MoveConstruct(src).1)
    ensures Elements(MoveConstruct(src).0.root) == Elements(src.root)
    ensures Valid(MoveAssign(dst, src, false).0) && Valid(MoveAssign(dst, src, false).1)
    ensures IsEmpty(MoveAssign(dst, src, false).1) && SizeOf(MoveAssign(dst, src, false).1) == 0
  {
  }

  // ---------------------------------------------------------------------
  // Structural codec (avl.cpp:243-363)

  /** The element decoder never produces more input than it was given. */
  ghost predicate Shrinks<T>(dec: seq<byte> -> Option<(T, seq<byte>)>)
  {
    forall s :: dec(s).Some? ==> |dec(s).value.1| <= |s|
  }

  /** The element decoder reads back what the encoder wrote and leaves the
      rest of the stream alone. */
  ghost predicate Inverse<T(!new)>(enc: T -> seq<byte>, dec: seq<byte> -> Option<(T, seq<byte>)>)
  {
    forall v, rest :: dec(enc(v) + rest) == Some((v, rest))
  }

  /** `saveBinaryNode`: pre-order, a 0 byte for an empty subtree and a 1
      byte followed by the value and both subtrees for a node.  Heights
      are not written. */
  function EncodeNode<T>(enc: T -> seq<byte>, t: Tree<T>): (r: seq<byte>)
    ensures |r| >= 1 && (r[0] == 0 <==> t.Nil?)
  {
    if t.Nil? then [0]
    else [1] + enc(t.value) + EncodeNode(enc, t.left) + EncodeNode(enc, t.right)
  }

  /** `loadBinaryNode`: a 0 marker is an empty subtree and any other
      marker a node; the node's height is recomputed from its children
      with `updateHeight`.  `None` means the stream ran out, where the C++
      reader goes on with indeterminate bytes. */
  function DecodeNode<T>(dec: seq<byte> -> Option<(T, seq<byte>)>, s: seq<byte>): (r: Option<(Tree<T>, seq<byte>)>)
    requires Shrinks(dec)
    ensures r.Some? ==> |r.value.1| < |s| && HeightsOk(r.value.0)
    decreases |s|
  {
    if |s| == 0 then None
    else if s[0] == 0 then Some((Nil, s[1..]))
    else
      match dec(s[1..])
      case None => None
      case Some((v, s1)) =>
        match DecodeNode(dec, s1)
        case None => None
        case Some((l, s2)) =>
          match DecodeNode(dec, s2)
          case None => None
          case Some((r, s3)) => Some((UpdateHeight(Node(v, 1, l, r)), s3))
  }

  /** The same tree with every cached height recomputed bottom-up. */
  function Reheight<T>(t: Tree<T>): (r: Tree<T>)
    ensures HeightsOk(r) && Inorder(r) == Inorder(t) && Elements(r) == Elements(t)
  {
    if t.Nil? then Nil
    else UpdateHeight(Node(t.value, 1, Reheight(t.left), Reheight(t.right)))
  }

  /** Recomputing correct heights changes nothing. */
  lemma {:induction false} ReheightIdle<T>(t: Tree<T>)
    requires HeightsOk(t)
    ensures Reheight(t) == t
  {
    if t.Node? {
      ReheightIdle(t.left);
      ReheightIdle(t.right);
    }
  }

  /** Decoding an encoded tree rebuilds its shape and values with freshly
      computed heights, and leaves the rest of the stream. */
  lemma {:induction false} NodeRoundTrip<T(!new)>(enc: T -> seq<byte>, dec: seq<byte> -> Option<(T, seq<byte>)>,
                                            t: Tree<T>, rest: seq<byte>)
    requires Shrinks(dec) && Inverse(enc, dec)
    ensures DecodeNode(dec, EncodeNode(enc, t) + rest) == Some((Reheight(t), rest))
  {
    if t.Node? {
      var el, er := EncodeNode(enc, t.left), EncodeNode(enc, t.right);
      var s1 := el + (er + rest);
      var s := EncodeNode(enc, t) + rest;
      assert s == [1] + (enc(t.value) + s1);
      assert s[0] == 1 && s[1..] == enc(t.value) + s1;
      assert dec(s[1..]) == Some((t.value, s1));
      NodeRoundTrip(enc, dec, t.left, er + rest);
      NodeRoundTrip(enc, dec, t.right, rest);
    }
  }

  /** A tree with correct heights comes back exactly. */
  lemma NodeRoundTripExact<T(!new)>(enc: T -> seq<byte>, dec: seq<byte> -> Option<(T, seq<byte>)>,
                              t: Tree<T>, rest: seq<byte>)
    requires Shrinks(dec) && Inverse(enc, dec) && HeightsOk(t)
    ensures DecodeNode(dec, EncodeNode(enc, t) + rest) == Some((t, rest))
  {
    NodeRoundTrip(enc, dec, t, rest);
    ReheightIdle(t);
  }

  /** Any nonzero marker byte is read as a node, not only the 1 the
      encoder writes. */
  lemma AnyNonzeroMarkerIsNode<T>(dec: seq<byte> -> Option<(T, seq<byte>)>, m: byte, v: T, s1: seq<byte>)
    requires Shrinks(dec) && m != 0
    requires dec(s1) == Some((v, [0, 0]))
    ensures DecodeNode(dec, [m] + s1) == Some((Node(v, 1, Nil, Nil), []))
  {
    assert ([m] + s1)[1..] == s1;
    assert DecodeNode(dec, [0, 0]) == Some((Nil, [0]));
    assert DecodeNode(dec, [0]) == Some((Nil, []));
  }

  /** `saveToBinary`: the count as a 32-bit size, then the nodes. */
  function Save<T>(enc: T -> seq<byte>, t: AvlTree<T>): (r: seq<byte>)
    ensures |r| >= 4 && r[..4] == EncodeSize(t.count) && r[4..] == EncodeNode(enc, t.root)
  {
    EncodeSize(t.count) + EncodeNode(enc, t.root)
  }

  /** `loadFromBinary`: clears the tree, then sets `count` to the stored
      number as it is and loads the nodes.  The count is not checked
      against the nodes and the tree is not rebalanced. */
  function Load<T>(dec: seq<byte> -> Option<(T, seq<byte>)>, s: seq<byte>): (r: Option<(AvlTree<T>, seq<byte>)>)
    requires Shrinks(dec)
    ensures r.Some? ==> HeightsCached(r.value.0)
    ensures r.Some? ==> |s| >= 4 && r.value.0.count == DecodeU32(s).value.0
  {
    match DecodeSize(s)
    case None => None
    case Some((n, s1)) =>
      match DecodeNode(dec, s1)
      case None => None
      case Some((root, s2)) => Some((AvlTree(root, n), s2))
  }

  /** Saving then loading a tree whose count fits in 32 bits gives it back
      exactly: same shape, values, heights and count. */
  lemma SaveLoadRoundTrip<T(!new)>(enc: T -> seq<byte>, dec: seq<byte> -> Option<(T, seq<byte>)>,
                             t: AvlTree<T>, rest: seq<byte>)
    requires Shrinks(dec) && Inverse(enc, dec)
    requires HeightsCached(t) && t.count < TWO_32
    ensures Load(dec, Save(enc, t) + rest) == Some((t, rest))
  {
    var body := EncodeNode(enc, t.root);
    assert Save(enc, t) + rest == EncodeSize(t.count) + (body + rest);
    SizeRoundTrip(t.count, body + rest);
    NodeRoundTripExact(enc, dec, t.root, rest);
  }

  /** A larger count comes back reduced modulo 2^32. */
  lemma SaveTruncatesCount<T(!new)>(enc: T -> seq<byte>, dec: seq<byte> -> Option<(T, seq<byte>)>,
                              t: AvlTree<T>, rest: seq<byte>)
    requires Shrinks(dec) && Inverse(enc, dec) && HeightsCached(t)
    ensures Load(dec, Save(enc, t) + rest) == Some((AvlTree(t.root, t.count % TWO_32), rest))
  {
    var body := EncodeNode(enc, t.root);
    assert Save(enc, t) + rest == EncodeSize(t.count) + (body + rest);
    SizeRoundTrip(t.count, body + rest);
    NodeRoundTripExact(enc, dec, t.root, rest);
  }

  /** The stored count is trusted: a stream announcing five values but
      holding the empty tree loads as an empty root with `size()` 5. */
  lemma LoadTrustsCount<T>(dec: seq<byte> -> Option<(T, seq<byte>)>)
    requires Shrinks(dec)
    ensures Load(dec, [5, 0, 0, 0, 0]) == Some((AvlTree(Nil, 5), []))
    ensures !Valid(AvlTree(Nil, 5))
  {
    assert DecodeSize([5, 0, 0, 0, 0]) == Some((5, [0]));
  }

  // ---------------------------------------------------------------------
  // The two element codecs

  /** The raw `sizeof(int)` copy of a 32-bit value (little-endian). */
  function EncodeKey(v: Key): (r: seq<byte>)
    ensures |r| == 4
  {
    EncodeI32(v)
  }

  function DecodeKey(s: seq<byte>): (r: Option<(Key, seq<byte>)>)
    ensures r.Some? <==> |s| >= 4
    ensures r.Some? ==> r.value.1 == s[4..]
  {
    DecodeI32(s)
  }

  lemma KeyCodecInverse()
    ensures Shrinks(DecodeKey) && Inverse(EncodeKey, DecodeKey)
  {
    forall v: Key, rest ensures DecodeKey(EncodeKey(v) + rest) == Some((v, rest)) {
      I32RoundTrip(v, rest);
    }
  }

  /** A `std::string` element whose length fits the 32-bit prefix. */
  type Text = s: seq<byte> | |s| < TWO_32

  function EncodeText(v: Text): (r: seq<byte>)
    ensures |r| == 4 + |v|
  {
    EncodeString(v)
  }

  function DecodeText(s: seq<byte>): (r: Option<(Text, seq<byte>)>)
    ensures r.Some? ==> |r.value.1| < |s|
  {
    match DecodeString(s)
    case None => None
    case Some((v, rest)) => Some((v, rest))
  }

  lemma TextCodecInverse()
    ensures Shrinks(DecodeText) && Inverse(EncodeText, DecodeText)
  {
    forall v: Text, rest ensures DecodeText(EncodeText(v) + rest) == Some((v, rest)) {
      StringRoundTrip(v, rest);
    }
  }

  /** `AVLTree<int>`: a valid tree saved and loaded comes back exactly. */
  lemma IntTreeRoundTrip(t: AvlTree<Key>, rest: seq<byte>)
    requires Valid(t) && t.count < TWO_32
    ensures Load(DecodeKey, Save(EncodeKey, t) + rest) == Some((t, rest))
  {
    KeyCodecInverse();
    SaveLoadRoundTrip(EncodeKey, DecodeKey, t, rest);
  }

  /** `AVLTree<std::string>`: the same for trees of strings. */
  lemma TextTreeRoundTrip(t: AvlTree<Text>, rest: seq<byte>)
    requires HeightsCached(t) && t.count < TWO_32
    ensures Load(DecodeText, Save(EncodeText, t) + rest) == Some((t, rest))
  {
    TextCodecInverse();
    SaveLoadRoundTrip(EncodeText, DecodeText, t, rest);
  }
}
