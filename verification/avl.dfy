/** The AVL tree of `avl.cpp` / `trees.h`.

    The pointer graph of `AVLTree<T>::Node` is modelled as an immutable
    datatype: every private helper that returns a new subtree root
    (`rotateRight`, `rebalance`, `insertNode`, `deleteNode`, ...) becomes a
    function from the old subtree to the new one.  Each node carries its
    cached `height` exactly as the C++ node does, so that the helpers read
    the cached value (`getHeight`) and the proofs relate it to the real
    height.

    The ordered operations are modelled for `int` values (a C++ `int`, so
    a 32-bit `Key`), the instantiation the repository's tests use; the
    shape-level helpers are generic. */
module Avl {
  import opened Bytes

  type Key = i32

  /** A node's cached `height` is a C++ `int`; every height the code stores
      is `1 + max` of two non-negative heights, so it is never negative and
      the model types it as `nat`. */
  datatype Tree<T> = Nil | Node(value: T, height: nat, left: Tree<T>, right: Tree<T>)

  function Max(a: nat, b: nat): nat { if a >= b then a else b }

  // ---------------------------------------------------------------------
  // Views of a tree

  /** `getHeight`: the cached height, 0 for an empty subtree. */
  function Height<T>(t: Tree<T>): nat
  {
    if t.Nil? then 0 else t.height
  }

  /** The real height of a tree, independent of any cached field. */
  function Depth<T>(t: Tree<T>): nat
  {
    if t.Nil? then 0 else 1 + Max(Depth(t.left), Depth(t.right))
  }

  /** In-order sequence of values. */
  function Inorder<T>(t: Tree<T>): seq<T>
  {
    if t.Nil? then [] else Inorder(t.left) + [t.value] + Inorder(t.right)
  }

  function Elements<T>(t: Tree<T>): set<T>
  {
    if t.Nil? then {} else Elements(t.left) + {t.value} + Elements(t.right)
  }

  /** Number of nodes. */
  function Size<T>(t: Tree<T>): nat
  {
    if t.Nil? then 0 else Size(t.left) + 1 + Size(t.right)
  }

  /** The height equation holds at every node. */
  ghost predicate HeightsOk<T>(t: Tree<T>)
  {
    t.Nil? || (t.height == 1 + Max(Height(t.left), Height(t.right))
               && HeightsOk(t.left) && HeightsOk(t.right))
  }

  /** Every node's balance factor is -1, 0 or 1. */
  ghost predicate Balanced<T>(t: Tree<T>)
  {
    t.Nil? || (-1 <= Height(t.left) - Height(t.right) <= 1
               && Balanced(t.left) && Balanced(t.right))
  }

  /** Binary-search-tree order: everything left is smaller, everything
      right is larger (so no value is stored twice). */
  ghost predicate Bst(t: Tree<Key>)
  {
    t.Nil? ||
      ((forall x | x in Elements(t.left) :: x < t.value)
       && (forall x | x in Elements(t.right) :: t.value < x)
       && Bst(t.left) && Bst(t.right))
  }

  ghost predicate StrictlyAscending(s: seq<Key>)
  {
    forall i, j | 0 <= i < j < |s| :: s[i] < s[j]
  }

  ghost predicate IsAvl(t: Tree<Key>)
  {
    HeightsOk(t) && Balanced(t) && Bst(t)
  }

  // ---------------------------------------------------------------------
  // Facts about the views

  lemma {:induction false} CachedHeightIsDepth<T>(t: Tree<T>)
    requires HeightsOk(t)
    ensures Height(t) == Depth(t)
  {
    if t.Node? {
      CachedHeightIsDepth(t.left);
      CachedHeightIsDepth(t.right);
    }
  }

  lemma {:induction false} SizeIsInorderLength<T>(t: Tree<T>)
    ensures Size(t) == |Inorder(t)|
  {
    if t.Node? {
      SizeIsInorderLength(t.left);
      SizeIsInorderLength(t.right);
    }
  }

  lemma {:induction false} ElementsAreInorderValues<T>(t: Tree<T>)
    ensures forall x :: x in Elements(t) <==> x in Inorder(t)
  {
    if t.Node? {
      ElementsAreInorderValues(t.left);
      ElementsAreInorderValues(t.right);
    }
  }

  /** The search-tree order is exactly an ascending in-order traversal. */
  lemma {:induction false} BstIffAscending(t: Tree<Key>)
    ensures Bst(t) <==> StrictlyAscending(Inorder(t))
  {
    if t.Node? {
      BstIffAscending(t.left);
      BstIffAscending(t.right);
      ElementsAreInorderValues(t.left);
      ElementsAreInorderValues(t.right);
      var l, r := Inorder(t.left), Inorder(t.right);
      var s := Inorder(t);
      assert s == l + [t.value] + r;
      if Bst(t) {
        forall i, j | 0 <= i < j < |s|
          ensures s[i] < s[j]
        {
          if j < |l| {
          } else if i < |l| {
            assert s[i] in l;
            if j > |l| { assert s[j] == r[j - |l| - 1]; assert s[j] in r; }
          } else if i == |l| {
            assert s[j] == r[j - |l| - 1];
            assert s[j] in r;
          } else {
            assert s[i] == r[i - |l| - 1] && s[j] == r[j - |l| - 1];
          }
        }
      }
      if StrictlyAscending(s) {
        forall x | x in Elements(t.left) ensures x < t.value {
          var i :| 0 <= i < |l| && l[i] == x;
          assert s[i] == x && s[|l|] == t.value;
        }
        forall x | x in Elements(t.right) ensures t.value < x {
          var i :| 0 <= i < |r| && r[i] == x;
          assert s[|l| + 1 + i] == x && s[|l|] == t.value;
        }
        forall i, j | 0 <= i < j < |l| ensures l[i] < l[j] {
          assert s[i] == l[i] && s[j] == l[j];
        }
        forall i, j | 0 <= i < j < |r| ensures r[i] < r[j] {
          assert s[|l| + 1 + i] == r[i] && s[|l| + 1 + j] == r[j];
        }
      }
    }
  }

  lemma {:induction false} BstSizeIsCardinality(t: Tree<Key>)
    requires Bst(t)
    ensures Size(t) == |Elements(t)|
  {
    if t.Node? {
      BstSizeIsCardinality(t.left);
      BstSizeIsCardinality(t.right);
      var l, r := Elements(t.left), Elements(t.right);
      assert l !! r by {
        forall x | x in l ensures x !in r { }
      }
      assert t.value !in l + r;
      assert |l + r| == |l| + |r|;
      assert |l + r + {t.value}| == |l + r| + 1;
      assert Elements(t) == l + r + {t.value};
    }
  }

  // ---------------------------------------------------------------------
  // Height maintenance and rotations (avl.cpp:22-64)

  function Balance<T>(t: Tree<T>): int
  {
    if t.Nil? then 0 else Height(t.left) - Height(t.right)
  }

  /** `updateHeight`: recompute the cached height of one node from its
      children's cached heights; an empty subtree is left alone. */
  function UpdateHeight<T>(t: Tree<T>): (r: Tree<T>)
    ensures r.Nil? <==> t.Nil?
    ensures t.Node? ==> r.value == t.value && r.left == t.left && r.right == t.right
    ensures t.Node? ==> Height(r) == 1 + Max(Height(t.left), Height(t.right))
    ensures t.Node? && HeightsOk(t.left) && HeightsOk(t.right) ==> HeightsOk(r)
    ensures HeightsOk(t) ==> r == t
  {
    if t.Nil? then t else t.(height := 1 + Max(Height(t.left), Height(t.right)))
  }

  /** `rotateRight(y)`: the left child `x` becomes the subtree root. */
  function RotateRight<T>(y: Tree<T>): (r: Tree<T>)
    requires y.Node? && y.left.Node?
    ensures r.Node? && r.right.Node?
    ensures Inorder(r) == Inorder(y)
    ensures Elements(r) == Elements(y)
    ensures Size(r) == Size(y)
    ensures r.value == y.left.value && r.left == y.left.left
    ensures r.right.value == y.value && r.right.left == y.left.right && r.right.right == y.right
    ensures HeightsOk(y.left.left) && HeightsOk(y.left.right) && HeightsOk(y.right) ==> HeightsOk(r)
  {
    var x := y.left;
    var y' := UpdateHeight(y.(left := x.right));
    UpdateHeight(x.(right := y'))
  }

  /** `rotateLeft(x)`: the right child `y` becomes the subtree root. */
  function RotateLeft<T>(x: Tree<T>): (r: Tree<T>)
    requires x.Node? && x.right.Node?
    ensures r.Node? && r.left.Node?
    ensures Inorder(r) == Inorder(x)
    ensures Elements(r) == Elements(x)
    ensures Size(r) == Size(x)
    ensures r.value == x.right.value && r.right == x.right.right
    ensures r.left.value == x.value && r.left.left == x.left && r.left.right == x.right.left
    ensures HeightsOk(x.left) && HeightsOk(x.right.left) && HeightsOk(x.right.right) ==> HeightsOk(r)
  {
    var y := x.right;
    var x' := UpdateHeight(x.(right := y.left));
    UpdateHeight(y.(left := x'))
  }

  lemma RotateRightKeepsBst(y: Tree<Key>)
    requires y.Node? && y.left.Node? && Bst(y)
    ensures Bst(RotateRight(y))
  {
    var x := y.left;
    var a, b, c := x.left, x.right, y.right;
    var r := RotateRight(y);
    assert x.value in Elements(x);
    var upper := r.right;
    assert Elements(upper) == Elements(b) + {y.value} + Elements(c);
    forall e | e in Elements(b) ensures e < y.value {
      assert e in Elements(x);
    }
    assert Bst(upper);
    forall e | e in Elements(upper) ensures x.value < e {
      if e in Elements(c) { assert y.value < e; }
    }
  }

  lemma RotateLeftKeepsBst(x: Tree<Key>)
    requires x.Node? && x.right.Node? && Bst(x)
    ensures Bst(RotateLeft(x))
  {
    var y := x.right;
    var a, b, c := x.left, y.left, y.right;
    var r := RotateLeft(x);
    assert y.value in Elements(y);
    var lower := r.left;
    assert Elements(lower) == Elements(a) + {x.value} + Elements(b);
    forall e | e in Elements(b) ensures x.value < e {
      assert e in Elements(y);
    }
    assert Bst(lower);
    forall e | e in Elements(lower) ensures e < y.value {
      if e in Elements(a) { assert e < x.value; }
    }
  }

  /** `rebalance`: single or double rotation when the balance factor of the
      node has left {-1, 0, 1}. */
  function Rebalance<T>(t: Tree<T>): (r: Tree<T>)
    requires HeightsOk(t)
    ensures HeightsOk(r)
    ensures Inorder(r) == Inorder(t)
    ensures Elements(r) == Elements(t)
    ensures Size(r) == Size(t)
    ensures -1 <= Balance(t) <= 1 ==> r == t
  {
    if t.Nil? then t
    else if Balance(t) > 1 then
      assert HeightsOk(t.left);
      var l := if Balance(t.left) < 0 then (assert HeightsOk(t.left.right); RotateLeft(t.left)) else t.left;
      assert HeightsOk(l) && HeightsOk(l.left) && HeightsOk(l.right);
      RotateRight(t.(left := l))
    else if Balance(t) < -1 then
      assert HeightsOk(t.right);
      var r := if Balance(t.right) > 0 then (assert HeightsOk(t.right.left); RotateRight(t.right)) else t.right;
      assert HeightsOk(r) && HeightsOk(r.left) && HeightsOk(r.right);
      RotateLeft(t.(right := r))
    else t
  }

  lemma RebalanceKeepsBst(t: Tree<Key>)
    requires HeightsOk(t) && Bst(t)
    ensures Bst(Rebalance(t))
  {
    if t.Node? && Balance(t) > 1 {
      var l := if Balance(t.left) < 0 then RotateLeft(t.left) else t.left;
      if Balance(t.left) < 0 { RotateLeftKeepsBst(t.left); }
      assert Elements(l) == Elements(t.left);
      RotateRightKeepsBst(t.(left := l));
    } else if t.Node? && Balance(t) < -1 {
      var r := if Balance(t.right) > 0 then RotateRight(t.right) else t.right;
      if Balance(t.right) > 0 { RotateRightKeepsBst(t.right); }
      assert Elements(r) == Elements(t.right);
      RotateLeftKeepsBst(t.(right := r));
    }
  }

  /** The left-heavy case of `rebalance`: a single right rotation when the
      left child leans left or is level, a left-right double rotation when
      it leans right.  Either way the result is balanced and its height is
      the left child's height or one more. */
  lemma RebalanceLeftHeavy<T>(t: Tree<T>)
    requires t.Node? && HeightsOk(t)
    requires Balanced(t.left) && Balanced(t.right)
    requires Balance(t) == 2
    ensures Balanced(Rebalance(t))
    ensures Height(t.left) <= Height(Rebalance(t)) <= Height(t.left) + 1
  {
    var x, c := t.left, t.right;
    assert HeightsOk(x) && x.Node?;
    var a, b := x.left, x.right;
    if Balance(x) < 0 {
      LeftRightCase(t);
    } else {
      var r := RotateRight(t);
      assert r == Rebalance(t);
      var upper := r.right;
      assert HeightsOk(r) && HeightsOk(upper);
      assert Height(upper) == 1 + Max(Height(b), Height(c));
      assert Balanced(upper);
    }
  }

  /** The left-right double rotation: the grandchild `b` becomes the root
      over two subtrees of equal height. */
  lemma LeftRightCase<T>(t: Tree<T>)
    requires t.Node? && HeightsOk(t)
    requires Balanced(t.left) && Balanced(t.right)
    requires Balance(t) == 2 && Balance(t.left) < 0
    ensures Balanced(Rebalance(t))
    ensures Height(Rebalance(t)) == Height(t.left)
  {
    var x, c := t.left, t.right;
    assert HeightsOk(x) && x.Node?;
    var a, b := x.left, x.right;
    assert HeightsOk(b) && b.Node? && Balanced(b);
    var b1, b2 := b.left, b.right;
    assert Height(c) == Height(a) && Height(b) == Height(a) + 1;
    var l := RotateLeft(x);
    var r := RotateRight(t.(left := l));
    assert r == Rebalance(t);
    var lower, upper := r.left, r.right;
    assert lower.left == a && lower.right == b1 && upper.left == b2 && upper.right == c;
    assert HeightsOk(r) && HeightsOk(lower) && HeightsOk(upper);
    assert Height(lower) == Height(a) + 1 && Height(upper) == Height(a) + 1;
    assert Balanced(lower) && Balanced(upper);
  }

  /** The right-heavy mirror image of `RebalanceLeftHeavy`. */
  lemma RebalanceRightHeavy<T>(t: Tree<T>)
    requires t.Node? && HeightsOk(t)
    requires Balanced(t.left) && Balanced(t.right)
    requires Balance(t) == -2
    ensures Balanced(Rebalance(t))
    ensures Height(t.right) <= Height(Rebalance(t)) <= Height(t.right) + 1
  {
    var a, y := t.left, t.right;
    assert HeightsOk(y) && y.Node?;
    var b, c := y.left, y.right;
    if Balance(y) > 0 {
      RightLeftCase(t);
    } else {
      var r := RotateLeft(t);
      assert r == Rebalance(t);
      var lower := r.left;
      assert HeightsOk(r) && HeightsOk(lower);
      assert Height(lower) == 1 + Max(Height(a), Height(b));
      assert Balanced(lower);
    }
  }

  /** The right-left double rotation, mirror image of `LeftRightCase`. */
  lemma RightLeftCase<T>(t: Tree<T>)
    requires t.Node? && HeightsOk(t)
    requires Balanced(t.left) && Balanced(t.right)
    requires Balance(t) == -2 && Balance(t.right) > 0
    ensures Balanced(Rebalance(t))
    ensures Height(Rebalance(t)) == Height(t.right)
  {
    var a, y := t.left, t.right;
    assert HeightsOk(y) && y.Node?;
    var b, c := y.left, y.right;
    assert HeightsOk(b) && b.Node? && Balanced(b);
    var b1, b2 := b.left, b.right;
    assert Height(a) == Height(c) && Height(b) == Height(c) + 1;
    var rr := RotateRight(y);
    var r := RotateLeft(t.(right := rr));
    assert r == Rebalance(t);
    var lower, upper := r.left, r.right;
    assert lower.left == a && lower.right == b1 && upper.left == b2 && upper.right == c;
    assert HeightsOk(r) && HeightsOk(lower) && HeightsOk(upper);
    assert Height(lower) == Height(c) + 1 && Height(upper) == Height(c) + 1;
    assert Balanced(lower) && Balanced(upper);
  }

  /** Rebalancing a node whose children are AVL trees with heights at most
      two apart yields an AVL tree whose height is the taller child's
      height or one more; a node already in balance keeps its height. */
  lemma RebalanceRestoresBalance<T>(t: Tree<T>)
    requires t.Node? && HeightsOk(t)
    requires Balanced(t.left) && Balanced(t.right)
    requires -2 <= Balance(t) <= 2
    ensures Balanced(Rebalance(t))
    ensures Max(Height(t.left), Height(t.right)) <= Height(Rebalance(t))
    ensures Height(Rebalance(t)) <= Max(Height(t.left), Height(t.right)) + 1
    ensures -1 <= Balance(t) <= 1 ==> Height(Rebalance(t)) == Height(t)
  {
    if Balance(t) == 2 {
      RebalanceLeftHeavy(t);
    } else if Balance(t) == -2 {
      RebalanceRightHeavy(t);
    }
  }

  // ---------------------------------------------------------------------
  // Search, insert, delete (avl.cpp:89-157)

  /** `searchNode`: descend by comparison. */
  function Search(t: Tree<Key>, v: Key): (b: bool)
    ensures b ==> v in Elements(t)
  {
    if t.Nil? then false
    else if v == t.value then true
    else if v < t.value then Search(t.left, v)
    else Search(t.right, v)
  }

  /** In a search tree the descent finds exactly the stored values. */
  lemma {:induction false} SearchFindsElements(t: Tree<Key>, v: Key)
    requires Bst(t)
    ensures Search(t, v) <==> v in Elements(t)
  {
    if t.Node? && v != t.value {
      if v < t.value {
        SearchFindsElements(t.left, v);
      } else {
        SearchFindsElements(t.right, v);
      }
    }
  }

  /** `insertNode`: returns the new subtree root and whether a node was
      created (the C++ code increments `count` exactly then). */
  function InsertNode(t: Tree<Key>, v: Key): (r: (Tree<Key>, bool))
    requires HeightsOk(t)
    ensures HeightsOk(r.0)
    ensures Elements(r.0) == Elements(t) + {v}
    ensures r.1 <==> !Search(t, v)
    ensures Size(r.0) == Size(t) + (if r.1 then 1 else 0)
  {
    if t.Nil? then (Node(v, 1, Nil, Nil), true)
    else if v < t.value then
      var (l, added) := InsertNode(t.left, v);
      (Rebalance(UpdateHeight(t.(left := l))), added)
    else if v > t.value then
      var (r, added) := InsertNode(t.right, v);
      (Rebalance(UpdateHeight(t.(right := r))), added)
    else (t, false)
  }

  /** Inserting into a search tree keeps the search order. */
  lemma {:induction false} InsertKeepsBst(t: Tree<Key>, v: Key)
    requires HeightsOk(t) && Bst(t)
    ensures Bst(InsertNode(t, v).0)
  {
    if t.Node? && v < t.value {
      InsertKeepsBst(t.left, v);
      var n := UpdateHeight(t.(left := InsertNode(t.left, v).0));
      assert Bst(n);
      RebalanceKeepsBst(n);
    } else if t.Node? && v > t.value {
      InsertKeepsBst(t.right, v);
      var n := UpdateHeight(t.(right := InsertNode(t.right, v).0));
      assert Bst(n);
      RebalanceKeepsBst(n);
    }
  }

  /** Inserting into a balanced tree gives a balanced tree at most one
      level taller. */
  lemma {:induction false} InsertKeepsBalance(t: Tree<Key>, v: Key)
    requires HeightsOk(t) && Balanced(t)
    ensures Balanced(InsertNode(t, v).0)
    ensures Height(t) <= Height(InsertNode(t, v).0) <= Height(t) + 1
  {
    if t.Node? && v < t.value {
      InsertKeepsBalance(t.left, v);
      var n := UpdateHeight(t.(left := InsertNode(t.left, v).0));
      assert n.left == InsertNode(t.left, v).0 && n.right == t.right;
      RebalanceRestoresBalance(n);
    } else if t.Node? && v > t.value {
      InsertKeepsBalance(t.right, v);
      var n := UpdateHeight(t.(right := InsertNode(t.right, v).0));
      assert n.right == InsertNode(t.right, v).0 && n.left == t.left;
      RebalanceRestoresBalance(n);
    }
  }

  /** Inserting into an AVL tree gives an AVL tree at most one level
      taller. */
  lemma InsertKeepsAvl(t: Tree<Key>, v: Key)
    requires IsAvl(t)
    ensures IsAvl(InsertNode(t, v).0)
    ensures Height(t) <= Height(InsertNode(t, v).0) <= Height(t) + 1
  {
    InsertKeepsBst(t, v);
    InsertKeepsBalance(t, v);
  }

  /** `findMin`: the leftmost value. */
  function FindMin(t: Tree<Key>): (m: Key)
    requires t.Node?
    ensures m in Elements(t)
    ensures Bst(t) ==> forall x | x in Elements(t) :: m <= x
  {
    if t.left.Nil? then t.value else FindMin(t.left)
  }

  /** `deleteNode`: returns the new subtree root and whether a node was
      freed (the C++ code decrements `count` exactly then).  A node with two
      children takes its in-order successor's value and the successor is
      then deleted from the right subtree. */
  function DeleteNode(t: Tree<Key>, v: Key): (r: (Tree<Key>, bool))
    requires HeightsOk(t)
    ensures HeightsOk(r.0)
    ensures Size(r.0) == Size(t) - (if r.1 then 1 else 0)
    ensures r.1 ==> Search(t, v)
    decreases t
  {
    if t.Nil? then (Nil, false)
    else if v < t.value then
      var (l, removed) := DeleteNode(t.left, v);
      (Rebalance(UpdateHeight(t.(left := l))), removed)
    else if v > t.value then
      var (r, removed) := DeleteNode(t.right, v);
      (Rebalance(UpdateHeight(t.(right := r))), removed)
    else if t.left.Nil? || t.right.Nil? then
      var child := if t.left.Nil? then t.right else t.left;
      (Rebalance(UpdateHeight(child)), true)
    else
      var m := FindMin(t.right);
      var (r, removed) := DeleteNode(t.right, m);
      (Rebalance(UpdateHeight(Node(m, t.height, t.left, r))), removed)
  }

  /** In a search tree, deleting removes exactly `v`, reports whether it was
      there, and keeps the search order. */
  lemma {:induction false} DeleteKeepsBst(t: Tree<Key>, v: Key)
    requires HeightsOk(t) && Bst(t)
    ensures Bst(DeleteNode(t, v).0)
    ensures Elements(DeleteNode(t, v).0) == Elements(t) - {v}
    ensures DeleteNode(t, v).1 <==> v in Elements(t)
    decreases t, 2
  {
    if t.Nil? {
    } else if v != t.value {
      DeleteBelowKeepsBst(t, v);
    } else if t.left.Nil? || t.right.Nil? {
      var child := if t.left.Nil? then t.right else t.left;
      assert HeightsOk(child) && Bst(child) && UpdateHeight(child) == child;
      RebalanceKeepsBst(child);
      assert t.value !in Elements(child);
    } else {
      DeleteSuccessorKeepsBst(t);
    }
  }

  /** Deleting a value other than the root's: recurse into the side the
      value belongs to. */
  lemma {:induction false} DeleteBelowKeepsBst(t: Tree<Key>, v: Key)
    requires t.Node? && v != t.value
    requires HeightsOk(t) && Bst(t)
    ensures Bst(DeleteNode(t, v).0)
    ensures Elements(DeleteNode(t, v).0) == Elements(t) - {v}
    ensures DeleteNode(t, v).1 <==> v in Elements(t)
    decreases t, 1
  {
    if v < t.value {
      DeleteKeepsBst(t.left, v);
      var l := DeleteNode(t.left, v).0;
      var n := UpdateHeight(t.(left := l));
      assert Bst(n);
      RebalanceKeepsBst(n);
      assert v !in Elements(t.right);
    } else {
      DeleteKeepsBst(t.right, v);
      var r := DeleteNode(t.right, v).0;
      var n := UpdateHeight(t.(right := r));
      assert Bst(n);
      RebalanceKeepsBst(n);
      assert v !in Elements(t.left);
    }
  }

  /** The two-children case: the successor's value moves up and the
      successor leaves the right subtree. */
  lemma {:induction false} DeleteSuccessorKeepsBst(t: Tree<Key>)
    requires t.Node? && t.left.Node? && t.right.Node?
    requires HeightsOk(t) && Bst(t)
    ensures Bst(DeleteNode(t, t.value).0)
    ensures Elements(DeleteNode(t, t.value).0) == Elements(t) - {t.value}
    ensures DeleteNode(t, t.value).1
    decreases t, 0
  {
    var m := FindMin(t.right);
    DeleteKeepsBst(t.right, m);
    var r := DeleteNode(t.right, m).0;
    SuccessorNodeBst(t, m, r);
    var n := UpdateHeight(Node(m, t.height, t.left, r));
    RebalanceKeepsBst(n);
  }

  /** The node the successor's value is promoted into is a search tree
      holding every value but the deleted one. */
  lemma SuccessorNodeBst(t: Tree<Key>, m: Key, r: Tree<Key>)
    requires t.Node? && Bst(t)
    requires m in Elements(t.right) && forall x | x in Elements(t.right) :: m <= x
    requires Bst(r) && Elements(r) == Elements(t.right) - {m}
    ensures Bst(Node(m, t.height, t.left, r))
    ensures Elements(Node(m, t.height, t.left, r)) == Elements(t) - {t.value}
  {
    assert t.value < m;
    forall e | e in Elements(r) ensures m < e {
      assert e in Elements(t.right) && e != m;
    }
    assert t.value !in Elements(t.left) && t.value !in Elements(t.right);
  }

  /** A balanced node with correct heights is already rebalanced. */
  lemma RebalanceIdle<T>(t: Tree<T>)
    requires HeightsOk(t) && Balanced(t)
    ensures Rebalance(t) == t
  {
  }

  /** Deleting from an AVL tree gives an AVL tree at most one level
      shorter. */
  lemma {:induction false} DeleteKeepsBalance(t: Tree<Key>, v: Key)
    requires HeightsOk(t) && Balanced(t)
    ensures Balanced(DeleteNode(t, v).0)
    ensures Height(t) - 1 <= Height(DeleteNode(t, v).0) <= Height(t)
  {
    if t.Nil? {
    } else if v < t.value {
      DeleteKeepsBalance(t.left, v);
      RebalanceRestoresBalance(UpdateHeight(t.(left := DeleteNode(t.left, v).0)));
    } else if v > t.value {
      DeleteKeepsBalance(t.right, v);
      RebalanceRestoresBalance(UpdateHeight(t.(right := DeleteNode(t.right, v).0)));
    } else if t.left.Nil? || t.right.Nil? {
      var child := if t.left.Nil? then t.right else t.left;
      RebalanceIdle(child);
    } else {
      var m := FindMin(t.right);
      DeleteKeepsBalance(t.right, m);
      RebalanceRestoresBalance(UpdateHeight(Node(m, t.height, t.left, DeleteNode(t.right, m).0)));
    }
  }

  /** Inserting a value already in a balanced tree with correct heights
      changes nothing: every node on the search path is rebuilt from the
      same children and is already in balance. */
  lemma {:induction false} InsertPresentIdle(t: Tree<Key>, v: Key)
    requires HeightsOk(t) && Balanced(t) && Search(t, v)
    ensures InsertNode(t, v) == (t, false)
  {
    if v < t.value {
      InsertPresentIdle(t.left, v);
      assert t.(left := t.left) == t;
    } else if v > t.value {
      InsertPresentIdle(t.right, v);
      assert t.(right := t.right) == t;
    }
  }

  /** Deleting a value absent from a balanced tree with correct heights
      changes nothing (the empty tree included). */
  lemma {:induction false} DeleteAbsentIdle(t: Tree<Key>, v: Key)
    requires HeightsOk(t) && Balanced(t) && !Search(t, v)
    ensures DeleteNode(t, v) == (t, false)
  {
    if t.Node? && v < t.value {
      DeleteAbsentIdle(t.left, v);
      assert t.(left := t.left) == t;
    } else if t.Node? && v > t.value {
      DeleteAbsentIdle(t.right, v);
      assert t.(right := t.right) == t;
    }
  }

  /** On a tree whose heights are right but which is out of balance, even a
      duplicate insert rebalances the nodes on the search path: here the
      right-leaning chain 1, 2, 3 comes back rotated when 3 is inserted
      again. */
  lemma DuplicateInsertMayRotate()
    ensures var chain := Node(1, 3, Nil, Node(2, 2, Nil, Node(3, 1, Nil, Nil)));
      HeightsOk(chain) && !Balanced(chain)
      && InsertNode(chain, 3) == (Node(2, 2, Node(1, 1, Nil, Nil), Node(3, 1, Nil, Nil)), false)
  {
    var leaf3 := Node(3, 1, Nil, Nil);
    var two := Node(2, 2, Nil, leaf3);
    var chain := Node(1, 3, Nil, two);
    assert HeightsOk(leaf3) && HeightsOk(two) && HeightsOk(chain);
    assert InsertNode(leaf3, 3) == (leaf3, false);
    assert UpdateHeight(two) == two && Rebalance(two) == two;
    assert InsertNode(two, 3) == (two, false);
    assert UpdateHeight(chain) == chain && Balance(chain) == -2;
    assert Rebalance(chain) == RotateLeft(chain);
  }
}
