/** The AVL tree behind TreeMap (src/TreeMap.h, class AVLTree), as a value.

    A tree is a leaf or a node holding a key, its value and two subtrees.  The
    C++ code rewires left/right/parent pointers in place and walks back up the
    parent links calling `rebalance` on every ancestor; here the same steps are
    written bottom-up: every operation returns the rebuilt subtree, and each
    ancestor on the way back up is passed through `Rebalance`, which is what the
    upward walk does to it. */
module Avl {
  import opened Common

  datatype Tree<V> = Leaf | Node(left: Tree<V>, key: int, value: V, right: Tree<V>)

  function Max(a: int, b: int): int
  {
    if a >= b then a else b
  }

  /** `height` (TreeMap.h:390-393): the number of nodes on the longest
      downward path. */
  function Height<V>(t: Tree<V>): nat
  {
    match t
    case Leaf => 0
    case Node(l, _, _, r) => 1 + Max(Height(l), Height(r))
  }

  /** The entries stored in the tree, as a map from key to value. */
  function Contents<V>(t: Tree<V>): map<int, V>
  {
    match t
    case Leaf => map[]
    case Node(l, k, v, r) => Contents(l) + map[k := v] + Contents(r)
  }

  /** The entries in in-order (left subtree, node, right subtree): the order in
      which the iterator visits them. */
  function InOrder<V>(t: Tree<V>): seq<(int, V)>
  {
    match t
    case Leaf => []
    case Node(l, k, v, r) => InOrder(l) + [(k, v)] + InOrder(r)
  }

  /** Only the empty tree has height 0. */
  lemma HeightZeroIffEmpty<V>(t: Tree<V>)
    ensures Height(t) == 0 <==> t.Leaf?
  {
  }

  /** No downward path is longer than the number of nodes. */
  lemma {:induction false} HeightAtMostSize<V>(t: Tree<V>)
    ensures Height(t) <= |InOrder(t)|
  {
    if t.Node? {
      HeightAtMostSize(t.left);
      HeightAtMostSize(t.right);
    }
  }

  /** Binary-search-tree order: every key of the left subtree is smaller than
      the node's key, every key of the right subtree larger. */
  ghost predicate SearchTree<V>(t: Tree<V>)
  {
    match t
    case Leaf => true
    case Node(l, k, _, r) =>
      && SearchTree(l) && SearchTree(r)
      && (forall x :: x in Contents(l) ==> x < k)
      && (forall x :: x in Contents(r) ==> k < x)
  }

  /** AVL balance: at every node the subtree heights differ by at most one. */
  ghost predicate Balanced<V>(t: Tree<V>)
  {
    match t
    case Leaf => true
    case Node(l, _, _, r) =>
      -1 <= Height(l) - Height(r) <= 1 && Balanced(l) && Balanced(r)
  }

  /** The keys of a node are those of its subtrees and its own. */
  lemma NodeKeys<V>(l: Tree<V>, k: int, v: V, r: Tree<V>)
    ensures forall x :: x in Contents(Node(l, k, v, r)) <==> x in Contents(l) || x == k || x in Contents(r)
  {
  }

  /** The two shapes a single rotation converts between,
      ((a lk b) k c) and (a lk (b k c)), are search trees together. */
  lemma RightRotationKeepsOrder<V>(a: Tree<V>, lk: int, lv: V, b: Tree<V>, k: int, v: V, c: Tree<V>)
    ensures SearchTree(Node(Node(a, lk, lv, b), k, v, c)) <==> SearchTree(Node(a, lk, lv, Node(b, k, v, c)))
  {
    NodeKeys(a, lk, lv, b);
    NodeKeys(b, k, v, c);
    if SearchTree(Node(Node(a, lk, lv, b), k, v, c)) {
      assert lk in Contents(Node(a, lk, lv, b));
      assert SearchTree(Node(a, lk, lv, b));
      assert SearchTree(b);
      assert SearchTree(Node(b, k, v, c));
    }
    if SearchTree(Node(a, lk, lv, Node(b, k, v, c))) {
      assert k in Contents(Node(b, k, v, c));
      assert SearchTree(Node(b, k, v, c));
      assert SearchTree(b);
      assert SearchTree(Node(a, lk, lv, b));
    }
  }

  // ---------------------------------------------------------------------
  // Rotations (TreeMap.h:395-441)
  // ---------------------------------------------------------------------

  /** `rightRotation`: the left child becomes the root of the subtree. */
  function RotateRight<V>(t: Tree<V>): (r: Tree<V>)
    requires t.Node? && t.left.Node?
    ensures InOrder(r) == InOrder(t)
    ensures Contents(r) == Contents(t)
    ensures SearchTree(t) ==> SearchTree(r)
  {
    var Node(Node(a, lk, lv, b), k, v, c) := t;
    RightRotationKeepsOrder(a, lk, lv, b, k, v, c);
    Node(a, lk, lv, Node(b, k, v, c))
  }

  /** `leftRotation`: the right child becomes the root of the subtree. */
  function RotateLeft<V>(t: Tree<V>): (r: Tree<V>)
    requires t.Node? && t.right.Node?
    ensures InOrder(r) == InOrder(t)
    ensures Contents(r) == Contents(t)
    ensures SearchTree(t) ==> SearchTree(r)
  {
    var Node(a, k, v, Node(b, rk, rv, c)) := t;
    RightRotationKeepsOrder(a, k, v, b, rk, rv, c);
    Node(Node(a, k, v, b), rk, rv, c)
  }

  /** `leftRightRotation`: rotate the left child left, then the node right. */
  function RotateLeftRight<V>(t: Tree<V>): (r: Tree<V>)
    requires t.Node? && t.left.Node? && t.left.right.Node?
    ensures InOrder(r) == InOrder(t)
    ensures Contents(r) == Contents(t)
    ensures SearchTree(t) ==> SearchTree(r)
  {
    var l' := RotateLeft(t.left);
    NodeKeys(l', t.key, t.value, t.right);
    NodeKeys(t.left, t.key, t.value, t.right);
    RotateRight(Node(l', t.key, t.value, t.right))
  }

  /** `rightLeftRotation`: rotate the right child right, then the node left. */
  function RotateRightLeft<V>(t: Tree<V>): (r: Tree<V>)
    requires t.Node? && t.right.Node? && t.right.left.Node?
    ensures InOrder(r) == InOrder(t)
    ensures Contents(r) == Contents(t)
    ensures SearchTree(t) ==> SearchTree(r)
  {
    var r' := RotateRight(t.right);
    NodeKeys(t.left, t.key, t.value, r');
    NodeKeys(t.left, t.key, t.value, t.right);
    RotateLeft(Node(t.left, t.key, t.value, r'))
  }

  // ---------------------------------------------------------------------
  // Rebalancing one node (TreeMap.h:443-459)
  // ---------------------------------------------------------------------

  /** The work `rebalance` does at one node: with a balance factor of +2 a
      single right rotation when the left child's outer (left) subtree is at
      least as tall as its inner one, otherwise a left-right rotation; the
      mirror image for -2; nothing otherwise. */
  function Rebalance<V>(t: Tree<V>): (r: Tree<V>)
    requires t.Node?
    ensures InOrder(r) == InOrder(t)
    ensures Contents(r) == Contents(t)
    ensures SearchTree(t) ==> SearchTree(r)
  {
    var balance := Height(t.left) - Height(t.right);
    if balance == 2 then
      if Height(t.left.left) >= Height(t.left.right) then RotateRight(t)
      else RotateLeftRight(t)
    else if balance == -2 then
      if Height(t.right.right) >= Height(t.right.left) then RotateLeft(t)
      else RotateRightLeft(t)
    else t
  }

  /** Left subtree two taller, its outer subtree at least as tall as its
      inner one: one right rotation balances the node. */
  lemma SingleRightBalances<V>(t: Tree<V>)
    requires t.Node? && t.left.Node? && Balanced(t.left) && Balanced(t.right)
    requires Height(t.left) == Height(t.right) + 2
    requires Height(t.left.left) >= Height(t.left.right)
    ensures Balanced(RotateRight(t))
    ensures Height(t.left) <= Height(RotateRight(t)) <= Height(t.left) + 1
  {
    var Node(ll, lk, lv, lr) := t.left;
    var inner := Node(lr, t.key, t.value, t.right);
    assert Height(inner) == 1 + Max(Height(lr), Height(t.right));
    assert RotateRight(t) == Node(ll, lk, lv, inner);
  }

  /** Left subtree two taller, its inner subtree the taller one: a left-right
      rotation balances the node. */
  lemma DoubleLeftRightBalances<V>(t: Tree<V>)
    requires t.Node? && t.left.Node? && Balanced(t.left) && Balanced(t.right)
    requires Height(t.left) == Height(t.right) + 2
    requires Height(t.left.left) < Height(t.left.right)
    ensures t.left.right.Node? && Balanced(RotateLeftRight(t))
    ensures Height(RotateLeftRight(t)) == Height(t.left)
  {
    var Node(ll, lk, lv, lr) := t.left;
    var Node(a, mk, mv, b) := lr;
    var left := Node(ll, lk, lv, a);
    var right := Node(b, t.key, t.value, t.right);
    assert Height(left) == 1 + Max(Height(ll), Height(a));
    assert Height(right) == 1 + Max(Height(b), Height(t.right));
    assert RotateLeftRight(t) == Node(left, mk, mv, right);
  }

  /** Mirror of SingleRightBalances. */
  lemma SingleLeftBalances<V>(t: Tree<V>)
    requires t.Node? && t.right.Node? && Balanced(t.left) && Balanced(t.right)
    requires Height(t.right) == Height(t.left) + 2
    requires Height(t.right.right) >= Height(t.right.left)
    ensures Balanced(RotateLeft(t))
    ensures Height(t.right) <= Height(RotateLeft(t)) <= Height(t.right) + 1
  {
    var Node(rl, rk, rv, rr) := t.right;
    var inner := Node(t.left, t.key, t.value, rl);
    assert Height(inner) == 1 + Max(Height(t.left), Height(rl));
    assert RotateLeft(t) == Node(inner, rk, rv, rr);
  }

  /** Mirror of DoubleLeftRightBalances. */
  lemma DoubleRightLeftBalances<V>(t: Tree<V>)
    requires t.Node? && t.right.Node? && Balanced(t.left) && Balanced(t.right)
    requires Height(t.right) == Height(t.left) + 2
    requires Height(t.right.right) < Height(t.right.left)
    ensures t.right.left.Node? && Balanced(RotateRightLeft(t))
    ensures Height(RotateRightLeft(t)) == Height(t.right)
  {
    var Node(rl, rk, rv, rr) := t.right;
    var Node(a, mk, mv, b) := rl;
    var left := Node(t.left, t.key, t.value, a);
    var right := Node(b, rk, rv, rr);
    assert Height(left) == 1 + Max(Height(t.left), Height(a));
    assert Height(right) == 1 + Max(Height(b), Height(rr));
    assert RotateRightLeft(t) == Node(left, mk, mv, right);
  }

  /** Rebalancing a node whose subtrees are AVL trees differing in height by at
      most two yields an AVL tree; its height is the taller subtree's height
      plus zero or one, and a node that was already balanced is left alone. */
  lemma RebalanceRestoresBalance<V>(t: Tree<V>)
    requires t.Node? && Balanced(t.left) && Balanced(t.right)
    requires -2 <= Height(t.left) - Height(t.right) <= 2
    ensures Balanced(Rebalance(t))
    ensures Max(Height(t.left), Height(t.right)) <= Height(Rebalance(t))
                                                  <= Max(Height(t.left), Height(t.right)) + 1
    ensures -1 <= Height(t.left) - Height(t.right) <= 1 ==> Rebalance(t) == t
  {
    var balance := Height(t.left) - Height(t.right);
    if balance == 2 {
      if Height(t.left.left) >= Height(t.left.right) {
        SingleRightBalances(t);
      } else {
        DoubleLeftRightBalances(t);
      }
    } else if balance == -2 {
      if Height(t.right.right) >= Height(t.right.left) {
        SingleLeftBalances(t);
      } else {
        DoubleRightLeftBalances(t);
      }
    }
  }

  // ---------------------------------------------------------------------
  // Insertion (TreeMap.h:224-266)
  // ---------------------------------------------------------------------

  /** `insert(key, value)`: descend as in a binary search tree; a node that
      already holds the key is returned untouched, otherwise a new leaf is
      attached and every ancestor on the way back up is rebalanced. */
  function Inserted<V>(t: Tree<V>, k: int, v: V): (r: Tree<V>)
    requires SearchTree(t)
    ensures SearchTree(r)
    ensures Contents(r) == if k in Contents(t) then Contents(t) else Contents(t)[k := v]
  {
    match t
    case Leaf => Node(Leaf, k, v, Leaf)
    case Node(l, x, w, rt) =>
      NodeKeys(l, x, w, rt);
      if x == k then t
      else if x > k then
        assert k !in Contents(rt);
        var l' := Inserted(l, k, v);
        NodeKeys(l', x, w, rt);
        UpdateLeftPart(Contents(l), map[x := w], Contents(rt), k, v);
        Rebalance(Node(l', x, w, rt))
      else
        assert k !in Contents(l);
        var rt' := Inserted(rt, k, v);
        NodeKeys(l, x, w, rt');
        UpdateRightPart(Contents(l), map[x := w], Contents(rt), k, v);
        Rebalance(Node(l, x, w, rt'))
  }

  /** Insertion keeps an AVL tree balanced and grows its height by at most
      one; inserting a key that is already present changes nothing. */
  lemma {:induction false} InsertedBalanced<V>(t: Tree<V>, k: int, v: V)
    requires SearchTree(t) && Balanced(t)
    ensures Balanced(Inserted(t, k, v))
    ensures Height(t) <= Height(Inserted(t, k, v)) <= Height(t) + 1
    ensures k in Contents(t) ==> Inserted(t, k, v) == t
  {
    match t
    case Leaf =>
    case Node(l, x, w, rt) =>
      NodeKeys(l, x, w, rt);
      if x > k {
        InsertedBalanced(l, k, v);
        RebalanceRestoresBalance(Node(Inserted(l, k, v), x, w, rt));
      } else if x < k {
        InsertedBalanced(rt, k, v);
        RebalanceRestoresBalance(Node(l, x, w, Inserted(rt, k, v)));
      }
  }

  /** Same keys in the same places; the values may differ. */
  predicate SameShape<V>(a: Tree<V>, b: Tree<V>)
  {
    match (a, b)
    case (Leaf, Leaf) => true
    case (Node(al, ak, _, ar), Node(bl, bk, _, br)) => ak == bk && SameShape(al, bl) && SameShape(ar, br)
    case _ => false
  }

  lemma {:induction false} SameShapeReflexive<V>(t: Tree<V>)
    ensures SameShape(t, t)
  {
    if t.Node? {
      SameShapeReflexive(t.left);
      SameShapeReflexive(t.right);
    }
  }

  /** Writing `v` through the reference to the value of key `k` (the
      assignment in `map[k] = v`): the node keeps its place, only its value
      changes. */
  function Assigned<V>(t: Tree<V>, k: int, v: V): (r: Tree<V>)
    requires SearchTree(t)
    ensures SearchTree(r) && Height(r) == Height(t) && SameShape(r, t)
    ensures Balanced(t) ==> Balanced(r)
    ensures Contents(r) == if k in Contents(t) then Contents(t)[k := v] else Contents(t)
  {
    match t
    case Leaf => Leaf
    case Node(l, x, w, rt) =>
      NodeKeys(l, x, w, rt);
      if x > k then
        assert k !in Contents(rt);
        var l' := Assigned(l, k, v);
        SameShapeReflexive(rt);
        NodeKeys(l', x, w, rt);
        UpdateLeftPart(Contents(l), map[x := w], Contents(rt), k, v);
        Node(l', x, w, rt)
      else if x < k then
        assert k !in Contents(l);
        var rt' := Assigned(rt, k, v);
        SameShapeReflexive(l);
        NodeKeys(l, x, w, rt');
        UpdateRightPart(Contents(l), map[x := w], Contents(rt), k, v);
        Node(l, x, w, rt')
      else
        assert k !in Contents(rt);
        SameShapeReflexive(l);
        SameShapeReflexive(rt);
        NodeKeys(l, x, v, rt);
        Node(l, x, v, rt)
  }

  // ---------------------------------------------------------------------
  // Deletion (TreeMap.h:314-383)
  // ---------------------------------------------------------------------

  /** Splices the leftmost node (the in-order successor of the node above
      the subtree) out of a non-empty subtree, putting its right child in its
      place and rebalancing from its former parent upward; returns its key,
      its value and the remaining subtree. */
  function RemoveMin<V>(t: Tree<V>): (res: (int, V, Tree<V>))
    requires t.Node? && SearchTree(t)
    ensures res.0 in Contents(t) && Contents(t)[res.0] == res.1
    ensures forall y :: y in Contents(t) ==> res.0 <= y
    ensures SearchTree(res.2) && Contents(res.2) == Contents(t) - {res.0}
  {
    var Node(l, x, w, rt) := t;
    NodeKeys(l, x, w, rt);
    if l.Leaf? then
      assert x !in Contents(rt);
      (x, w, rt)
    else
      var (mk, mv, l') := RemoveMin(l);
      assert mk !in Contents(rt) && mk != x;
      NodeKeys(l', x, w, rt);
      RemoveFromLeftPart(Contents(l), map[x := w], Contents(rt), mk);
      (mk, mv, Rebalance(Node(l', x, w, rt)))
  }

  /** Removing the leftmost node lowers the height by at most one and keeps
      the tree balanced. */
  lemma {:induction false} RemoveMinBalanced<V>(t: Tree<V>)
    requires t.Node? && SearchTree(t) && Balanced(t)
    ensures Balanced(RemoveMin(t).2)
    ensures Height(t) - 1 <= Height(RemoveMin(t).2) <= Height(t)
  {
    var Node(l, x, w, rt) := t;
    if l.Node? {
      RemoveMinBalanced(l);
      RebalanceRestoresBalance(Node(RemoveMin(l).2, x, w, rt));
    }
  }

  /** `deleteKey` once the key is known to be present: a node with two
      children is replaced by a node carrying its in-order successor's entry,
      the successor being spliced out of the right subtree; a node with one
      child is replaced by that child; a leaf is removed.  Every ancestor is
      rebalanced on the way back up.  Deleting the only node leaves the empty
      tree. */
  function Deleted<V>(t: Tree<V>, k: int): (r: Tree<V>)
    requires SearchTree(t)
    ensures SearchTree(r)
    ensures Contents(r) == Contents(t) - {k}
  {
    match t
    case Leaf => Leaf
    case Node(l, x, w, rt) =>
      NodeKeys(l, x, w, rt);
      if x > k then
        assert k !in Contents(rt);
        var l' := Deleted(l, k);
        NodeKeys(l', x, w, rt);
        RemoveFromLeftPart(Contents(l), map[x := w], Contents(rt), k);
        Rebalance(Node(l', x, w, rt))
      else if x < k then
        assert k !in Contents(l);
        var rt' := Deleted(rt, k);
        NodeKeys(l, x, w, rt');
        RemoveFromRightPart(Contents(l), map[x := w], Contents(rt), k);
        Rebalance(Node(l, x, w, rt'))
      else
        assert k !in Contents(l) && k !in Contents(rt);
        if l.Node? && rt.Node? then
          var (sk, sv, rt') := RemoveMin(rt);
          assert sk !in Contents(l);
          NodeKeys(l, sk, sv, rt');
          ReplaceMiddle(Contents(l), x, w, Contents(rt), sk);
          Rebalance(Node(l, sk, sv, rt'))
        else if l.Node? then l
        else if rt.Node? then rt
        else Leaf
  }

  /** Deletion keeps an AVL tree balanced and lowers its height by at most
      one. */
  lemma {:induction false} DeletedBalanced<V>(t: Tree<V>, k: int)
    requires SearchTree(t) && Balanced(t)
    ensures Balanced(Deleted(t, k))
    ensures Height(t) - 1 <= Height(Deleted(t, k)) <= Height(t)
  {
    match t
    case Leaf =>
    case Node(l, x, w, rt) =>
      if x > k {
        DeletedBalanced(l, k);
        var n := Node(Deleted(l, k), x, w, rt);
        assert Deleted(t, k) == Rebalance(n);
        RebalanceRestoresBalance(n);
      } else if x < k {
        DeletedBalanced(rt, k);
        var n := Node(l, x, w, Deleted(rt, k));
        assert Deleted(t, k) == Rebalance(n);
        RebalanceRestoresBalance(n);
      } else if l.Node? && rt.Node? {
        RemoveMinBalanced(rt);
        var (sk, sv, rt') := RemoveMin(rt);
        var n := Node(l, sk, sv, rt');
        assert Deleted(t, k) == Rebalance(n);
        RebalanceRestoresBalance(n);
      }
  }

  // ---------------------------------------------------------------------
  // In-order sequence
  // ---------------------------------------------------------------------

  /** The map of a tree is the map its in-order sequence denotes. */
  lemma {:induction false} ContentsOfInOrder<V>(t: Tree<V>)
    ensures Contents(t) == LastWins(InOrder(t))
  {
    match t
    case Leaf =>
    case Node(l, k, v, r) =>
      ContentsOfInOrder(l);
      ContentsOfInOrder(r);
      LastWinsAppend(InOrder(l) + [(k, v)], InOrder(r));
      LastWinsAppend(InOrder(l), [(k, v)]);
      assert [(k, v)][..0] == [];
  }

  /** Every in-order key is a key of the tree. */
  lemma InOrderKeysIn<V>(t: Tree<V>)
    ensures forall i :: 0 <= i < |InOrder(t)| ==> InOrder(t)[i].0 in Contents(t)
  {
    ContentsOfInOrder(t);
    assert forall i :: 0 <= i < |InOrder(t)| ==> InOrder(t)[i].0 in KeysOf(InOrder(t));
  }

  /** In a search tree the in-order keys strictly increase. */
  lemma {:induction false} InOrderSorted<V>(t: Tree<V>)
    requires SearchTree(t)
    ensures forall i, j :: 0 <= i < j < |InOrder(t)| ==> InOrder(t)[i].0 < InOrder(t)[j].0
  {
    match t
    case Leaf =>
    case Node(l, k, v, r) =>
      InOrderSorted(l);
      InOrderSorted(r);
      InOrderKeysIn(l);
      InOrderKeysIn(r);
      var L, R, s := InOrder(l), InOrder(r), InOrder(t);
      assert forall i :: 0 <= i < |L| ==> L[i].0 < k;
      assert forall i :: 0 <= i < |R| ==> k < R[i].0;
      assert forall i :: 0 <= i < |L| ==> s[i] == L[i];
      assert s[|L|] == (k, v);
      assert forall i :: |L| < i < |s| ==> s[i] == R[i - |L| - 1];
      forall i, j | 0 <= i < j < |s| ensures s[i].0 < s[j].0 {
        if j < |L| {
        } else if i > |L| {
          assert s[i] == R[i - |L| - 1] && s[j] == R[j - |L| - 1];
        } else if i == |L| {
          assert s[j] == R[j - |L| - 1];
        } else if j == |L| {
        } else {
          assert s[j] == R[j - |L| - 1];
        }
      }
  }

  /** Every in-order entry is an entry of the tree, and every key of the tree
      occurs in the in-order sequence. */
  lemma InOrderEntries<V>(t: Tree<V>)
    requires SearchTree(t)
    ensures forall i :: 0 <= i < |InOrder(t)| ==>
              InOrder(t)[i].0 in Contents(t) && Contents(t)[InOrder(t)[i].0] == InOrder(t)[i].1
    ensures forall y :: y in Contents(t) ==> exists i :: 0 <= i < |InOrder(t)| && InOrder(t)[i].0 == y
  {
    var s := InOrder(t);
    InOrderSorted(t);
    ContentsOfInOrder(t);
    forall i | 0 <= i < |s| ensures s[i].0 in Contents(t) && Contents(t)[s[i].0] == s[i].1 {
      LastWinsKeepsLast(s, i);
    }
    forall y | y in Contents(t) ensures exists i :: 0 <= i < |s| && s[i].0 == y {
      assert y in KeysOf(s);
    }
  }

  /** A search tree holds one entry per node, so the size counter, which
      counts nodes, is the number of entries. */
  lemma EntryCount<V>(t: Tree<V>)
    requires SearchTree(t)
    ensures |Contents(t)| == |InOrder(t)|
  {
    InOrderSorted(t);
    ContentsOfInOrder(t);
    LastWinsCard(InOrder(t));
  }

  /** The empty map is stored only by the empty tree. */
  lemma EmptyIffLeaf<V>(t: Tree<V>)
    ensures Contents(t) == map[] <==> t == Leaf
  {
    if t.Node? {
      assert t.key in Contents(t);
    }
  }

  // ---------------------------------------------------------------------
  // Extremes, successor and predecessor (TreeMap.h:296-302, 498-552)
  // ---------------------------------------------------------------------

  /** Key of the leftmost node (`getFirstNode`, and the descent to the
      leftmost node of a right subtree in `operator++`): the smallest key. */
  function MinKey<V>(t: Tree<V>): (r: int)
    requires t.Node? && SearchTree(t)
    ensures r == InOrder(t)[0].0
    ensures r in Contents(t) && forall y :: y in Contents(t) ==> r <= y
  {
    NodeKeys(t.left, t.key, t.value, t.right);
    if t.left.Leaf? then t.key else MinKey(t.left)
  }

  /** Key of the rightmost node (the descent in `operator--`): the largest
      key. */
  function MaxKey<V>(t: Tree<V>): (r: int)
    requires t.Node? && SearchTree(t)
    ensures r == InOrder(t)[|InOrder(t)| - 1].0
    ensures r in Contents(t) && forall y :: y in Contents(t) ==> y <= r
  {
    NodeKeys(t.left, t.key, t.value, t.right);
    if t.right.Leaf? then t.key else MaxKey(t.right)
  }

  /** The key `operator++` moves to from the node holding `k`: the leftmost
      node of its right subtree if it has one, otherwise the nearest ancestor
      whose left subtree holds `k`; None when there is no such ancestor (the
      walk reaches the guard).  Computed by descending from the root, which
      visits exactly those ancestors. */
  function Successor<V>(t: Tree<V>, k: int): (r: Option<int>)
    requires SearchTree(t)
    ensures r.Some? ==> r.value in Contents(t) && k < r.value
    ensures r.Some? ==> forall y :: y in Contents(t) && k < y ==> r.value <= y
    ensures r.None? ==> forall y :: y in Contents(t) ==> y <= k
  {
    match t
    case Leaf => None
    case Node(l, x, _, rt) =>
      NodeKeys(t.left, t.key, t.value, t.right);
      if k < x then
        var s := Successor(l, k);
        if s.Some? then s else Some(x)
      else if x < k then Successor(rt, k)
      else if rt.Node? then Some(MinKey(rt))
      else None
  }

  /** The key `operator--` moves to: the rightmost node of the left subtree
      if there is one, otherwise the nearest ancestor whose right subtree
      holds `k`. */
  function Predecessor<V>(t: Tree<V>, k: int): (r: Option<int>)
    requires SearchTree(t)
    ensures r.Some? ==> r.value in Contents(t) && r.value < k
    ensures r.Some? ==> forall y :: y in Contents(t) && y < k ==> y <= r.value
    ensures r.None? ==> forall y :: y in Contents(t) ==> k <= y
  {
    match t
    case Leaf => None
    case Node(l, x, _, rt) =>
      NodeKeys(t.left, t.key, t.value, t.right);
      if x < k then
        var s := Predecessor(rt, k);
        if s.Some? then s else Some(x)
      else if k < x then Predecessor(l, k)
      else if l.Node? then Some(MaxKey(l))
      else None
  }

  /** The successor of the i-th key in in-order is the (i+1)-th key, and
      there is none after the last. */
  lemma SuccessorIsNextInOrder<V>(t: Tree<V>, i: nat)
    requires SearchTree(t) && i < |InOrder(t)|
    ensures Successor(t, InOrder(t)[i].0) ==
              if i + 1 < |InOrder(t)| then Some(InOrder(t)[i + 1].0) else None
  {
    var s := InOrder(t);
    var k := s[i].0;
    InOrderSorted(t);
    InOrderEntries(t);
    var r := Successor(t, k);
    if i + 1 < |s| {
      assert s[i + 1].0 in Contents(t);
      var j :| 0 <= j < |s| && s[j].0 == r.value;
      assert i < j;
      assert s[i + 1].0 <= r.value;
    } else {
      forall y | y in Contents(t) ensures y <= k {
        var j :| 0 <= j < |s| && s[j].0 == y;
      }
    }
  }

  /** The predecessor of the i-th key in in-order is the (i-1)-th key, and
      there is none before the first. */
  lemma PredecessorIsPrevInOrder<V>(t: Tree<V>, i: nat)
    requires SearchTree(t) && i < |InOrder(t)|
    ensures Predecessor(t, InOrder(t)[i].0) ==
              if 0 < i then Some(InOrder(t)[i - 1].0) else None
  {
    var s := InOrder(t);
    var k := s[i].0;
    InOrderSorted(t);
    InOrderEntries(t);
    var r := Predecessor(t, k);
    if 0 < i {
      assert s[i - 1].0 in Contents(t);
      var j :| 0 <= j < |s| && s[j].0 == r.value;
      assert j < i;
      assert r.value <= s[i - 1].0;
    } else {
      forall y | y in Contents(t) ensures k <= y {
        var j :| 0 <= j < |s| && s[j].0 == y;
      }
    }
  }

  // ---------------------------------------------------------------------
  // Height of a balanced tree
  // ---------------------------------------------------------------------

  function Pow2(n: nat): nat
  {
    if n == 0 then 1 else 2 * Pow2(n - 1)
  }

  lemma {:induction false} Pow2Monotonic(a: nat, b: nat)
    requires a <= b
    ensures Pow2(a) <= Pow2(b)
  {
    if a < b {
      Pow2Monotonic(a, b - 1);
    }
  }

  /** An AVL tree of height h has at least 2^(h/2) - 1 nodes, so its height
      is logarithmic in its size. */
  lemma {:induction false} BalancedHeightIsLogarithmic<V>(t: Tree<V>)
    requires Balanced(t)
    ensures Pow2(Height(t) / 2) <= |InOrder(t)| + 1
  {
    match t
    case Leaf =>
    case Node(l, _, _, r) =>
      BalancedHeightIsLogarithmic(l);
      BalancedHeightIsLogarithmic(r);
      var h := Height(t);
      if h >= 2 {
        Pow2Monotonic((h - 2) / 2, Height(l) / 2);
        Pow2Monotonic((h - 2) / 2, Height(r) / 2);
        assert Pow2(h / 2) == 2 * Pow2((h - 2) / 2);
      }
  }
}
