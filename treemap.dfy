/** TreeMap (src/TreeMap.h): the map operations over the AVL tree, and the
    bidirectional ConstIterator.

    The guard node, which the C++ tree keeps above the root as the "one past
    the end" position, is the cursor `AtEnd`; any other iterator stands on the
    node holding a key, so it is `AtKey(key)`.  Iterators read the tree they
    were made from; mutating the map invalidates them, as in the source, so the
    cursor functions take that tree as a parameter. */
module TreeMaps {
  import opened Common
  import opened Avl

  datatype TreeCursor = AtKey(key: int) | AtEnd

  /** A cursor that stands on an entry of `t`, or on its guard. */
  ghost predicate ValidCursor<V>(t: Tree<V>, c: TreeCursor)
  {
    c.AtKey? ==> c.key in Contents(t)
  }

  /** `cbegin()`: the leftmost node, or the guard when the tree is empty
      (TreeMap.h:169-172, 296-302). */
  function Begin<V>(t: Tree<V>): (c: TreeCursor)
    requires SearchTree(t)
    ensures c.AtEnd? <==> Contents(t) == map[]
    ensures c.AtKey? ==> c.key in Contents(t) && forall y :: y in Contents(t) ==> c.key <= y
  {
    EmptyIffLeaf(t);
    if t.Leaf? then AtEnd else AtKey(MinKey(t))
  }

  /** `ConstIterator::operator++` (TreeMap.h:498-521): fails at the guard;
      otherwise moves to the in-order successor, or to the guard from the
      largest key. */
  function Next<V>(t: Tree<V>, c: TreeCursor): (r: Result<TreeCursor>)
    requires SearchTree(t)
    ensures r.Failure? <==> c.AtEnd?
    ensures r.Failure? ==> r.error == InvalidOperation
    ensures r.Success? && r.value.AtKey? ==> r.value.key in Contents(t) && c.key < r.value.key
    ensures r == Success(AtEnd) ==> forall y :: y in Contents(t) ==> y <= c.key
  {
    match c
    case AtEnd => Failure(InvalidOperation)
    case AtKey(k) =>
      match Successor(t, k)
      case None => Success(AtEnd)
      case Some(y) => Success(AtKey(y))
  }

  /** `ConstIterator::operator--` (TreeMap.h:530-552): fails at the begin
      position (so also at the guard of an empty tree); from the guard moves
      to the largest key, otherwise to the in-order predecessor. */
  function Prev<V>(t: Tree<V>, c: TreeCursor): (r: Result<TreeCursor>)
    requires SearchTree(t) && ValidCursor(t, c)
    ensures r.Failure? <==> c == Begin(t)
    ensures r.Failure? ==> r.error == InvalidOperation
    ensures r.Success? ==> r.value.AtKey? && r.value.key in Contents(t)
    ensures r.Success? && c.AtKey? ==> r.value.key < c.key
  {
    if c == Begin(t) then Failure(InvalidOperation)
    else
      match c
      case AtEnd => Success(AtKey(MaxKey(t)))
      case AtKey(k) =>
        match Predecessor(t, k)
        case Some(y) => Success(AtKey(y))
        case None => assert false; Failure(InvalidOperation)
  }

  /** `ConstIterator::operator*` (TreeMap.h:561-568): the entry of the node,
      or a failure at the guard. */
  function Deref<V>(t: Tree<V>, c: TreeCursor): (r: Result<(int, V)>)
    requires ValidCursor(t, c)
    ensures r.Failure? <==> c.AtEnd?
    ensures r.Failure? ==> r.error == InvalidOperation
    ensures r.Success? ==> r.value.0 == c.key && r.value.0 in Contents(t) && Contents(t)[r.value.0] == r.value.1
  {
    match c
    case AtEnd => Failure(InvalidOperation)
    case AtKey(k) => Success((k, Contents(t)[k]))
  }

  /** The cursor standing at in-order position j (the guard for j = |s|). */
  function CursorAt<V>(s: seq<(int, V)>, j: nat): TreeCursor
  {
    if j < |s| then AtKey(s[j].0) else AtEnd
  }

  /** The cursor reached by applying `++` `steps` times. */
  function Walk<V>(t: Tree<V>, c: TreeCursor, steps: nat): Result<TreeCursor>
    requires SearchTree(t)
  {
    if steps == 0 then Success(c)
    else
      match Walk(t, c, steps - 1)
      case Success(c') => Next(t, c')
      case Failure(e) => Failure(e)
  }

  /** `++` from the cursor at in-order position j moves to position j + 1. */
  lemma NextFollowsInOrder<V>(t: Tree<V>, j: nat)
    requires SearchTree(t) && j < |InOrder(t)|
    ensures Next(t, CursorAt(InOrder(t), j)) == Success(CursorAt(InOrder(t), j + 1))
  {
    SuccessorIsNextInOrder(t, j);
  }

  /** `--` from the cursor at in-order position j + 1 (the guard when j is
      the last position) moves back to position j. */
  lemma PrevUndoesNext<V>(t: Tree<V>, j: nat)
    requires SearchTree(t) && j < |InOrder(t)|
    ensures ValidCursor(t, CursorAt(InOrder(t), j + 1)) &&
            Prev(t, CursorAt(InOrder(t), j + 1)) == Success(CursorAt(InOrder(t), j))
  {
    var s := InOrder(t);
    assert t.Node?;
    var least := MinKey(t);
    if j + 1 < |s| {
      InOrderKeysIn(t);
      InOrderSorted(t);
      assert least < s[j + 1].0;
      PredecessorIsPrevInOrder(t, j + 1);
    } else {
      EmptyIffLeaf(t);
    }
  }

  /** A full walk from `cbegin()`: after j steps the iterator stands on the
      j-th in-order entry, and after exactly as many steps as there are
      entries it reaches the guard (`cend()`), where one more `++` fails.
      With InOrderSorted and EntryCount this is the walk that yields the
      keys in strictly increasing order, `getSize()` of them. */
  lemma {:induction false} WalkVisitsInOrder<V>(t: Tree<V>, j: nat)
    requires SearchTree(t) && j <= |InOrder(t)|
    ensures Walk(t, Begin(t), j) == Success(CursorAt(InOrder(t), j))
    ensures j == |InOrder(t)| ==> Walk(t, Begin(t), j + 1) == Failure(InvalidOperation)
  {
    if j == 0 {
      EmptyIffLeaf(t);
      if t.Leaf? {
        assert InOrder(t) == [];
      }
    } else {
      WalkVisitsInOrder(t, j - 1);
      NextFollowsInOrder(t, j - 1);
    }
  }

  /** `--` from `cend()` yields the largest key when the map is not empty. */
  lemma PrevFromEndIsLargest<V>(t: Tree<V>)
    requires SearchTree(t) && t.Node?
    ensures Prev(t, AtEnd) == Success(AtKey(InOrder(t)[|InOrder(t)| - 1].0))
  {
    EmptyIffLeaf(t);
  }

  /** A map with as many entries as `t` that holds every in-order entry of
      `t` is the map of `t`. */
  lemma EqualByInOrder<V>(m: map<int, V>, t: Tree<V>)
    requires SearchTree(t) && |m| == |Contents(t)|
    requires forall j :: 0 <= j < |InOrder(t)| ==> InOrder(t)[j].0 in m && m[InOrder(t)[j].0] == InOrder(t)[j].1
    ensures m == Contents(t)
  {
    var s := InOrder(t);
    InOrderEntries(t);
    forall k | k in Contents(t)
      ensures k in m && m[k] == Contents(t)[k]
    {
      var j :| 0 <= j < |s| && s[j].0 == k;
    }
    SameSizeSubmapEqual(m, Contents(t));
  }

  /** The list constructor as written keeps the first of two values given
      for one key, where the last-wins reading keeps the second. */
  lemma FirstWinsCounterexample<V>(k: int, a: V, b: V)
    requires a != b
    ensures FirstWins([(k, a), (k, b)]) == map[k := a]
    ensures LastWins([(k, a), (k, b)]) == map[k := b]
    ensures FirstWins([(k, a), (k, b)]) != LastWins([(k, a), (k, b)])
  {
  }

  class TreeMap<V(==)> {
    var root: Tree<V>
    var size: nat
    /** The default-constructed mapped value `mapped_type()`. */
    const dflt: V

    ghost predicate Valid()
      reads this
    {
      SearchTree(root) && Balanced(root) && size == |Contents(root)|
    }

    /** The empty map: only the guard (TreeMap.h:35-36, 215-218). */
    constructor (dflt: V)
      ensures Valid() && this.dflt == dflt
      ensures root == Leaf && Contents(root) == map[]
    {
      this.dflt := dflt;
      root := Leaf;
      size := 0;
    }

    /** The initializer-list constructor (TreeMap.h:38-43): `tree.insert` of
        every pair in order, so for a repeated key the first value is kept. */
    constructor FromList(dflt: V, list: seq<(int, V)>)
      ensures Valid() && this.dflt == dflt
      ensures Contents(root) == FirstWins(list)
    {
      this.dflt := dflt;
      root := Leaf;
      size := 0;
      new;
      var i := 0;
      while i < |list|
        invariant 0 <= i <= |list|
        invariant Valid() && this.dflt == dflt
        invariant Contents(root) == FirstWins(list[..i])
      {
        FirstWinsStep(list, i);
        var _ := Insert(list[i].0, list[i].1);
        i := i + 1;
      }
      assert list[..i] == list;
    }

    /** The list constructor with a later value for a repeated key
        overwriting an earlier one: `map[k] = v` for every pair in order. */
    constructor FromListOverwriting(dflt: V, list: seq<(int, V)>)
      ensures Valid() && this.dflt == dflt
      ensures Contents(root) == LastWins(list)
    {
      this.dflt := dflt;
      root := Leaf;
      size := 0;
      new;
      var i := 0;
      while i < |list|
        invariant 0 <= i <= |list|
        invariant Valid() && this.dflt == dflt
        invariant Contents(root) == LastWins(list[..i])
      {
        LastWinsStep(list, i);
        Assign(list[i].0, list[i].1);
        i := i + 1;
      }
      assert list[..i] == list;
    }

    /** `isEmpty` (TreeMap.h:87-90). */
    function IsEmpty(): (b: bool)
      reads this
      requires Valid()
      ensures b <==> Contents(root) == map[]
    {
      size == 0
    }

    /** `getSize` (TreeMap.h:137-140): the number of entries, which is the
        length of a begin-to-end walk. */
    function GetSize(): (n: nat)
      reads this
      requires Valid()
      ensures n == |Contents(root)| && n == |InOrder(root)|
    {
      EntryCount(root);
      size
    }

    /** `findKey` (TreeMap.h:269-282): BST descent from the root. */
    method FindKey(k: int) returns (r: Option<V>)
      requires Valid()
      ensures r.None? <==> k !in Contents(root)
      ensures r.Some? ==> Contents(root)[k] == r.value
    {
      if size == 0 {
        return None;
      }
      var current := root;
      while current.Node? && current.key != k
        invariant SearchTree(current)
        invariant k in Contents(root) <==> k in Contents(current)
        invariant k in Contents(current) ==> Contents(current)[k] == Contents(root)[k]
        decreases current
      {
        NodeKeys(current.left, current.key, current.value, current.right);
        if current.key > k {
          current := current.left;
        } else {
          current := current.right;
        }
      }
      if current.Leaf? {
        return None;
      }
      NodeKeys(current.left, current.key, current.value, current.right);
      assert k !in Contents(current.right);
      return Some(current.value);
    }

    /** `AVLTree::insert(key, value)` (TreeMap.h:224-266): an existing key
        keeps its node and value; a new key gets a new node and the size
        grows by one.  Returns the value now stored under the key. */
    method Insert(k: int, v: V) returns (stored: V)
      requires Valid()
      modifies this
      ensures Valid()
      ensures k in old(Contents(root)) ==> root == old(root) && size == old(size)
      ensures k !in old(Contents(root)) ==>
                Contents(root) == old(Contents(root))[k := v] && size == old(size) + 1
      ensures k in Contents(root) && stored == Contents(root)[k]
    {
      var found := FindKey(k);
      if found.Some? {
        return found.value;
      }
      InsertedBalanced(root, k, v);
      root := Inserted(root, k, v);
      size := size + 1;
      return v;
    }

    /** `operator[]` read (TreeMap.h:92-95): the stored value, inserting the
        default value first when the key is absent. */
    method Index(k: int) returns (v: V)
      requires Valid()
      modifies this
      ensures Valid()
      ensures Contents(root) ==
                if k in old(Contents(root)) then old(Contents(root)) else old(Contents(root))[k := dflt]
      ensures v == Contents(root)[k]
      ensures size == old(size) + (if k in old(Contents(root)) then 0 else 1)
    {
      v := Insert(k, dflt);
    }

    /** `map[k] = v`: `operator[]` followed by a write through the returned
        reference. */
    method Assign(k: int, v: V)
      requires Valid()
      modifies this
      ensures Valid()
      ensures Contents(root) == old(Contents(root))[k := v]
    {
      var _ := Insert(k, dflt);
      Overwrite(k, v);
    }

    /** The write through the reference `operator[]` returns: the node of a
        present key gets the new value; nothing else changes. */
    method Overwrite(k: int, v: V)
      requires Valid() && k in Contents(root)
      modifies this
      ensures Valid() && size == old(size)
      ensures Contents(root) == old(Contents(root))[k := v]
    {
      var updated := Assigned(root, k, v);
      KeepsCount(Contents(root), k, v);
      root := updated;
    }

    /** `valueOf` (TreeMap.h:97-111). */
    method ValueOf(k: int) returns (r: Result<V>)
      requires Valid()
      ensures r.Failure? <==> k !in Contents(root)
      ensures r.Failure? ==> r.error == NotFound
      ensures r.Success? ==> r.value == Contents(root)[k]
    {
      var found := FindKey(k);
      if found.None? {
        return Failure(NotFound);
      }
      return Success(found.value);
    }

    /** `find` (TreeMap.h:113-125): an iterator on the key's node, or
        `cend()`. */
    method Find(k: int) returns (c: TreeCursor)
      requires Valid()
      ensures c == if k in Contents(root) then AtKey(k) else AtEnd
    {
      var found := FindKey(k);
      if found.None? {
        return AtEnd;
      }
      return AtKey(k);
    }

    /** `cbegin` (TreeMap.h:169-172) with `getFirstNode` (296-302): walk left
        from the root. */
    method CBegin() returns (c: TreeCursor)
      requires Valid()
      ensures c == Begin(root)
    {
      if root.Leaf? {
        return AtEnd;
      }
      var current := root;
      while current.left.Node?
        invariant current.Node? && SearchTree(current)
        invariant MinKey(current) == MinKey(root)
        decreases current
      {
        current := current.left;
      }
      return AtKey(current.key);
    }

    /** `remove(key)`, i.e. `deleteKey` (TreeMap.h:127-130, 314-383): fails
        with nothing changed when the key is absent; otherwise exactly that
        entry goes and the size drops by one. */
    method Remove(k: int) returns (o: Outcome)
      requires Valid()
      modifies this
      ensures Valid()
      ensures k !in old(Contents(root)) ==>
                o == Fail(NotFound) && root == old(root) && size == old(size)
      ensures k in old(Contents(root)) ==>
                o == Done && Contents(root) == old(Contents(root)) - {k} && size == old(size) - 1
    {
      var found := FindKey(k);
      if found.None? {
        return Fail(NotFound);
      }
      DeletedBalanced(root, k);
      root := Deleted(root, k);
      size := size - 1;
      return Done;
    }

    /** `remove(iterator)` (TreeMap.h:132-135): `deleteKey(it->first)`, so
        the guard fails on the dereference. */
    method RemoveAt(c: TreeCursor) returns (o: Outcome)
      requires Valid() && ValidCursor(root, c)
      modifies this
      ensures Valid()
      ensures c.AtEnd? ==> o == Fail(InvalidOperation) && root == old(root) && size == old(size)
      ensures c.AtKey? ==>
                o == Done && Contents(root) == old(Contents(root)) - {c.key} && size == old(size) - 1
    {
      var entry := Deref(root, c);
      if entry.Failure? {
        return Fail(entry.error);
      }
      o := Remove(entry.value.0);
    }

    /** `operator==` (TreeMap.h:142-152): equal sizes, then every entry of
        `other`, visited in order, must be found here with an equal value.
        This is exactly equality of the two maps, whatever the shapes of the
        trees. */
    method Equals(other: TreeMap<V>) returns (eq: bool)
      requires Valid() && other.Valid()
      ensures eq <==> Contents(root) == Contents(other.root)
    {
      if size != other.size {
        return false;
      }
      var es := InOrder(other.root);
      var i := 0;
      while i < |es|
        invariant 0 <= i <= |es|
        invariant forall j :: 0 <= j < i ==> es[j].0 in Contents(root) && Contents(root)[es[j].0] == es[j].1
      {
        var found := FindKey(es[i].0);
        if found.None? || found.value != es[i].1 {
          InOrderEntries(other.root);
          assert es[i].0 in Contents(other.root) && Contents(other.root)[es[i].0] == es[i].1;
          return false;
        }
        i := i + 1;
      }
      EqualByInOrder(Contents(root), other.root);
      return true;
    }
  }
}
