/** HashMap (src/HashMap.h): a fixed array of buckets with chaining.

    The array of std::list buckets is an `array` of sequences that the
    methods update in place, and `size` is the running entry count.  The
    bucket count (BUCKETS_NUMBER, 64000 in the source) is the array's length,
    any positive number, and std::hash is the function `hash`. */
module HashMaps {
  import opened Common
  import opened Buckets
  import opened HashCursors

  /** Every one of the first p entries of f is an entry of m. */
  ghost predicate HoldsPrefix<K, V>(m: map<K, V>, f: seq<(K, V)>, p: nat)
    requires p <= |f|
  {
    forall q :: 0 <= q < p ==> f[q].0 in m && m[f[q].0] == f[q].1
  }

  class HashMap<K(==), V(==)> {
    const table: array<seq<(K, V)>>
    var size: nat
    const hash: K -> nat
    /** The default-constructed mapped value `mapped_type()`. */
    const dflt: V

    ghost predicate Valid()
      reads this, table
    {
      TableValid(table[..], hash) && size == |Flatten(table[..])|
    }

    /** The map this object stands for. */
    ghost function Contents(): map<K, V>
      reads this, table
    {
      TableMap(table[..])
    }

    /** The empty map (HashMap.h:38-40): n empty buckets. */
    constructor (n: nat, hash: K -> nat, dflt: V)
      requires n > 0
      ensures Valid() && fresh(table) && table.Length == n
      ensures this.hash == hash && this.dflt == dflt
      ensures Contents() == map[] && size == 0
    {
      this.hash := hash;
      this.dflt := dflt;
      table := new seq<(K, V)>[n](_ => []);
      size := 0;
      new;
      EmptyTable(table[..]);
    }

    /** The initializer-list constructor (HashMap.h:42-48): `(*this)[k] = v`
        for every pair in order, so for a repeated key the last value is
        kept. */
    constructor FromList(n: nat, hash: K -> nat, dflt: V, list: seq<(K, V)>)
      requires n > 0
      ensures Valid() && fresh(table) && table.Length == n
      ensures this.hash == hash && this.dflt == dflt
      ensures Contents() == LastWins(list)
    {
      this.hash := hash;
      this.dflt := dflt;
      table := new seq<(K, V)>[n](_ => []);
      size := 0;
      new;
      EmptyTable(table[..]);
      var i := 0;
      while i < |list|
        invariant 0 <= i <= |list|
        invariant Valid() && fresh(table) && table.Length == n
        invariant this.hash == hash && this.dflt == dflt
        invariant Contents() == LastWins(list[..i])
      {
        LastWinsStep(list, i);
        Assign(list[i].0, list[i].1);
        i := i + 1;
      }
      assert list[..i] == list;
    }

    /** `isEmpty` (HashMap.h:94-97). */
    function IsEmpty(): (b: bool)
      reads this, table
      requires Valid()
      ensures b <==> Contents() == map[]
    {
      SizeIsCount(table[..], hash);
      size == 0
    }

    /** `getSize` (HashMap.h:193-196): the number of keys. */
    function GetSize(): (n: nat)
      reads this, table
      requires Valid()
      ensures n == |Contents()| && n == |Flatten(table[..])|
    {
      SizeIsCount(table[..], hash);
      size
    }

    /** The list iterator `operator[]` (HashMap.h:99-111) returns a reference
        through: the position of the key's entry in its bucket, after
        appending (key, mapped_type()) to the bucket when the key is absent. */
    method Slot(k: K) returns (pos: nat)
      requires Valid()
      modifies table, this
      ensures Valid()
      ensures pos < |table[hash(k) % table.Length]| && table[hash(k) % table.Length][pos].0 == k
      ensures k in old(Contents()) ==>
                table[..] == old(table[..]) && size == old(size) && Contents() == old(Contents())
      ensures k !in old(Contents()) ==>
                table[..] == old(table[..])[hash(k) % table.Length := old(table[hash(k) % table.Length]) + [(k, dflt)]] &&
                size == old(size) + 1 && Contents() == old(Contents())[k := dflt] &&
                pos == |old(table[hash(k) % table.Length])|
    {
      var h := hash(k) % table.Length;
      var i := 0;
      while i < |table[h]|
        invariant 0 <= i <= |table[h]|
        invariant forall j :: 0 <= j < i ==> table[h][j].0 != k
      {
        if table[h][i].0 == k {
          EntryInMap(table[..], hash, h, i);
          return i;
        }
        i := i + 1;
      }
      AbsentFromBucket(table[..], hash, k);
      AppendNew(table[..], hash, k, dflt);
      table[h] := table[h] + [(k, dflt)];
      size := size + 1;
      return |table[h]| - 1;
    }

    /** `operator[]` read (HashMap.h:99-111): the value stored under the
        key, stored as the default value first when the key is absent. */
    method Index(k: K) returns (v: V)
      requires Valid()
      modifies table, this
      ensures Valid()
      ensures Contents() == if k in old(Contents()) then old(Contents()) else old(Contents())[k := dflt]
      ensures k in Contents() && v == Contents()[k]
      ensures size == old(size) + (if k in old(Contents()) then 0 else 1)
    {
      var pos := Slot(k);
      var h := hash(k) % table.Length;
      EntryInMap(table[..], hash, h, pos);
      v := table[h][pos].1;
    }

    /** `map[k] = v`: `operator[]` followed by a write through the returned
        reference; only the key's bucket changes. */
    method Assign(k: K, v: V)
      requires Valid()
      modifies table, this
      ensures Valid()
      ensures Contents() == old(Contents())[k := v]
      ensures forall i :: 0 <= i < table.Length && i != hash(k) % table.Length ==> table[i] == old(table[i])
      ensures k in old(Contents()) ==>
                exists j :: 0 <= j < |old(table[hash(k) % table.Length])| &&
                  old(table[hash(k) % table.Length])[j].0 == k &&
                  table[..] == old(table[..])[hash(k) % table.Length := old(table[hash(k) % table.Length])[j := (k, v)]]
      ensures k !in old(Contents()) ==>
                table[..] == old(table[..])[hash(k) % table.Length := old(table[hash(k) % table.Length]) + [(k, v)]]
    {
      ghost var before := table[..];
      var pos := Slot(k);
      var h := hash(k) % table.Length;
      ghost var slotted := table[h];
      OverwriteEntry(table[..], hash, h, pos, v);
      table[h] := table[h][pos := (k, v)];
      assert table[..] == before[h := slotted[pos := (k, v)]];
      if k in old(Contents()) {
        assert slotted == before[h] && before[h][pos].0 == k;
      } else {
        assert slotted == before[h] + [(k, dflt)] && pos == |before[h]|;
        assert slotted[pos := (k, v)] == before[h] + [(k, v)];
      }
    }

    /** `valueOf` (HashMap.h:114-144): fails when the map is empty, when the
        key's bucket is empty, and when the key is not in its bucket. */
    method ValueOf(k: K) returns (r: Result<V>)
      requires Valid()
      ensures r.Failure? <==> k !in Contents()
      ensures r.Failure? ==> r.error == NotFound
      ensures r.Success? ==> r.value == Contents()[k]
    {
      if size == 0 {
        SizeIsCount(table[..], hash);
        return Failure(NotFound);
      }
      var h := hash(k) % table.Length;
      if table[h] == [] {
        AbsentFromBucket(table[..], hash, k);
        return Failure(NotFound);
      }
      var i := 0;
      while i < |table[h]|
        invariant 0 <= i <= |table[h]|
        invariant forall j :: 0 <= j < i ==> table[h][j].0 != k
      {
        if table[h][i].0 == k {
          EntryInMap(table[..], hash, h, i);
          return Success(table[h][i].1);
        }
        i := i + 1;
      }
      AbsentFromBucket(table[..], hash, k);
      return Failure(NotFound);
    }

    /** `cbegin` (HashMap.h:225-236). */
    method CBegin() returns (c: HashCursor)
      requires Valid()
      ensures c == BeginOf(table[..])
    {
      if size == 0 {
        EmptyTable(table[..]);
        return HashCursor(0, 0);
      }
      var i := 0;
      while i < table.Length
        invariant 0 <= i <= table.Length
        invariant forall m :: 0 <= m < i ==> table[m] == []
      {
        if table[i] != [] {
          return HashCursor(i, 0);
        }
        i := i + 1;
      }
      return HashCursor(0, 0);
    }

    /** `cend` (HashMap.h:238-249): scanning down from the last bucket, which
        for a non-empty map stops before the unsigned counter could wrap. */
    method CEnd() returns (c: HashCursor)
      requires Valid()
      ensures c == EndOf(table[..])
    {
      if size == 0 {
        EmptyTable(table[..]);
        return HashCursor(0, |table[0]|);
      }
      var i := table.Length - 1;
      while table[i] == [] && i > 0
        invariant 0 <= i < table.Length
        invariant forall m :: i < m < table.Length ==> table[m] == []
      {
        i := i - 1;
      }
      if table[i] != [] {
        return HashCursor(i, |table[i]|);
      }
      return HashCursor(0, 0);
    }

    /** `find` (HashMap.h:146-172): an iterator on the key's entry, or
        `cend()`. */
    method Find(k: K) returns (c: HashCursor)
      requires Valid()
      ensures ValidCursor(table[..], c)
      ensures k !in Contents() ==> c == EndOf(table[..])
      ensures k in Contents() ==>
                c.index == hash(k) % table.Length && c.pos < |table[c.index]| &&
                DerefOf(table[..], c) == Success((k, Contents()[k]))
    {
      EndIsAfterAll(table[..]);
      if size == 0 {
        SizeIsCount(table[..], hash);
        c := CEnd();
        return;
      }
      var h := hash(k) % table.Length;
      var i := 0;
      while i < |table[h]|
        invariant 0 <= i <= |table[h]|
        invariant forall j :: 0 <= j < i ==> table[h][j].0 != k
      {
        if table[h][i].0 == k {
          EntryInMap(table[..], hash, h, i);
          return HashCursor(h, i);
        }
        i := i + 1;
      }
      AbsentFromBucket(table[..], hash, k);
      c := CEnd();
    }

    /** `ConstIterator::operator++` (HashMap.h:300-320). */
    method Next(c: HashCursor) returns (r: Result<HashCursor>)
      requires Valid() && ValidCursor(table[..], c)
      ensures r == NextOf(table[..], c)
    {
      if c.pos == |table[c.index]| {
        return Failure(InvalidOperation);
      }
      var pos := c.pos + 1;
      if pos == |table[c.index]| {
        var i := c.index + 1;
        while i < table.Length
          invariant c.index + 1 <= i <= table.Length
          invariant forall m :: c.index + 1 <= m < i ==> table[m] == []
        {
          if table[i] != [] {
            return Success(HashCursor(i, 0));
          }
          i := i + 1;
        }
      }
      return Success(HashCursor(c.index, pos));
    }

    /** `ConstIterator::operator--` (HashMap.h:329-350) with its backward
        scan stopping after bucket 0 and reaching the throw at line 349; the
        code as written is PrevAsWritten. */
    method Prev(c: HashCursor) returns (r: Result<HashCursor>)
      requires Valid() && ValidCursor(table[..], c)
      ensures r == PrevOf(table[..], c)
    {
      if c.pos != 0 {
        return Success(HashCursor(c.index, c.pos - 1));
      }
      if c.index == 0 {
        return Failure(InvalidOperation);
      }
      var i := c.index;
      while i > 0
        invariant 0 <= i <= c.index
        invariant forall m :: i <= m < c.index ==> table[m] == []
      {
        if table[i - 1] != [] {
          return Success(HashCursor(i - 1, |table[i - 1]| - 1));
        }
        i := i - 1;
      }
      return Failure(InvalidOperation);
    }

    /** `remove(key)` (HashMap.h:174-182): fails with nothing changed when
        `find` gives `cend()`; otherwise `list::remove` of the found entry
        erases exactly that key from its bucket, and only that bucket
        changes. */
    method Remove(k: K) returns (o: Outcome)
      requires Valid()
      modifies table, this
      ensures Valid()
      ensures k !in old(Contents()) ==>
                o == Fail(NotFound) && table[..] == old(table[..]) && size == old(size)
      ensures k in old(Contents()) ==>
                o == Done && Contents() == old(Contents()) - {k} && size == old(size) - 1
      ensures forall i :: 0 <= i < table.Length && i != hash(k) % table.Length ==> table[i] == old(table[i])
      ensures k in old(Contents()) ==>
                exists j :: 0 <= j < |old(table[hash(k) % table.Length])| &&
                  old(table[hash(k) % table.Length])[j].0 == k &&
                  table[..] == old(table[..])[hash(k) % table.Length :=
                                 old(table[hash(k) % table.Length])[..j] + old(table[hash(k) % table.Length])[j + 1..]]
    {
      var c := Find(k);
      var e := CEnd();
      if c == e {
        return Fail(NotFound);
      }
      ghost var before: Table<K, V> := table[..];
      var entry := table[c.index][c.pos];
      RemoveEntry(table[..], hash, c.index, c.pos);
      WithoutOne(table[c.index], c.pos);
      table[c.index] := Without(table[c.index], entry);
      size := size - 1;
      assert before[c.index][c.pos].0 == k;
      assert table[..] == before[c.index := before[c.index][..c.pos] + before[c.index][c.pos + 1..]];
      return Done;
    }

    /** `remove(iterator)` (HashMap.h:184-191): fails at `cend()`, fails in
        the dereference at any other bucket end, and otherwise erases the
        entry the iterator is on. */
    method RemoveAt(c: HashCursor) returns (o: Outcome)
      requires Valid() && ValidCursor(table[..], c)
      modifies table, this
      ensures Valid()
      ensures c == old(EndOf(table[..])) ==>
                o == Fail(NotFound) && table[..] == old(table[..]) && size == old(size)
      ensures c != old(EndOf(table[..])) && c.pos == old(|table[c.index]|) ==>
                o == Fail(InvalidOperation) && table[..] == old(table[..]) && size == old(size)
      ensures c.pos < old(|table[c.index]|) ==>
                o == Done && Contents() == old(Contents()) - {old(table[c.index][c.pos].0)} &&
                size == old(size) - 1
      ensures forall i :: 0 <= i < table.Length && i != c.index ==> table[i] == old(table[i])
      ensures c.pos < old(|table[c.index]|) ==>
                table[..] == old(table[..])[c.index := old(table[c.index])[..c.pos] + old(table[c.index])[c.pos + 1..]]
    {
      EndIsAfterAll(table[..]);
      var e := CEnd();
      if c == e {
        return Fail(NotFound);
      }
      var entry := DerefOf(table[..], c);
      if entry.Failure? {
        return Fail(entry.error);
      }
      RemoveEntry(table[..], hash, c.index, c.pos);
      WithoutOne(table[c.index], c.pos);
      table[c.index] := Without(table[c.index], entry.value);
      size := size - 1;
      return Done;
    }

    /** `operator==` (HashMap.h:198-208): equal sizes, then every entry of
        `other`, visited from `cbegin()` to `cend()`, must be found here with
        an equal value.  This is exactly equality of the two maps, whatever
        the order of the entries in the buckets. */
    method Equals(other: HashMap<K, V>) returns (eq: bool)
      requires Valid() && other.Valid()
      ensures eq <==> Contents() == other.Contents()
    {
      SizeIsCount(table[..], hash);
      SizeIsCount(other.table[..], other.hash);
      if size != other.size {
        return false;
      }
      ghost var os := other.table[..];
      ghost var f := Flatten(os);
      ghost var mine := Contents();
      WalkVisitsAll(os, 0);
      WalkVisitsAll(os, |f|);
      var it := other.CBegin();
      var end := other.CEnd();
      var myEnd := CEnd();
      EndIsAfterAll(table[..]);
      ghost var p := 0;
      while it != end
        invariant p <= |f| && it == CursorAtFlat(os, p)
        invariant HoldsPrefix(mine, f, p)
        decreases |f| - p
      {
        WalkVisitsAll(os, p);
        var entry := DerefOf(other.table[..], it);
        assert entry == Success(f[p]);
        var found := Find(entry.value.0);
        if found == myEnd || DerefOf(table[..], found).value.1 != entry.value.1 {
          assert !(f[p].0 in mine && mine[f[p].0] == f[p].1);
          MissingEntryDiffers(mine, os, other.hash, p);
          return false;
        }
        assert mine == Contents();
        assert entry.value.0 in mine;
        assert DerefOf(table[..], found) == Success((f[p].0, mine[f[p].0]));
        assert f[p].0 in mine && mine[f[p].0] == f[p].1;
        assert HoldsPrefix(mine, f, p + 1);
        NextStepsForward(os, p);
        var r := other.Next(it);
        it := r.value;
        p := p + 1;
      }
      EqualByEntries(mine, os, other.hash);
      return true;
    }
  }
}
