/** The bucket table of HashMap (src/HashMap.h:34-35) as a value: a sequence
    of N buckets, each the list of (key, value) pairs in insertion order.

    A key lives in bucket `hash(key) % N`; `hash` stands for std::hash, which
    is not modelled, and N for BUCKETS_NUMBER. */
module Buckets {
  import opened Common

  type Table<K, V> = seq<seq<(K, V)>>

  /** Every entry, bucket after bucket, each bucket in list order: the order
      in which a ConstIterator visits them. */
  function Flatten<K, V>(s: Table<K, V>): seq<(K, V)>
  {
    if s == [] then [] else Flatten(s[..|s| - 1]) + s[|s| - 1]
  }

  /** The map a table denotes. */
  ghost function TableMap<K, V>(s: Table<K, V>): map<K, V>
  {
    LastWins(Flatten(s))
  }

  /** Every key sits in the bucket its hash selects. */
  ghost predicate Placed<K, V>(s: Table<K, V>, hash: K -> nat)
  {
    forall i, j :: 0 <= i < |s| && 0 <= j < |s[i]| ==> hash(s[i][j].0) % |s| == i
  }

  /** The invariant `operator[]` and `remove` keep: at least one bucket,
      placement by hash, and no key twice in a bucket. */
  ghost predicate TableValid<K, V>(s: Table<K, V>, hash: K -> nat)
  {
    |s| > 0 && Placed(s, hash) && forall i :: 0 <= i < |s| ==> DistinctKeys(s[i])
  }

  /** The number of entries in the buckets before bucket i. */
  function Offset<K, V>(s: Table<K, V>, i: nat): nat
    requires i <= |s|
  {
    if i == 0 then 0 else Offset(s, i - 1) + |s[i - 1]|
  }

  lemma FlattenStep<K, V>(s: Table<K, V>, i: nat)
    requires i < |s|
    ensures Flatten(s[..i + 1]) == Flatten(s[..i]) + s[i]
  {
    assert s[..i + 1][..i] == s[..i];
  }

  lemma {:induction false} FlattenAppend<K, V>(a: Table<K, V>, b: Table<K, V>)
    ensures Flatten(a + b) == Flatten(a) + Flatten(b)
  {
    if b == [] {
      assert a + b == a;
    } else {
      var init := b[..|b| - 1];
      assert (a + b)[..|a + b| - 1] == a + init;
      FlattenAppend(a, init);
    }
  }

  /** The entries before bucket h, those of bucket h, and those after it. */
  lemma FlattenSplit<K, V>(s: Table<K, V>, h: nat)
    requires h < |s|
    ensures Flatten(s) == Flatten(s[..h]) + s[h] + Flatten(s[h + 1..])
  {
    assert s == s[..h + 1] + s[h + 1..];
    FlattenAppend(s[..h + 1], s[h + 1..]);
    FlattenStep(s, h);
  }

  /** The entries before bucket i are those of the prefix s[..i]. */
  lemma {:induction false} OffsetIsPrefixLength<K, V>(s: Table<K, V>, i: nat)
    requires i <= |s|
    ensures Offset(s, i) == |Flatten(s[..i])|
  {
    if i == 0 {
      assert s[..0] == [];
    } else {
      OffsetIsPrefixLength(s, i - 1);
      FlattenStep(s, i - 1);
    }
  }

  lemma OffsetFacts<K, V>(s: Table<K, V>)
    ensures Offset(s, 0) == 0 && Offset(s, |s|) == |Flatten(s)|
  {
    OffsetIsPrefixLength(s, |s|);
    assert s[..|s|] == s;
  }

  lemma {:induction false} OffsetMono<K, V>(s: Table<K, V>, a: nat, b: nat)
    requires a <= b <= |s|
    ensures Offset(s, a) <= Offset(s, b)
    decreases b - a
  {
    if a < b {
      OffsetMono(s, a + 1, b);
    }
  }

  /** Empty buckets add no entries. */
  lemma {:induction false} OffsetGap<K, V>(s: Table<K, V>, a: nat, b: nat)
    requires a <= b <= |s|
    requires forall x :: a <= x < b ==> s[x] == []
    ensures Offset(s, a) == Offset(s, b)
    decreases b - a
  {
    if a < b {
      OffsetGap(s, a + 1, b);
    }
  }

  /** The entry at bucket i, position j, as the p-th entry of the table. */
  lemma EntryPosition<K, V>(s: Table<K, V>, i: nat, j: nat)
    requires i < |s| && j < |s[i]|
    ensures Offset(s, i) + j < |Flatten(s)| && Flatten(s)[Offset(s, i) + j] == s[i][j]
  {
    FlattenSplit(s, i);
    OffsetIsPrefixLength(s, i);
  }

  /** The last bucket below n whose entries start at or before position p. */
  function LocateBelow<K, V>(s: Table<K, V>, p: nat, n: nat): (c: (nat, nat))
    requires n <= |s| && p < Offset(s, n)
    ensures c.0 < n && c.1 < |s[c.0]| && Offset(s, c.0) + c.1 == p
  {
    if Offset(s, n - 1) <= p then (n - 1, p - Offset(s, n - 1))
    else LocateBelow(s, p, n - 1)
  }

  /** The table position of the p-th entry in iteration order. */
  function Locate<K, V>(s: Table<K, V>, p: nat): (c: (nat, nat))
    requires p < |Flatten(s)|
    ensures c.0 < |s| && c.1 < |s[c.0]|
    ensures Offset(s, c.0) + c.1 == p && Flatten(s)[p] == s[c.0][c.1]
  {
    OffsetFacts(s);
    var c := LocateBelow(s, p, |s|);
    EntryPosition(s, c.0, c.1);
    c
  }

  /** The scan down from any bucket above i finds the entry at bucket i,
      position j. */
  lemma {:induction false} LocateBelowFinds<K, V>(s: Table<K, V>, i: nat, j: nat, n: nat)
    requires i < n <= |s| && j < |s[i]|
    ensures Offset(s, i) + j < Offset(s, n)
    ensures LocateBelow(s, Offset(s, i) + j, n) == (i, j)
  {
    OffsetMono(s, i + 1, n);
    if i < n - 1 {
      OffsetMono(s, i + 1, n - 1);
      LocateBelowFinds(s, i, j, n - 1);
    }
  }

  /** Distinct positions holding an entry have distinct places in the
      iteration order, so Locate is the only such position for its index. */
  lemma LocateUnique<K, V>(s: Table<K, V>, i: nat, j: nat)
    requires i < |s| && j < |s[i]|
    ensures Offset(s, i) + j < |Flatten(s)|
    ensures Locate(s, Offset(s, i) + j) == (i, j)
  {
    OffsetFacts(s);
    LocateBelowFinds(s, i, j, |s|);
  }

  /** Placement and distinct keys per bucket give distinct keys in the whole
      table. */
  lemma GlobalDistinct<K, V>(s: Table<K, V>, hash: K -> nat)
    requires TableValid(s, hash)
    ensures DistinctKeys(Flatten(s))
  {
    var f := Flatten(s);
    forall p, q | 0 <= p < q < |f|
      ensures f[p].0 != f[q].0
    {
      var c1 := Locate(s, p);
      var c2 := Locate(s, q);
      assert hash(f[p].0) % |s| == c1.0 && hash(f[q].0) % |s| == c2.0;
      if c1.0 == c2.0 {
        assert c1.1 < c2.1;
      }
    }
  }

  /** `getSize()` counts entries, and entries are exactly the map's keys. */
  lemma SizeIsCount<K, V>(s: Table<K, V>, hash: K -> nat)
    requires TableValid(s, hash)
    ensures |TableMap(s)| == |Flatten(s)|
  {
    GlobalDistinct(s, hash);
    LastWinsCard(Flatten(s));
  }

  /** A table has no entries exactly when every bucket is empty. */
  lemma EmptyTable<K, V>(s: Table<K, V>)
    ensures |Flatten(s)| == 0 <==> forall m :: 0 <= m < |s| ==> s[m] == []
  {
    OffsetFacts(s);
    if forall m :: 0 <= m < |s| ==> s[m] == [] {
      OffsetGap(s, 0, |s|);
    }
    forall m | 0 <= m < |s| && |Flatten(s)| == 0
      ensures s[m] == []
    {
      OffsetMono(s, m + 1, |s|);
    }
  }

  /** Each entry met in iteration order is an entry of the map. */
  lemma FlattenEntries<K, V>(s: Table<K, V>, hash: K -> nat)
    requires TableValid(s, hash)
    ensures forall q :: 0 <= q < |Flatten(s)| ==>
              Flatten(s)[q].0 in TableMap(s) && TableMap(s)[Flatten(s)[q].0] == Flatten(s)[q].1
  {
    var f := Flatten(s);
    GlobalDistinct(s, hash);
    forall q | 0 <= q < |f|
      ensures f[q].0 in LastWins(f) && LastWins(f)[f[q].0] == f[q].1
    {
      LastWinsKeepsLast(f, q);
    }
  }

  /** Each key of the map is met in iteration order. */
  lemma FlattenCovers<K, V>(s: Table<K, V>, k: K) returns (q: nat)
    requires k in TableMap(s)
    ensures q < |Flatten(s)| && Flatten(s)[q].0 == k
  {
    var f := Flatten(s);
    assert k in KeysOf(f);
    q :| 0 <= q < |f| && f[q].0 == k;
  }

  /** A map as large as the table that holds every entry met in iteration
      order is the table's map. */
  lemma EqualByEntries<K, V>(m: map<K, V>, s: Table<K, V>, hash: K -> nat)
    requires TableValid(s, hash) && |m| == |Flatten(s)|
    requires forall q :: 0 <= q < |Flatten(s)| ==> Flatten(s)[q].0 in m && m[Flatten(s)[q].0] == Flatten(s)[q].1
    ensures m == TableMap(s)
  {
    FlattenEntries(s, hash);
    SizeIsCount(s, hash);
    forall k | k in TableMap(s)
      ensures k in m && m[k] == TableMap(s)[k]
    {
      var q := FlattenCovers(s, k);
    }
    SameSizeSubmapEqual(m, TableMap(s));
  }

  /** A map lacking one of the entries met in iteration order is not the
      table's map. */
  lemma MissingEntryDiffers<K, V>(m: map<K, V>, s: Table<K, V>, hash: K -> nat, p: nat)
    requires TableValid(s, hash) && p < |Flatten(s)|
    requires !(Flatten(s)[p].0 in m && m[Flatten(s)[p].0] == Flatten(s)[p].1)
    ensures m != TableMap(s)
  {
    FlattenEntries(s, hash);
  }

  /** Any entry of a bucket is an entry of the map. */
  lemma EntryInMap<K, V>(s: Table<K, V>, hash: K -> nat, i: nat, j: nat)
    requires TableValid(s, hash) && i < |s| && j < |s[i]|
    ensures s[i][j].0 in TableMap(s) && TableMap(s)[s[i][j].0] == s[i][j].1
  {
    var f := Flatten(s);
    EntryPosition(s, i, j);
    GlobalDistinct(s, hash);
    var p := Offset(s, i) + j;
    LastWinsKeepsLast(f, p);
  }

  /** A key missing from its own bucket is missing from the map. */
  lemma AbsentFromBucket<K, V>(s: Table<K, V>, hash: K -> nat, k: K)
    requires TableValid(s, hash)
    requires forall j :: 0 <= j < |s[hash(k) % |s|]| ==> s[hash(k) % |s|][j].0 != k
    ensures k !in TableMap(s)
  {
    var f := Flatten(s);
    forall p | 0 <= p < |f|
      ensures f[p].0 != k
    {
      var c := Locate(s, p);
      assert hash(f[p].0) % |s| == c.0;
    }
    assert k !in KeysOf(f);
  }

  /** Keys stored before or after bucket h do not hash to h. */
  lemma KeyOnlyInItsBucket<K, V>(s: Table<K, V>, hash: K -> nat, k: K)
    requires TableValid(s, hash)
    ensures var h := hash(k) % |s|;
            k !in TableMap(s[..h]) && k !in TableMap(s[h + 1..])
  {
    var h := hash(k) % |s|;
    var a := s[..h];
    var fa := Flatten(a);
    forall p | 0 <= p < |fa|
      ensures fa[p].0 != k
    {
      var c := Locate(a, p);
      assert a[c.0] == s[c.0];
      assert hash(fa[p].0) % |s| == c.0;
    }
    assert k !in KeysOf(fa);
    var b := s[h + 1..];
    var fb := Flatten(b);
    forall p | 0 <= p < |fb|
      ensures fb[p].0 != k
    {
      var c := Locate(b, p);
      assert b[c.0] == s[h + 1 + c.0];
      assert hash(fb[p].0) % |s| == h + 1 + c.0;
    }
    assert k !in KeysOf(fb);
  }

  /** The map of a table in which bucket i is replaced by b. */
  lemma ReplaceBucket<K, V>(s: Table<K, V>, i: nat, b: seq<(K, V)>)
    requires i < |s|
    ensures Flatten(s[i := b]) == Flatten(s[..i]) + b + Flatten(s[i + 1..])
    ensures |Flatten(s[i := b])| == |Flatten(s)| - |s[i]| + |b|
    ensures TableMap(s[i := b]) == TableMap(s[..i]) + LastWins(b) + TableMap(s[i + 1..])
    ensures TableMap(s) == TableMap(s[..i]) + LastWins(s[i]) + TableMap(s[i + 1..])
  {
    var t := s[i := b];
    FlattenSplit(t, i);
    FlattenSplit(s, i);
    assert t[..i] == s[..i] && t[i + 1..] == s[i + 1..];
    LastWinsAppend(Flatten(s[..i]) + b, Flatten(s[i + 1..]));
    LastWinsAppend(Flatten(s[..i]), b);
    LastWinsAppend(Flatten(s[..i]) + s[i], Flatten(s[i + 1..]));
    LastWinsAppend(Flatten(s[..i]), s[i]);
  }

  /** Replacing a bucket by one with distinct keys, all of which hash to
      it, keeps the invariant. */
  lemma ReplaceBucketValid<K, V>(s: Table<K, V>, hash: K -> nat, i: nat, b: seq<(K, V)>)
    requires TableValid(s, hash) && i < |s| && DistinctKeys(b)
    requires forall x :: 0 <= x < |b| ==> hash(b[x].0) % |s| == i
    ensures TableValid(s[i := b], hash)
  {
  }

  /** Appending a new key to a bucket. */
  lemma BucketAppend<K, V>(b: seq<(K, V)>, k: K, v: V)
    requires DistinctKeys(b) && k !in LastWins(b)
    ensures DistinctKeys(b + [(k, v)]) && LastWins(b + [(k, v)]) == LastWins(b)[k := v]
  {
    assert forall x :: 0 <= x < |b| ==> b[x].0 in KeysOf(b);
    LastWinsSnoc(b, (k, v));
  }

  /** A bucket as the map of the part before position j, the entry at j,
      and the part after it, the last holding no key of the entry. */
  lemma BucketAround<K, V>(b: seq<(K, V)>, j: nat, e: (K, V))
    requires DistinctKeys(b) && j < |b|
    ensures LastWins(b[..j] + [e] + b[j + 1..]) == LastWins(b[..j]) + map[e.0 := e.1] + LastWins(b[j + 1..])
    ensures b[j].0 !in LastWins(b[j + 1..]) && b[j].0 !in LastWins(b[..j])
  {
    var pre, post := b[..j], b[j + 1..];
    LastWinsAppend(pre + [e], post);
    LastWinsAppend(pre, [e]);
    assert LastWins([e]) == map[e.0 := e.1] by {
      assert [e][..0] == [];
    }
    assert forall x :: 0 <= x < |post| ==> post[x] == b[j + 1 + x];
    assert b[j].0 !in KeysOf(post);
    assert b[j].0 !in KeysOf(pre);
  }

  /** Overwriting the value at position j of a bucket. */
  lemma BucketOverwrite<K, V>(b: seq<(K, V)>, j: nat, v: V)
    requires DistinctKeys(b) && j < |b|
    ensures DistinctKeys(b[j := (b[j].0, v)])
    ensures LastWins(b[j := (b[j].0, v)]) == LastWins(b)[b[j].0 := v]
  {
    var k := b[j].0;
    var b' := b[j := (k, v)];
    assert b == b[..j] + [b[j]] + b[j + 1..];
    assert b' == b[..j] + [(k, v)] + b[j + 1..];
    BucketAround(b, j, b[j]);
    BucketAround(b, j, (k, v));
    var x, y := LastWins(b[..j]), LastWins(b[j + 1..]);
    assert LastWins(b) == x + map[k := b[j].1] + y;
    assert LastWins(b') == x + map[k := v] + y;
    SwapMiddle(x, k, b[j].1, v, y);
    assert forall i :: 0 <= i < |b| ==> b'[i].0 == b[i].0;
  }

  /** Erasing position j of a bucket removes exactly its key. */
  lemma BucketErase<K, V>(b: seq<(K, V)>, j: nat)
    requires DistinctKeys(b) && j < |b|
    ensures LastWins(b[..j] + b[j + 1..]) == LastWins(b) - {b[j].0}
  {
    var pre, post := b[..j], b[j + 1..];
    assert b == pre + [b[j]] + post;
    BucketAround(b, j, b[j]);
    LastWinsAppend(pre, post);
    var x, y := LastWins(pre), LastWins(post);
    assert LastWins(b) == x + map[b[j].0 := b[j].1] + y;
    DropMiddle(x, b[j].0, b[j].1, y);
  }

  /** Erasing position j of a bucket keeps the remaining entries, in order. */
  lemma BucketEraseKeeps<K, V>(b: seq<(K, V)>, j: nat, r: seq<(K, V)>)
    requires j < |b| && r == b[..j] + b[j + 1..]
    ensures |r| == |b| - 1
    ensures forall x :: 0 <= x < |r| ==> r[x] == b[if x < j then x else x + 1]
  {
  }

  /** Erasing keeps a bucket free of repeated keys. */
  lemma BucketEraseDistinct<K, V>(b: seq<(K, V)>, j: nat, r: seq<(K, V)>)
    requires DistinctKeys(b) && j < |b| && r == b[..j] + b[j + 1..]
    ensures DistinctKeys(r)
  {
    BucketEraseKeeps(b, j, r);
    forall p, q | 0 <= p < q < |r|
      ensures r[p].0 != r[q].0
    {
      var p', q' := if p < j then p else p + 1, if q < j then q else q + 1;
      assert r[p] == b[p'] && r[q] == b[q'];
    }
  }

  /** `operator[]` on an absent key (HashMap.h:108-109): appending (k, v) to
      the key's bucket keeps the invariant, adds exactly that entry, and
      grows the entry count by one. */
  lemma AppendNew<K, V>(s: Table<K, V>, hash: K -> nat, k: K, v: V)
    requires TableValid(s, hash) && k !in TableMap(s)
    ensures var h := hash(k) % |s|;
            var t := s[h := s[h] + [(k, v)]];
            TableValid(t, hash) && TableMap(t) == TableMap(s)[k := v] &&
            |Flatten(t)| == |Flatten(s)| + 1
  {
    var h := hash(k) % |s|;
    var b := s[h] + [(k, v)];
    ReplaceBucket(s, h, b);
    KeyOnlyInItsBucket(s, hash, k);
    BucketAppend(s[h], k, v);
    UpdateMiddle(TableMap(s[..h]), LastWins(s[h]), TableMap(s[h + 1..]), k, v);
    ReplaceBucketValid(s, hash, h, b);
  }

  /** The write through the reference `operator[]` returns: the value of the
      entry at bucket i, position j, is replaced. */
  lemma OverwriteEntry<K, V>(s: Table<K, V>, hash: K -> nat, i: nat, j: nat, v: V)
    requires TableValid(s, hash) && i < |s| && j < |s[i]|
    ensures var k := s[i][j].0;
            var t := s[i := s[i][j := (k, v)]];
            TableValid(t, hash) && TableMap(t) == TableMap(s)[k := v] &&
            |Flatten(t)| == |Flatten(s)|
  {
    var k := s[i][j].0;
    var b := s[i][j := (k, v)];
    assert hash(k) % |s| == i;
    ReplaceBucket(s, i, b);
    KeyOnlyInItsBucket(s, hash, k);
    BucketOverwrite(s[i], j, v);
    UpdateMiddle(TableMap(s[..i]), LastWins(s[i]), TableMap(s[i + 1..]), k, v);
    assert forall x :: 0 <= x < |b| ==> b[x].0 == s[i][x].0;
    ReplaceBucketValid(s, hash, i, b);
  }

  /** `list::remove` of the entry at bucket i, position j (HashMap.h:180,
      189): the invariant holds afterwards, exactly that key is gone, and
      the entry count drops by one. */
  lemma RemoveEntry<K, V>(s: Table<K, V>, hash: K -> nat, i: nat, j: nat)
    requires TableValid(s, hash) && i < |s| && j < |s[i]|
    ensures var t := s[i := s[i][..j] + s[i][j + 1..]];
            TableValid(t, hash) && TableMap(t) == TableMap(s) - {s[i][j].0} &&
            |Flatten(t)| == |Flatten(s)| - 1
  {
    EraseKeepsValid(s, hash, i, j);
    EraseFromMap(s, hash, i, j);
  }

  lemma EraseFromMap<K, V>(s: Table<K, V>, hash: K -> nat, i: nat, j: nat)
    requires TableValid(s, hash) && i < |s| && j < |s[i]|
    ensures var t := s[i := s[i][..j] + s[i][j + 1..]];
            TableMap(t) == TableMap(s) - {s[i][j].0} && |Flatten(t)| == |Flatten(s)| - 1
  {
    var k := s[i][j].0;
    var b := s[i][..j] + s[i][j + 1..];
    assert hash(k) % |s| == i;
    ReplaceBucket(s, i, b);
    KeyOnlyInItsBucket(s, hash, k);
    BucketErase(s[i], j);
    RemoveMiddle(TableMap(s[..i]), LastWins(s[i]), TableMap(s[i + 1..]), k);
  }

  lemma EraseKeepsValid<K, V>(s: Table<K, V>, hash: K -> nat, i: nat, j: nat)
    requires TableValid(s, hash) && i < |s| && j < |s[i]|
    ensures TableValid(s[i := s[i][..j] + s[i][j + 1..]], hash)
  {
    var b := s[i][..j] + s[i][j + 1..];
    BucketEraseDistinct(s[i], j, b);
    BucketEraseKeeps(s[i], j, b);
    ReplaceBucketValid(s, hash, i, b);
  }

  /** `std::list::remove(value)`: every element equal to `p` is erased. */
  function Without<K(==), V(==)>(b: seq<(K, V)>, p: (K, V)): (r: seq<(K, V)>)
    ensures forall x :: 0 <= x < |r| ==> r[x] != p
  {
    if b == [] then []
    else (if b[0] == p then [] else [b[0]]) + Without(b[1..], p)
  }

  /** Every other element is kept, as often as it occurs. */
  lemma {:induction false} WithoutCounts<K, V>(b: seq<(K, V)>, p: (K, V))
    ensures multiset(Without(b, p)) == multiset(b)[p := 0]
  {
    if b != [] {
      assert b == [b[0]] + b[1..];
      WithoutCounts(b[1..], p);
    }
  }

  /** The kept elements stay in their order: removing from a concatenation
      removes from each part. */
  lemma {:induction false} WithoutAppend<K, V>(a: seq<(K, V)>, b: seq<(K, V)>, p: (K, V))
    ensures Without(a + b, p) == Without(a, p) + Without(b, p)
  {
    if a == [] {
      assert a + b == b;
    } else {
      var head := if a[0] == p then [] else [a[0]];
      calc {
        Without(a + b, p);
        { assert (a + b)[0] == a[0] && (a + b)[1..] == a[1..] + b; }
        head + Without(a[1..] + b, p);
        { WithoutAppend(a[1..], b, p); }
        head + (Without(a[1..], p) + Without(b, p));
        (head + Without(a[1..], p)) + Without(b, p);
        Without(a, p) + Without(b, p);
      }
    }
  }

  lemma {:induction false} WithoutAbsent<K, V>(b: seq<(K, V)>, p: (K, V))
    requires forall x :: 0 <= x < |b| ==> b[x] != p
    ensures Without(b, p) == b
  {
    if b != [] {
      WithoutAbsent(b[1..], p);
    }
  }

  /** In a bucket without repeated keys, removing the value of the entry at
      position j erases just that position. */
  lemma {:induction false} WithoutOne<K, V>(b: seq<(K, V)>, j: nat)
    requires DistinctKeys(b) && j < |b|
    ensures Without(b, b[j]) == b[..j] + b[j + 1..]
  {
    if j == 0 {
      WithoutAbsent(b[1..], b[0]);
    } else {
      assert b[0] != b[j];
      WithoutOne(b[1..], j - 1);
      assert b[1..][j - 1] == b[j];
      assert b[1..][..j - 1] == b[1..j];
      assert b[1..][j..] == b[j + 1..];
      assert [b[0]] + b[1..j] == b[..j];
    }
  }
}
