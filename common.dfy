/** Helpers shared by both map backends: failure results, and the maps that a
    sequence of (key, value) pairs denotes. */
module Common {

  /** The two situations in which the containers throw std::out_of_range:
      an operation on a key (or iterator) that designates no entry of the
      map, and an iterator moved or dereferenced where it has no element. */
  datatype Error = NotFound | InvalidOperation

  datatype Result<T> = Success(value: T) | Failure(error: Error)

  datatype Outcome = Done | Fail(error: Error)

  datatype Option<T> = None | Some(value: T)

  /** The set of keys occurring in a sequence of pairs. */
  ghost function KeysOf<K, V>(pairs: seq<(K, V)>): set<K>
  {
    set i | 0 <= i < |pairs| :: pairs[i].0
  }

  /** No key occurs twice. */
  predicate DistinctKeys<K(==), V>(pairs: seq<(K, V)>)
  {
    forall i, j :: 0 <= i < j < |pairs| ==> pairs[i].0 != pairs[j].0
  }

  /** The map obtained by storing the pairs in order, a later pair for a key
      overwriting an earlier one (what `m[k] = v` does for each pair). */
  function LastWins<K(==), V>(pairs: seq<(K, V)>): (m: map<K, V>)
    ensures m.Keys == KeysOf(pairs)
  {
    if pairs == [] then map[]
    else
      var init := pairs[..|pairs| - 1];
      var last := pairs[|pairs| - 1];
      assert pairs == init + [last];
      LastWins(init)[last.0 := last.1]
  }

  /** The map obtained by inserting the pairs in order where an insertion of a
      key already present is ignored, so the first pair for a key is kept. */
  function FirstWins<K(==), V>(pairs: seq<(K, V)>): (m: map<K, V>)
    ensures m.Keys == KeysOf(pairs)
  {
    if pairs == [] then map[]
    else
      var init := pairs[..|pairs| - 1];
      var last := pairs[|pairs| - 1];
      assert pairs == init + [last];
      var m := FirstWins(init);
      if last.0 in m then m else m[last.0 := last.1]
  }

  /** One more pair: FirstWins adds it only when its key is new. */
  lemma FirstWinsStep<K, V>(pairs: seq<(K, V)>, i: nat)
    requires i < |pairs|
    ensures var m := FirstWins(pairs[..i]);
            FirstWins(pairs[..i + 1]) == if pairs[i].0 in m then m else m[pairs[i].0 := pairs[i].1]
  {
    assert pairs[..i + 1][..i] == pairs[..i];
  }

  /** One more pair: LastWins stores it whether or not its key is new. */
  lemma LastWinsStep<K, V>(pairs: seq<(K, V)>, i: nat)
    requires i < |pairs|
    ensures LastWins(pairs[..i + 1]) == LastWins(pairs[..i])[pairs[i].0 := pairs[i].1]
  {
    assert pairs[..i + 1][..i] == pairs[..i];
  }

  /** Appending one pair stores it over whatever the key held. */
  lemma LastWinsSnoc<K, V>(pairs: seq<(K, V)>, p: (K, V))
    ensures LastWins(pairs + [p]) == LastWins(pairs)[p.0 := p.1]
  {
    assert (pairs + [p])[..|pairs|] == pairs;
  }

  /** The value LastWins keeps for a key is the one of its last pair. */
  lemma {:induction false} LastWinsKeepsLast<K, V>(pairs: seq<(K, V)>, i: nat)
    requires i < |pairs|
    requires forall j :: i < j < |pairs| ==> pairs[j].0 != pairs[i].0
    ensures pairs[i].0 in LastWins(pairs) && LastWins(pairs)[pairs[i].0] == pairs[i].1
  {
    if i < |pairs| - 1 {
      LastWinsKeepsLast(pairs[..|pairs| - 1], i);
    }
  }

  /** The value FirstWins keeps for a key is the one of its first pair. */
  lemma {:induction false} FirstWinsKeepsFirst<K, V>(pairs: seq<(K, V)>, i: nat)
    requires i < |pairs|
    requires forall j :: 0 <= j < i ==> pairs[j].0 != pairs[i].0
    ensures pairs[i].0 in FirstWins(pairs) && FirstWins(pairs)[pairs[i].0] == pairs[i].1
  {
    var init := pairs[..|pairs| - 1];
    if i < |pairs| - 1 {
      FirstWinsKeepsFirst(init, i);
    } else {
      assert forall j :: 0 <= j < |init| ==> init[j].0 != pairs[i].0;
      assert pairs[i].0 !in KeysOf(init);
    }
  }

  /** Storing two runs of pairs one after the other is the override union of
      storing each. */
  lemma {:induction false} LastWinsAppend<K, V>(a: seq<(K, V)>, b: seq<(K, V)>)
    ensures LastWins(a + b) == LastWins(a) + LastWins(b)
  {
    if b != [] {
      var init := b[..|b| - 1];
      var last := b[|b| - 1];
      assert (a + b)[..|a + b| - 1] == a + init;
      LastWinsAppend(a, init);
    } else {
      assert a + b == a;
    }
  }

  /** With distinct keys, the map has one entry per pair. */
  lemma {:induction false} LastWinsCard<K, V>(pairs: seq<(K, V)>)
    requires DistinctKeys(pairs)
    ensures |LastWins(pairs)| == |pairs|
  {
    if pairs != [] {
      var init := pairs[..|pairs| - 1];
      var last := pairs[|pairs| - 1];
      LastWinsCard(init);
      assert forall j :: 0 <= j < |init| ==> init[j].0 != last.0;
      assert last.0 !in KeysOf(init);
    }
  }

  /** Two maps of the same size, one of which contains every entry of the
      other, are equal: the order-independent map equality of both backends. */
  lemma SameSizeSubmapEqual<K, V>(a: map<K, V>, b: map<K, V>)
    requires |a| == |b|
    requires forall k :: k in b ==> k in a && a[k] == b[k]
    ensures a == b
  {
    assert b.Keys <= a.Keys;
    var extra := a.Keys - b.Keys;
    assert a.Keys == b.Keys + extra;
    assert |a.Keys| == |b.Keys| + |extra|;
    assert |extra| == 0;
    assert a.Keys == b.Keys;
  }

  /** Overwriting the value of a present key keeps the number of entries. */
  lemma KeepsCount<K, V>(m: map<K, V>, k: K, v: V)
    requires k in m
    ensures |m[k := v]| == |m|
  {
    assert m[k := v].Keys == m.Keys;
  }

  // Map identities used when a subtree's map changes inside l + {x := w} + r.

  lemma UpdateLeftPart<K, V>(a: map<K, V>, b: map<K, V>, c: map<K, V>, k: K, v: V)
    requires k !in b && k !in c
    ensures a[k := v] + b + c == (a + b + c)[k := v]
  {
  }

  lemma UpdateRightPart<K, V>(a: map<K, V>, b: map<K, V>, c: map<K, V>, k: K, v: V)
    ensures a + b + c[k := v] == (a + b + c)[k := v]
  {
  }

  lemma RemoveFromLeftPart<K, V>(a: map<K, V>, b: map<K, V>, c: map<K, V>, k: K)
    requires k !in b && k !in c
    ensures (a - {k}) + b + c == (a + b + c) - {k}
  {
  }

  lemma RemoveFromRightPart<K, V>(a: map<K, V>, b: map<K, V>, c: map<K, V>, k: K)
    requires k !in a && k !in b
    ensures a + b + (c - {k}) == (a + b + c) - {k}
  {
  }

  lemma UpdateMiddle<K, V>(a: map<K, V>, b: map<K, V>, c: map<K, V>, k: K, v: V)
    requires k !in c
    ensures a + b[k := v] + c == (a + b + c)[k := v]
  {
  }

  lemma RemoveMiddle<K, V>(a: map<K, V>, b: map<K, V>, c: map<K, V>, k: K)
    requires k !in a && k !in c
    ensures a + (b - {k}) + c == (a + b + c) - {k}
  {
  }

  lemma SwapMiddle<K, V>(a: map<K, V>, k: K, w: V, v: V, c: map<K, V>)
    requires k !in c
    ensures a + map[k := v] + c == (a + map[k := w] + c)[k := v]
  {
  }

  lemma DropMiddle<K, V>(a: map<K, V>, k: K, w: V, c: map<K, V>)
    requires k !in a && k !in c
    ensures a + c == (a + map[k := w] + c) - {k}
  {
  }

  lemma ReplaceMiddle<K, V>(a: map<K, V>, x: K, w: V, c: map<K, V>, s: K)
    requires s in c && x !in a && x !in c && s !in a
    ensures a + map[s := c[s]] + (c - {s}) == (a + map[x := w] + c) - {x}
  {
  }
}
