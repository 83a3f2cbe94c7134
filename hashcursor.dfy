/** HashMap::ConstIterator (src/HashMap.h:274-382) over a bucket table.

    An iterator is a bucket index and a position in that bucket's list, the
    list's end() being position |bucket|.  Like the source's iterators, these
    read the table they were made from: a mutation of the map invalidates
    them, so the functions take that table as a parameter. */
module HashCursors {
  import opened Common
  import opened Buckets

  /** Iterator equality (HashMap.h:371-374) compares both fields, which
      datatype equality does. */
  datatype HashCursor = HashCursor(index: nat, pos: nat)

  /** A position the list iterators can take: inside a bucket or at its
      end(). */
  predicate ValidCursor<K, V>(s: Table<K, V>, c: HashCursor)
  {
    c.index < |s| && c.pos <= |s[c.index]|
  }

  /** The number of entries an iteration from the first bucket has passed
      on reaching c. */
  function Flat<K, V>(s: Table<K, V>, c: HashCursor): nat
    requires ValidCursor(s, c)
  {
    Offset(s, c.index) + c.pos
  }

  /** The first non-empty bucket at or after i, or |s| when there is none. */
  function FirstNonEmpty<K, V>(s: Table<K, V>, i: nat): (j: nat)
    requires i <= |s|
    ensures i <= j <= |s|
    ensures forall m :: i <= m < j ==> s[m] == []
    ensures j < |s| ==> s[j] != []
    decreases |s| - i
  {
    if i == |s| then |s|
    else if s[i] != [] then i
    else FirstNonEmpty(s, i + 1)
  }

  /** The last non-empty bucket before i, or -1 when there is none. */
  function LastNonEmptyBelow<K, V>(s: Table<K, V>, i: nat): (j: int)
    requires i <= |s|
    ensures -1 <= j < i
    ensures forall m :: j < m < i ==> s[m] == []
    ensures j >= 0 ==> s[j] != []
  {
    if i == 0 then -1
    else if s[i - 1] != [] then i - 1
    else LastNonEmptyBelow(s, i - 1)
  }

  /** `cbegin()` (HashMap.h:225-236): the first entry of the lowest non-empty
      bucket, or the start of bucket 0 when the map is empty. */
  function BeginOf<K, V>(s: Table<K, V>): (c: HashCursor)
    requires |s| > 0
    ensures ValidCursor(s, c) && c.pos == 0
    ensures forall m :: 0 <= m < c.index ==> s[m] == []
    ensures s[c.index] != [] || forall m :: 0 <= m < |s| ==> s[m] == []
    ensures (forall m :: 0 <= m < |s| ==> s[m] == []) ==> c.index == 0
  {
    var i := FirstNonEmpty(s, 0);
    if i == |s| then HashCursor(0, 0) else HashCursor(i, 0)
  }

  /** `cend()` (HashMap.h:238-249): the end() of the highest non-empty
      bucket, or the end of (empty) bucket 0 when the map is empty. */
  function EndOf<K, V>(s: Table<K, V>): (c: HashCursor)
    requires |s| > 0
    ensures ValidCursor(s, c) && c.pos == |s[c.index]|
    ensures forall m :: c.index < m < |s| ==> s[m] == []
    ensures s[c.index] != [] || forall m :: 0 <= m < |s| ==> s[m] == []
    ensures (forall m :: 0 <= m < |s| ==> s[m] == []) ==> c.index == 0
  {
    var i := LastNonEmptyBelow(s, |s|);
    if i < 0 then HashCursor(0, |s[0]|) else HashCursor(i, |s[i]|)
  }

  /** `operator++` (HashMap.h:300-320): fails at a bucket's end; otherwise
      advances in the bucket and, when that reaches the bucket's end, jumps to
      the first entry of the next non-empty bucket if there is one. */
  function NextOf<K, V>(s: Table<K, V>, c: HashCursor): (r: Result<HashCursor>)
    requires ValidCursor(s, c)
    ensures r.Failure? <==> c.pos == |s[c.index]|
    ensures r.Failure? ==> r.error == InvalidOperation
    ensures r.Success? ==> ValidCursor(s, r.value)
  {
    var b := s[c.index];
    if c.pos == |b| then Failure(InvalidOperation)
    else if c.pos + 1 < |b| then Success(HashCursor(c.index, c.pos + 1))
    else
      var j := FirstNonEmpty(s, c.index + 1);
      if j < |s| then Success(HashCursor(j, 0)) else Success(HashCursor(c.index, c.pos + 1))
  }

  /** `operator--` (HashMap.h:329-350) as evidently intended: steps back in
      the bucket, or to the last entry of the previous non-empty bucket, and
      fails (the throw at line 349) when there is none. */
  function PrevOf<K, V>(s: Table<K, V>, c: HashCursor): (r: Result<HashCursor>)
    requires ValidCursor(s, c)
    ensures r.Failure? ==> r.error == InvalidOperation && c.pos == 0
    ensures r.Success? ==> ValidCursor(s, r.value) && r.value.pos < |s[r.value.index]|
  {
    if c.pos > 0 then Success(HashCursor(c.index, c.pos - 1))
    else if c.index == 0 then Failure(InvalidOperation)
    else
      var j := LastNonEmptyBelow(s, c.index);
      if j < 0 then Failure(InvalidOperation) else Success(HashCursor(j, |s[j]| - 1))
  }

  /** `operator*` (HashMap.h:359-364): the entry, or a failure at a bucket's
      end. */
  function DerefOf<K, V>(s: Table<K, V>, c: HashCursor): (r: Result<(K, V)>)
    requires ValidCursor(s, c)
    ensures r.Failure? <==> c.pos == |s[c.index]|
    ensures r.Success? ==> r.value == s[c.index][c.pos]
    ensures r.Success? ==> Flat(s, c) < |Flatten(s)| && r.value == Flatten(s)[Flat(s, c)]
  {
    if c.pos == |s[c.index]| then Failure(InvalidOperation)
    else
      EntryPosition(s, c.index, c.pos);
      Success(s[c.index][c.pos])
  }

  /** The iterator reached by p applications of `++` from `cbegin()`: the
      p-th entry, or `cend()` after the last. */
  function CursorAtFlat<K, V>(s: Table<K, V>, p: nat): (c: HashCursor)
    requires |s| > 0 && p <= |Flatten(s)|
  {
    if p < |Flatten(s)| then
      var l := Locate(s, p);
      HashCursor(l.0, l.1)
    else EndOf(s)
  }

  /** The iterator reached by applying `++` `steps` times. */
  function Walk<K, V>(s: Table<K, V>, c: HashCursor, steps: nat): (r: Result<HashCursor>)
    requires ValidCursor(s, c)
    ensures r.Success? ==> ValidCursor(s, r.value)
  {
    if steps == 0 then Success(c)
    else
      match Walk(s, c, steps - 1)
      case Success(c') => NextOf(s, c')
      case Failure(e) => Failure(e)
  }

  /** The last non-empty bucket below b fixes how many entries precede b. */
  lemma LastNonEmptyOffset<K, V>(s: Table<K, V>, b: nat)
    requires b <= |s|
    ensures var j := LastNonEmptyBelow(s, b);
            Offset(s, b) == if j < 0 then 0 else Offset(s, j + 1)
  {
    var j := LastNonEmptyBelow(s, b);
    OffsetFacts(s);
    OffsetGap(s, j + 1, b);
  }

  /** A non-empty bucket i followed only by empty ones below b is the last
      non-empty bucket below b. */
  lemma {:induction false} LastNonEmptyIs<K, V>(s: Table<K, V>, i: nat, b: nat)
    requires i < b <= |s| && s[i] != []
    requires forall x :: i < x < b ==> s[x] == []
    ensures LastNonEmptyBelow(s, b) == i
  {
    if b - 1 != i {
      LastNonEmptyIs(s, i, b - 1);
    }
  }

  /** With only empty buckets below b, there is no non-empty one. */
  lemma {:induction false} LastNonEmptyNone<K, V>(s: Table<K, V>, b: nat)
    requires b <= |s|
    requires forall x :: 0 <= x < b ==> s[x] == []
    ensures LastNonEmptyBelow(s, b) == -1
  {
    if b > 0 {
      LastNonEmptyNone(s, b - 1);
    }
  }

  /** `cend()` stands after every entry, and no entry is at `cend()`. */
  lemma EndIsAfterAll<K, V>(s: Table<K, V>)
    requires |s| > 0
    ensures ValidCursor(s, EndOf(s)) && Flat(s, EndOf(s)) == |Flatten(s)|
    ensures EndOf(s).pos == |s[EndOf(s).index]|
  {
    OffsetFacts(s);
    LastNonEmptyOffset(s, |s|);
    var j := LastNonEmptyBelow(s, |s|);
    if j < 0 {
      assert s[0] == [];
    }
  }

  /** `cbegin()` is the iterator at entry 0. */
  lemma BeginIsFirst<K, V>(s: Table<K, V>)
    requires |s| > 0
    ensures BeginOf(s) == CursorAtFlat(s, 0)
  {
    var i := FirstNonEmpty(s, 0);
    OffsetFacts(s);
    OffsetGap(s, 0, i);
    if i < |s| {
      LocateUnique(s, i, 0);
    } else {
      LastNonEmptyNone(s, |s|);
    }
  }

  /** `++` from the iterator at entry p reaches the one at entry p + 1, the
      last entry stepping to `cend()`. */
  lemma NextStepsForward<K, V>(s: Table<K, V>, p: nat)
    requires |s| > 0 && p < |Flatten(s)|
    ensures ValidCursor(s, CursorAtFlat(s, p))
    ensures NextOf(s, CursorAtFlat(s, p)) == Success(CursorAtFlat(s, p + 1))
  {
    var l := Locate(s, p);
    var i, q := l.0, l.1;
    var c := HashCursor(i, q);
    assert CursorAtFlat(s, p) == c;
    OffsetFacts(s);
    if q + 1 < |s[i]| {
      LocateUnique(s, i, q + 1);
      assert NextOf(s, c) == Success(HashCursor(i, q + 1));
      assert CursorAtFlat(s, p + 1) == HashCursor(i, q + 1);
    } else {
      var j := FirstNonEmpty(s, i + 1);
      OffsetGap(s, i + 1, j);
      if j < |s| {
        assert NextOf(s, c) == Success(HashCursor(j, 0));
        LocateUnique(s, j, 0);
        assert Offset(s, j) == p + 1;
        assert CursorAtFlat(s, p + 1) == HashCursor(j, 0);
      } else {
        assert NextOf(s, c) == Success(HashCursor(i, q + 1));
        LastNonEmptyIs(s, i, |s|);
        assert p + 1 == |Flatten(s)|;
        assert CursorAtFlat(s, p + 1) == EndOf(s) == HashCursor(i, |s[i]|);
      }
    }
  }

  lemma PrevFromEntry<K, V>(s: Table<K, V>, p: nat)
    requires |s| > 0 && p + 1 < |Flatten(s)|
    ensures ValidCursor(s, CursorAtFlat(s, p + 1))
    ensures PrevOf(s, CursorAtFlat(s, p + 1)) == Success(CursorAtFlat(s, p))
  {
    OffsetFacts(s);
    var l := Locate(s, p + 1);
    var i, q := l.0, l.1;
    assert CursorAtFlat(s, p + 1) == HashCursor(i, q);
    if q > 0 {
      LocateUnique(s, i, q - 1);
      assert CursorAtFlat(s, p) == HashCursor(i, q - 1);
    } else {
      assert Offset(s, i) == p + 1 && i > 0;
      LastNonEmptyOffset(s, i);
      var j := LastNonEmptyBelow(s, i);
      assert j >= 0 && Offset(s, j + 1) == p + 1;
      assert PrevOf(s, HashCursor(i, q)) == Success(HashCursor(j, |s[j]| - 1));
      LocateUnique(s, j, |s[j]| - 1);
      assert Offset(s, j) + |s[j]| - 1 == p;
      assert CursorAtFlat(s, p) == HashCursor(j, |s[j]| - 1);
    }
  }

  lemma PrevFromEnd<K, V>(s: Table<K, V>)
    requires |s| > 0 && |Flatten(s)| > 0
    ensures ValidCursor(s, EndOf(s))
    ensures PrevOf(s, EndOf(s)) == Success(CursorAtFlat(s, |Flatten(s)| - 1))
  {
    OffsetFacts(s);
    LastNonEmptyOffset(s, |s|);
    var j := LastNonEmptyBelow(s, |s|);
    assert j >= 0;
    assert EndOf(s) == HashCursor(j, |s[j]|);
    assert PrevOf(s, EndOf(s)) == Success(HashCursor(j, |s[j]| - 1));
    LocateUnique(s, j, |s[j]| - 1);
    assert Offset(s, j) + |s[j]| - 1 == |Flatten(s)| - 1;
    assert CursorAtFlat(s, |Flatten(s)| - 1) == HashCursor(j, |s[j]| - 1);
  }

  /** `--` from the iterator at entry p + 1 (from `cend()` after the last
      entry) returns to the one at entry p: `--` undoes `++`. */
  lemma PrevStepsBack<K, V>(s: Table<K, V>, p: nat)
    requires |s| > 0 && p < |Flatten(s)|
    ensures ValidCursor(s, CursorAtFlat(s, p + 1))
    ensures PrevOf(s, CursorAtFlat(s, p + 1)) == Success(CursorAtFlat(s, p))
  {
    if p + 1 < |Flatten(s)| {
      PrevFromEntry(s, p);
    } else {
      PrevFromEnd(s);
    }
  }

  /** `--` at `cbegin()` fails, whichever bucket holds the first entry (the
      throws at HashMap.h:336 and 349). */
  lemma PrevAtBeginFails<K, V>(s: Table<K, V>)
    requires |s| > 0
    ensures ValidCursor(s, BeginOf(s))
    ensures PrevOf(s, BeginOf(s)) == Failure(InvalidOperation)
  {
    var i := FirstNonEmpty(s, 0);
    if 0 < i < |s| {
      LastNonEmptyNone(s, i);
    }
  }

  /** The full iteration: after p steps from `cbegin()` the iterator is at
      entry p, dereferencing to the p-th entry of the table; after exactly
      as many steps as there are entries it equals `cend()`, where `*` and
      one more `++` fail.  With GlobalDistinct and SizeIsCount, this visits
      each key of the map exactly once, `getSize()` steps in all. */
  lemma {:induction false} WalkVisitsAll<K, V>(s: Table<K, V>, p: nat)
    requires |s| > 0 && p <= |Flatten(s)|
    ensures ValidCursor(s, BeginOf(s))
    ensures Walk(s, BeginOf(s), p) == Success(CursorAtFlat(s, p))
    ensures p < |Flatten(s)| ==> DerefOf(s, CursorAtFlat(s, p)) == Success(Flatten(s)[p])
    ensures p == |Flatten(s)| ==>
              CursorAtFlat(s, p) == EndOf(s) &&
              DerefOf(s, EndOf(s)) == Failure(InvalidOperation) &&
              Walk(s, BeginOf(s), p + 1) == Failure(InvalidOperation)
  {
    BeginIsFirst(s);
    EndIsAfterAll(s);
    if p > 0 {
      WalkVisitsAll(s, p - 1);
      NextStepsForward(s, p - 1);
    } else if p < |Flatten(s)| {
      NextStepsForward(s, 0);
    }
  }

  /** size_t arithmetic is modulo 2^64. */
  const SizeMax: nat := 0x1_0000_0000_0000_0000

  /** What `operator--` does as written: move, throw, or read a bucket past
      the end of the table. */
  datatype Step = Moved(c: HashCursor) | Threw | ReadsOutOfBounds(index: nat)

  /** The backward scan of HashMap.h:338-347 as written: `i` is a size_t,
      so `i >= 0` always holds and `--i` at 0 wraps to SIZE_MAX; the scan
      then reads `hashTable[SIZE_MAX]`. */
  function ScanDownAsWritten<K, V>(s: Table<K, V>, i: nat): (r: Step)
    requires |s| < SizeMax && i < SizeMax
    ensures !r.Threw?
    ensures r.Moved? ==>
              r.c.index <= i < |s| && s[r.c.index] != [] && r.c.pos == |s[r.c.index]| - 1 &&
              forall m :: r.c.index < m <= i ==> s[m] == []
    ensures r.ReadsOutOfBounds? ==> |s| <= r.index < SizeMax
    decreases if i < |s| then i + 1 else 0
  {
    if i >= |s| then ReadsOutOfBounds(i)
    else if s[i] != [] then Moved(HashCursor(i, |s[i]| - 1))
    else ScanDownAsWritten(s, if i == 0 then SizeMax - 1 else i - 1)
  }

  /** `operator--` (HashMap.h:329-350) as written. */
  function PrevAsWritten<K, V>(s: Table<K, V>, c: HashCursor): (r: Step)
    requires ValidCursor(s, c) && |s| < SizeMax
    ensures r.Threw? <==> c.pos == 0 && c.index == 0
    ensures r.Moved? ==> ValidCursor(s, r.c) && r.c.pos < |s[r.c.index]| && r.c.index <= c.index
    ensures r.ReadsOutOfBounds? ==> |s| <= r.index < SizeMax
  {
    if c.pos > 0 then Moved(HashCursor(c.index, c.pos - 1))
    else if c.index == 0 then Threw
    else ScanDownAsWritten(s, c.index - 1)
  }

  lemma {:induction false} ScanFindsLast<K, V>(s: Table<K, V>, i: nat)
    requires |s| < SizeMax && i < |s| && LastNonEmptyBelow(s, i + 1) >= 0
    ensures var j := LastNonEmptyBelow(s, i + 1);
            ScanDownAsWritten(s, i) == Moved(HashCursor(j, |s[j]| - 1))
  {
    if s[i] == [] {
      ScanFindsLast(s, i - 1);
    }
  }

  lemma {:induction false} ScanOverEmpties<K, V>(s: Table<K, V>, i: nat)
    requires |s| < SizeMax && i < |s|
    requires forall x :: 0 <= x <= i ==> s[x] == []
    ensures ScanDownAsWritten(s, i) == ReadsOutOfBounds(SizeMax - 1)
  {
    if i > 0 {
      ScanOverEmpties(s, i - 1);
    }
  }

  /** Wherever the intended `--` succeeds, the code as written does the same. */
  lemma PrevAsWrittenAgrees<K, V>(s: Table<K, V>, c: HashCursor)
    requires ValidCursor(s, c) && |s| < SizeMax && PrevOf(s, c).Success?
    ensures PrevAsWritten(s, c) == Moved(PrevOf(s, c).value)
  {
    if c.pos == 0 {
      ScanFindsLast(s, c.index - 1);
    }
  }

  /** When the first entry is not in bucket 0, `--` at `cbegin()` as written
      never reaches the throw at line 349: the unsigned counter wraps and the
      scan reads bucket SIZE_MAX, out of the table's bounds. */
  lemma PrevAsWrittenOverrunsAtBegin<K, V>(s: Table<K, V>)
    requires 0 < |s| < SizeMax && BeginOf(s).index > 0
    ensures ValidCursor(s, BeginOf(s))
    ensures PrevAsWritten(s, BeginOf(s)) == ReadsOutOfBounds(SizeMax - 1)
    ensures PrevOf(s, BeginOf(s)) == Failure(InvalidOperation)
  {
    PrevAtBeginFails(s);
    ScanOverEmpties(s, BeginOf(s).index - 1);
  }

  /** The smallest instance: two buckets, one entry in bucket 1. */
  lemma PrevAsWrittenCounterexample<K, V>(k: K, v: V)
    ensures var s: Table<K, V> := [[], [(k, v)]];
            BeginOf(s) == HashCursor(1, 0) &&
            PrevAsWritten(s, HashCursor(1, 0)) == ReadsOutOfBounds(SizeMax - 1) &&
            PrevOf(s, HashCursor(1, 0)) == Failure(InvalidOperation)
  {
    var s: Table<K, V> := [[], [(k, v)]];
    assert FirstNonEmpty(s, 0) == 1;
    assert ScanDownAsWritten(s, 0) == ReadsOutOfBounds(SizeMax - 1);
  }
}
