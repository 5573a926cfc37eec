/** Which rows share payload bytes: the map a rebuild uses to copy shared bytes once. */
module PakSharing {
  import opened PakFormat
  import opened Sorting

  /** Both rows are on disk and denote the same extent. */
  predicate Alias(a: Row, b: Row) {
    !a.Staged() && !b.Staged() && a.offset == b.offset && a.Extent() == b.Extent()
  }

  /** j is the first row that shares row i's bytes; a staged row shares with nobody. */
  ghost predicate IsOwner(rows: seq<Row>, i: nat, j: nat)
    requires i < |rows|
  {
    && j <= i
    && (rows[i].Staged() ==> j == i)
    && (!rows[i].Staged() ==> Alias(rows[i], rows[j]) && forall k :: 0 <= k < j ==> !Alias(rows[i], rows[k]))
  }

  /** The map sends every row to its owner. */
  ghost predicate OwnerMap(rows: seq<Row>, owner: seq<nat>) {
    |owner| == |rows| && forall i :: 0 <= i < |rows| ==> IsOwner(rows, i, owner[i])
  }

  /** Owners own themselves, and two rows have one owner exactly when they share bytes. */
  lemma OwnerMapIsExact(rows: seq<Row>, owner: seq<nat>, i: nat, j: nat)
    requires OwnerMap(rows, owner) && i < |rows| && j < |rows|
    ensures owner[i] <= i && owner[owner[i]] == owner[i]
    ensures owner[i] == owner[j] <==> i == j || Alias(rows[i], rows[j])
  {
    assert IsOwner(rows, i, owner[i]) && IsOwner(rows, j, owner[j]);
    assert IsOwner(rows, owner[i], owner[owner[i]]);
    if Alias(rows[i], rows[j]) {
      assert forall k :: 0 <= k < |rows| ==> (Alias(rows[i], rows[k]) <==> Alias(rows[j], rows[k]));
    }
  }

  // ----- Building the map -----

  datatype Key = Key(offset: nat, extent: nat, idx: nat)

  /** The comparison the keys are sorted by. */
  predicate KeyLe(a: Key, b: Key) {
    if a.offset != b.offset then a.offset < b.offset
    else if a.extent != b.extent then a.extent < b.extent
    else a.idx <= b.idx
  }

  lemma KeyLeTotal()
    ensures TotalOrder(KeyLe)
  {}

  function KeyOf(rows: seq<Row>, i: nat): Key
    requires i < |rows|
  {
    Key(rows[i].offset, rows[i].Extent(), i)
  }

  /** keys lists the on-disk rows among the first n, in order. */
  ghost predicate Collected(rows: seq<Row>, n: nat, keys: seq<Key>)
    requires n <= |rows|
  {
    && (forall k <- keys :: k.idx < n && !rows[k.idx].Staged() && k == KeyOf(rows, k.idx))
    && (forall i :: 0 <= i < n && !rows[i].Staged() ==> KeyOf(rows, i) in keys)
  }

  method BuildOwners(rows: seq<Row>) returns (owner: array<nat>)
    ensures fresh(owner) && OwnerMap(rows, owner[..])
  {
    owner := new nat[|rows|];
    var keys: seq<Key> := [];
    for i := 0 to |rows|
      invariant forall k :: 0 <= k < i ==> owner[k] == k
      invariant Collected(rows, i, keys)
    {
      owner[i] := i;
      if !rows[i].Staged() {
        keys := keys + [KeyOf(rows, i)];
      }
    }
    ghost var unsorted := keys;
    keys := Sort(keys, KeyLe);
    KeyLeTotal();
    SortSorts(unsorted, KeyLe);
    CollectedPermutes(rows, unsorted, keys);
    ShareAlong(rows, keys, owner);
  }

  lemma CollectedPermutes(rows: seq<Row>, s: seq<Key>, t: seq<Key>)
    requires Collected(rows, |rows|, s) && multiset(s) == multiset(t)
    ensures Collected(rows, |rows|, t)
  {
    forall k: Key ensures k in s <==> k in t {
      SameElements(s, t, k);
    }
  }

  predicate SameBytes(a: Key, b: Key) {
    a.offset == b.offset && a.extent == b.extent
  }

  /** A key unlike the one before it is the first of its group, so its row owns the group. */
  lemma FirstOfGroup(rows: seq<Row>, keys: seq<Key>, i: nat)
    requires Collected(rows, |rows|, keys) && Sorted(keys, KeyLe) && i < |keys|
    requires i == 0 || !SameBytes(keys[i - 1], keys[i])
    ensures IsOwner(rows, keys[i].idx, keys[i].idx)
    ensures forall k :: 0 <= k < i ==> keys[k].idx != keys[i].idx
  {
    var x := keys[i].idx;
    assert keys[i] in keys;
    forall k | 0 <= k < i ensures !SameBytes(keys[k], keys[i]) {
      assert KeyLe(keys[k], keys[i]);
      if k < i - 1 { assert KeyLe(keys[k], keys[i - 1]); }
      assert KeyLe(keys[i - 1], keys[i]);
    }
    forall k | 0 <= k < i ensures keys[k].idx != x {
      assert keys[k] in keys;
    }
    forall p | 0 <= p < |keys| && SameBytes(keys[p], keys[i]) ensures keys[p].idx >= x {
      if p > i { assert KeyLe(keys[i], keys[p]); }
    }
    forall j | 0 <= j < x ensures !Alias(rows[x], rows[j]) {
      assert !rows[j].Staged() ==> KeyOf(rows, j) in keys;
    }
  }

  /** The first i keys have been dealt with: their rows have their owners, other rows themselves. */
  ghost predicate Shared(rows: seq<Row>, keys: seq<Key>, i: nat, owner: seq<nat>)
    requires i <= |keys| && forall k <- keys :: k.idx < |rows|
  {
    && |owner| == |rows|
    && (forall k :: 0 <= k < i ==> IsOwner(rows, keys[k].idx, owner[keys[k].idx]))
    && (forall x :: 0 <= x < |rows| && (forall k :: 0 <= k < i ==> keys[k].idx != x) ==> owner[x] == x)
  }

  /** Passes each group's owner along the sorted keys. */
  method ShareAlong(rows: seq<Row>, keys: seq<Key>, owner: array<nat>)
    requires Collected(rows, |rows|, keys) && Sorted(keys, KeyLe)
    requires owner.Length == |rows| && forall k :: 0 <= k < |rows| ==> owner[k] == k
    modifies owner
    ensures OwnerMap(rows, owner[..])
  {
    hide IsOwner, KeyOf, Sorted, Row.Staged;
    if |keys| > 0 {
      FirstOfGroup(rows, keys, 0);
      for i := 1 to |keys|
        invariant Shared(rows, keys, i, owner[..])
      {
        ghost var before := owner[..];
        assert keys[i] in keys && keys[i - 1] in keys;
        if SameBytes(keys[i], keys[i - 1]) {
          SortedPair(keys, i - 1, i);
          OwnerPasses(rows, keys[i - 1], keys[i], owner[keys[i - 1].idx]);
          owner[keys[i].idx] := owner[keys[i - 1].idx];
          assert owner[..] == before[keys[i].idx := before[keys[i - 1].idx]];
          SharedStep(rows, keys, i, before, before[keys[i - 1].idx]);
        } else {
          FirstOfGroup(rows, keys, i);
        }
      }
    }
    AllShared(rows, keys, owner[..]);
  }

  lemma SortedPair(keys: seq<Key>, i: nat, j: nat)
    requires Sorted(keys, KeyLe) && i < j < |keys|
    ensures KeyLe(keys[i], keys[j])
  {}

  lemma SharedStep(rows: seq<Row>, keys: seq<Key>, i: nat, owner: seq<nat>, o: nat)
    requires i < |keys| && forall k <- keys :: k.idx < |rows|
    requires Shared(rows, keys, i, owner) && IsOwner(rows, keys[i].idx, o)
    ensures Shared(rows, keys, i + 1, owner[keys[i].idx := o])
  {}

  lemma AllShared(rows: seq<Row>, keys: seq<Key>, owner: seq<nat>)
    requires Collected(rows, |rows|, keys) && Shared(rows, keys, |keys|, owner)
    ensures OwnerMap(rows, owner)
  {
    forall x | 0 <= x < |rows| ensures IsOwner(rows, x, owner[x]) {
      if !rows[x].Staged() {
        assert KeyOf(rows, x) in keys;
        var k :| 0 <= k < |keys| && keys[k] == KeyOf(rows, x);
        assert keys[k].idx == x;
      } else {
        forall k | 0 <= k < |keys| ensures keys[k].idx != x {
          assert keys[k] in keys;
        }
      }
    }
  }

  lemma OwnerPasses(rows: seq<Row>, a: Key, b: Key, o: nat)
    requires a.idx < |rows| && b.idx < |rows| && KeyLe(a, b) && SameBytes(a, b) && IsOwner(rows, a.idx, o)
    requires !rows[a.idx].Staged() && !rows[b.idx].Staged() && a == KeyOf(rows, a.idx) && b == KeyOf(rows, b.idx)
    ensures IsOwner(rows, b.idx, o)
  {}
}
