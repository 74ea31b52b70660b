/**
 * The final sort of `process_directory` (scripts/wavstomp.py):
 * `all_segments.sort(key=lambda x: (x[0], x[1], int(x[2][1:])))`.
 *
 * Python's `list.sort` is stable; it is modelled by a stable insertion
 * sort, and `StableSortUnique` shows that every sorted, stable
 * rearrangement of a list is this one, so the choice of algorithm does not
 * matter.
 */
module Ordering {
  import opened Wrappers
  import opened Strings
  import opened EventIds
  import opened Records

  /** The tuple the sort compares: participant text, condition text, number after the 'E'. */
  datatype SortKey = SortKey(participant: string, condition: string, number: int)

  /** Python's `<` on such tuples: element by element, strings by code point. */
  predicate KeyLess(a: SortKey, b: SortKey) {
    || StrLess(a.participant, b.participant)
    || (a.participant == b.participant && StrLess(a.condition, b.condition))
    || (a.participant == b.participant && a.condition == b.condition && a.number < b.number)
  }

  predicate KeyLe(a: SortKey, b: SortKey) {
    a == b || KeyLess(a, b)
  }

  lemma KeyLessIrreflexive(a: SortKey)
    ensures !KeyLess(a, a)
  {
    StrLessIrreflexive(a.participant);
    StrLessIrreflexive(a.condition);
  }

  lemma KeyLessTransitive(a: SortKey, b: SortKey, c: SortKey)
    requires KeyLess(a, b) && KeyLess(b, c)
    ensures KeyLess(a, c)
  {
    if StrLess(a.participant, b.participant) && StrLess(b.participant, c.participant) {
      StrLessTransitive(a.participant, b.participant, c.participant);
    }
    if a.participant == b.participant && b.participant == c.participant
       && StrLess(a.condition, b.condition) && StrLess(b.condition, c.condition) {
      StrLessTransitive(a.condition, b.condition, c.condition);
    }
  }

  lemma KeyLessTotal(a: SortKey, b: SortKey)
    requires a != b
    ensures KeyLess(a, b) || KeyLess(b, a)
  {
    if a.participant != b.participant {
      StrLessTotal(a.participant, b.participant);
    } else if a.condition != b.condition {
      StrLessTotal(a.condition, b.condition);
    }
  }

  lemma KeyLessAsymmetric(a: SortKey, b: SortKey)
    requires KeyLess(a, b)
    ensures !KeyLess(b, a)
  {
    if StrLess(a.participant, b.participant) {
      StrLessAsymmetric(a.participant, b.participant);
    } else if a.participant == b.participant {
      StrLessIrreflexive(a.participant);
      if StrLess(a.condition, b.condition) {
        StrLessAsymmetric(a.condition, b.condition);
      } else {
        StrLessIrreflexive(a.condition);
      }
    }
  }

  lemma KeyLeTransitive(a: SortKey, b: SortKey, c: SortKey)
    requires KeyLe(a, b) && KeyLe(b, c)
    ensures KeyLe(a, c)
  {
    if KeyLess(a, b) && KeyLess(b, c) {
      KeyLessTransitive(a, b, c);
    }
  }

  /**
   * Python's `sort(key=...)` first computes the key of every element
   * (`int(x[2][1:])` may raise, and then nothing is sorted) and then sorts
   * the decorated entries by key alone.
   */
  datatype Keyed = Keyed(key: SortKey, row: Row)

  /** The key lambda of line 127; None where `int` raises ValueError. */
  function KeyOf(r: Row): (k: Option<SortKey>)
    ensures k.Some? <==> ParseEventId(r.eventId).Some?
    ensures k.Some? ==> k.value.participant == r.participant && k.value.condition == r.condition
  {
    match ParseEventId(r.eventId)
    case Some(n) => Some(SortKey(r.participant, r.condition, n))
    case None => None
  }

  /** Every row has a key: `int` succeeds on every event id. */
  predicate KeysExist(rows: seq<Row>) {
    forall i :: 0 <= i < |rows| ==> KeyOf(rows[i]).Some?
  }

  /** Every row has a key and the keys never decrease. */
  predicate RowsInKeyOrder(rows: seq<Row>) {
    && KeysExist(rows)
    && forall i, j :: 0 <= i < j < |rows| ==>
         KeyOf(rows[i]).Some? && KeyOf(rows[j]).Some? && KeyLe(KeyOf(rows[i]).value, KeyOf(rows[j]).value)
  }

  /** The decoration step: every key, or None when one of them cannot be computed. */
  function Decorate(rows: seq<Row>): (r: Option<seq<Keyed>>)
    ensures r.Some? <==> KeysExist(rows)
    ensures r.Some? ==> |r.value| == |rows|
    ensures r.Some? ==> forall i :: 0 <= i < |rows| ==> r.value[i] == Keyed(KeyOf(rows[i]).value, rows[i])
  {
    if KeysExist(rows) then
      Some(seq(|rows|, i requires 0 <= i < |rows| => Keyed(KeyOf(rows[i]).value, rows[i])))
    else None
  }

  function Undecorate(ks: seq<Keyed>): (rows: seq<Row>)
    ensures |rows| == |ks| && forall i :: 0 <= i < |ks| ==> rows[i] == ks[i].row
  {
    seq(|ks|, i requires 0 <= i < |ks| => ks[i].row)
  }

  predicate SortedByKey(ks: seq<Keyed>) {
    forall i, j :: 0 <= i < j < |ks| ==> KeyLe(ks[i].key, ks[j].key)
  }

  /** Places `x` after every entry whose key is not greater than its own. */
  function Insert(sorted: seq<Keyed>, x: Keyed): (r: seq<Keyed>)
    ensures multiset(r) == multiset(sorted) + multiset{x}
    ensures multiset(Undecorate(r)) == multiset(Undecorate(sorted)) + multiset{x.row}
  {
    if |sorted| == 0 || KeyLe(sorted[|sorted| - 1].key, x.key) then
      assert Undecorate(sorted + [x]) == Undecorate(sorted) + [x.row];
      sorted + [x]
    else
      var init := sorted[..|sorted| - 1];
      var last := sorted[|sorted| - 1];
      assert sorted == init + [last];
      assert Undecorate(sorted) == Undecorate(init) + [last.row];
      var front := Insert(init, x);
      assert Undecorate(front + [last]) == Undecorate(front) + [last.row];
      front + [last]
  }

  /** The two branches of `Insert`, one step at a time. */
  lemma InsertStep(sorted: seq<Keyed>, x: Keyed)
    ensures |sorted| == 0 || KeyLe(sorted[|sorted| - 1].key, x.key) ==> Insert(sorted, x) == sorted + [x]
    ensures |sorted| > 0 && !KeyLe(sorted[|sorted| - 1].key, x.key) ==>
              Insert(sorted, x) == Insert(sorted[..|sorted| - 1], x) + [sorted[|sorted| - 1]]
  {
  }

  /** Appending an entry whose key bounds every key already present keeps entries sorted. */
  lemma SnocSorted(ks: seq<Keyed>, y: Keyed)
    requires SortedByKey(ks)
    requires forall z :: z in ks ==> KeyLe(z.key, y.key)
    ensures SortedByKey(ks + [y])
  {
    var r := ks + [y];
    forall i, j | 0 <= i < j < |r|
      ensures KeyLe(r[i].key, r[j].key)
    {
      assert r[i] == ks[i];
      if j < |ks| {
        assert r[j] == ks[j];
      } else {
        assert ks[i] in ks;
      }
    }
  }

  /** Inserting into sorted entries keeps them sorted. */
  lemma {:induction false} InsertSorted(sorted: seq<Keyed>, x: Keyed)
    requires SortedByKey(sorted)
    ensures SortedByKey(Insert(sorted, x))
    decreases |sorted|
  {
    if |sorted| == 0 || KeyLe(sorted[|sorted| - 1].key, x.key) {
      forall z | z in sorted
        ensures KeyLe(z.key, x.key)
      {
        var i :| 0 <= i < |sorted| && sorted[i] == z;
        KeyLeTransitive(sorted[i].key, sorted[|sorted| - 1].key, x.key);
      }
      SnocSorted(sorted, x);
    } else {
      var init := sorted[..|sorted| - 1];
      var last := sorted[|sorted| - 1];
      assert sorted == init + [last];
      InsertSorted(init, x);
      var front := Insert(init, x);
      KeyLessTotal(last.key, x.key);
      forall z | z in front
        ensures KeyLe(z.key, last.key)
      {
        assert z in multiset(front);
        if z != x {
          assert z in multiset(init);
          var k :| 0 <= k < |init| && init[k] == z;
          assert sorted[k] == z;
        }
      }
      SnocSorted(front, last);
    }
  }

  /** Insertion sort of decorated entries: a permutation, ordered by key. */
  function SortKeyed(ks: seq<Keyed>): (r: seq<Keyed>)
    ensures multiset(r) == multiset(ks)
    ensures multiset(Undecorate(r)) == multiset(Undecorate(ks))
    ensures |r| == |ks|
    ensures SortedByKey(r)
  {
    if |ks| == 0 then []
    else
      var init := ks[..|ks| - 1];
      var x := ks[|ks| - 1];
      assert ks == init + [x];
      assert Undecorate(ks) == Undecorate(init) + [x.row];
      var front := SortKeyed(init);
      InsertSorted(front, x);
      var r := Insert(front, x);
      assert |r| == |multiset(r)|;
      r
  }

  /**
   * The sort on line 127. It fails exactly when some event id has no
   * integer after its first character; otherwise the rows come out
   * rearranged (same multiset) in non-decreasing key order, and rows with
   * equal keys keep the order they had.
   */
  function SortRows(rows: seq<Row>): (r: Option<seq<Row>>)
    ensures r.Some? <==> KeysExist(rows)
    ensures r.Some? ==> multiset(r.value) == multiset(rows) && |r.value| == |rows|
    ensures r.Some? ==> RowsInKeyOrder(r.value)
    ensures r.Some? ==> SameRowsPerKey(r.value, rows)
  {
    var d := Decorate(rows);
    if d.None? then None
    else
      var out := Undecorate(SortKeyed(d.value));
      UndecoratedSort(rows, d.value, SortKeyed(d.value), out);
      Some(out)
  }

  lemma UndecoratedSort(rows: seq<Row>, ks: seq<Keyed>, sorted: seq<Keyed>, out: seq<Row>)
    requires Decorate(rows) == Some(ks) && sorted == SortKeyed(ks) && out == Undecorate(sorted)
    ensures multiset(out) == multiset(rows) && |out| == |rows|
    ensures RowsInKeyOrder(out)
    ensures SameRowsPerKey(out, rows)
  {
    DecoratePreservesRows(rows, ks);
    DecorateConsistent(rows, ks);
    SortedKeysAreRowKeys(ks, sorted);
    SortedRowKeys(sorted, out);
    forall k
      ensures RowsWithKey(out, k) == RowsWithKey(rows, k)
    {
      RowsWithKeyUndecorate(sorted, k);
      SortStable(ks, k);
      RowsWithKeyUndecorate(ks, k);
    }
  }

  lemma DecoratePreservesRows(rows: seq<Row>, ks: seq<Keyed>)
    requires Decorate(rows) == Some(ks)
    ensures Undecorate(ks) == rows
  {
  }

  lemma DecorateConsistent(rows: seq<Row>, ks: seq<Keyed>)
    requires Decorate(rows) == Some(ks)
    ensures Consistent(ks)
  {
    forall e | e in ks
      ensures KeyOf(e.row) == Some(e.key)
    {
      var i :| 0 <= i < |ks| && ks[i] == e;
      assert KeyOf(rows[i]).Some?;
    }
  }

  lemma SortedRowKeys(sorted: seq<Keyed>, out: seq<Row>)
    requires Consistent(sorted) && SortedByKey(sorted) && out == Undecorate(sorted)
    ensures RowsInKeyOrder(out)
  {
    forall i | 0 <= i < |out|
      ensures KeyOf(out[i]).Some?
    {
      assert sorted[i] in sorted;
    }
    forall i, j | 0 <= i < j < |out|
      ensures KeyOf(out[i]) == Some(sorted[i].key)
      ensures KeyOf(out[j]) == Some(sorted[j].key)
      ensures KeyLe(sorted[i].key, sorted[j].key)
    {
      assert sorted[i] in sorted && sorted[j] in sorted;
    }
  }

  /** Every decorated entry carries its own row's key, before and after sorting. */
  predicate Consistent(ks: seq<Keyed>) {
    forall e :: e in ks ==> KeyOf(e.row) == Some(e.key)
  }

  lemma SortedKeysAreRowKeys(ks: seq<Keyed>, sorted: seq<Keyed>)
    requires Consistent(ks) && multiset(sorted) == multiset(ks)
    ensures Consistent(sorted)
  {
    forall e | e in sorted
      ensures KeyOf(e.row) == Some(e.key)
    {
      assert e in multiset(sorted);
    }
  }

  lemma SplitLast(s: seq<Keyed>)
    requires |s| > 0
    ensures s == s[..|s| - 1] + [s[|s| - 1]]
  {
  }

  lemma SnocCancel(x: seq<Keyed>, y: seq<Keyed>, e: seq<Keyed>, f: seq<Keyed>)
    requires x + e == y + f && |e| == |f|
    ensures x == y && e == f
  {
    assert x == (x + e)[..|x|];
    assert y == (y + f)[..|y|];
    assert e == (x + e)[|x|..];
    assert f == (y + f)[|y|..];
  }

  /** The entries with key `k`, in order. */
  function WithKey(ks: seq<Keyed>, k: SortKey): seq<Keyed> {
    if |ks| == 0 then []
    else WithKey(ks[..|ks| - 1], k) + (if ks[|ks| - 1].key == k then [ks[|ks| - 1]] else [])
  }

  lemma WithKeySnoc(ks: seq<Keyed>, y: Keyed, k: SortKey)
    ensures WithKey(ks + [y], k) == WithKey(ks, k) + (if y.key == k then [y] else [])
  {
    assert (ks + [y])[..|ks|] == ks;
  }

  /** Insertion puts `x` after every entry of its own key. */
  lemma {:induction false} WithKeyInsert(sorted: seq<Keyed>, x: Keyed, k: SortKey)
    ensures WithKey(Insert(sorted, x), k) == WithKey(sorted, k) + (if x.key == k then [x] else [])
    decreases |sorted|
  {
    if |sorted| == 0 || KeyLe(sorted[|sorted| - 1].key, x.key) {
      InsertStep(sorted, x);
      WithKeySnoc(sorted, x, k);
    } else {
      var init := sorted[..|sorted| - 1];
      var last := sorted[|sorted| - 1];
      SplitLast(sorted);
      WithKeyInsert(init, x, k);
      var front := Insert(init, x);
      InsertStep(sorted, x);
      WithKeySnoc(front, last, k);
      WithKeySnoc(init, last, k);
      // `last` has a larger key than `x`, so at most one of them has key `k`.
      assert last.key != x.key;
    }
  }

  /**
   * Stability: for every key, the entries carrying it come out in the
   * order they went in.
   */
  lemma {:induction false} SortStable(ks: seq<Keyed>, k: SortKey)
    ensures WithKey(SortKeyed(ks), k) == WithKey(ks, k)
  {
    if |ks| > 0 {
      var init := ks[..|ks| - 1];
      SortStable(init, k);
      WithKeyInsert(SortKeyed(init), ks[|ks| - 1], k);
    }
  }

  /** Sorting sorted entries changes nothing. */
  lemma {:induction false} SortSortedIsIdentity(ks: seq<Keyed>)
    requires SortedByKey(ks)
    ensures SortKeyed(ks) == ks
  {
    if |ks| > 0 {
      var init := ks[..|ks| - 1];
      var last := ks[|ks| - 1];
      SplitLast(ks);
      assert SortedByKey(init);
      SortSortedIsIdentity(init);
      SortKeyedStep(ks);
      if |init| > 0 {
        assert KeyLe(ks[|ks| - 2].key, ks[|ks| - 1].key);
      }
      InsertStep(init, last);
    }
  }

  lemma SortKeyedStep(ks: seq<Keyed>)
    requires |ks| > 0
    ensures SortKeyed(ks) == Insert(SortKeyed(ks[..|ks| - 1]), ks[|ks| - 1])
  {
  }

  /** Sorting twice is sorting once. */
  lemma SortIdempotent(ks: seq<Keyed>)
    ensures SortKeyed(SortKeyed(ks)) == SortKeyed(ks)
  {
    SortSortedIsIdentity(SortKeyed(ks));
  }

  lemma {:induction false} WithKeyMembers(ks: seq<Keyed>, k: SortKey)
    ensures forall i :: 0 <= i < |WithKey(ks, k)| ==> WithKey(ks, k)[i] in ks && WithKey(ks, k)[i].key == k
  {
    if |ks| > 0 {
      WithKeyMembers(ks[..|ks| - 1], k);
    }
  }

  lemma WithKeyOfLast(ks: seq<Keyed>)
    requires |ks| > 0
    ensures WithKey(ks, ks[|ks| - 1].key) != []
  {
  }

  /** In sorted entries, every key present is at most the key of the last entry. */
  lemma KeyBelowLast(ks: seq<Keyed>, k: SortKey)
    requires SortedByKey(ks) && |ks| > 0
    requires WithKey(ks, k) != []
    ensures KeyLe(k, ks[|ks| - 1].key)
  {
    WithKeyMembers(ks, k);
    var y := WithKey(ks, k)[0];
    var i :| 0 <= i < |ks| && ks[i] == y;
    if i < |ks| - 1 {
      assert KeyLe(ks[i].key, ks[|ks| - 1].key);
    }
  }

  /**
   * A sorted list is determined by its per-key subsequences: any stable
   * sort of the same input, Python's included, yields `SortKeyed`.
   */
  lemma {:induction false} StableSortUnique(a: seq<Keyed>, b: seq<Keyed>)
    requires SortedByKey(a) && SortedByKey(b)
    requires forall k :: WithKey(a, k) == WithKey(b, k)
    ensures a == b
    decreases |a|
  {
    if |a| == 0 && |b| == 0 {
    } else if |a| == 0 {
      WithKeyOfLast(b);
      assert false;
    } else if |b| == 0 {
      WithKeyOfLast(a);
      assert false;
    } else {
      var la, lb := a[|a| - 1], b[|b| - 1];
      var ia, ib := a[..|a| - 1], b[..|b| - 1];
      assert a == ia + [la] && b == ib + [lb];
      assert WithKey(b, la.key) != [] by {
        assert WithKey(a, la.key) != [];
      }
      assert WithKey(a, lb.key) != [] by {
        assert WithKey(b, lb.key) != [];
      }
      KeyBelowLast(b, la.key);
      KeyBelowLast(a, lb.key);
      if la.key != lb.key {
        KeyLessAsymmetric(la.key, lb.key);
        assert false;
      }
      forall k
        ensures WithKey(ia, k) == WithKey(ib, k)
      {
        var ea := if la.key == k then [la] else [];
        var eb := if lb.key == k then [lb] else [];
        WithKeySnoc(ia, la, k);
        WithKeySnoc(ib, lb, k);
        SnocCancel(WithKey(ia, k), WithKey(ib, k), ea, eb);
      }
      assert la == lb by {
        WithKeySnoc(ia, la, la.key);
        WithKeySnoc(ib, lb, la.key);
        SnocCancel(WithKey(ia, la.key), WithKey(ib, la.key), [la], [lb]);
      }
      assert SortedByKey(ia) && SortedByKey(ib);
      StableSortUnique(ia, ib);
    }
  }

  /** Any sorted, stable rearrangement of the entries is the one `SortKeyed` gives. */
  lemma StableSortIsSortKeyed(ks: seq<Keyed>, other: seq<Keyed>)
    requires SortedByKey(other)
    requires forall k :: WithKey(other, k) == WithKey(ks, k)
    ensures other == SortKeyed(ks)
  {
    forall k
      ensures WithKey(other, k) == WithKey(SortKeyed(ks), k)
    {
      SortStable(ks, k);
    }
    StableSortUnique(other, SortKeyed(ks));
  }

  // ---------------------------------------------------------------------
  // The same facts for the rows themselves

  /** The rows whose key is `k`, in order. */
  function RowsWithKey(rows: seq<Row>, k: SortKey): seq<Row> {
    if |rows| == 0 then []
    else
      var last := rows[|rows| - 1];
      RowsWithKey(rows[..|rows| - 1], k) + (if KeyOf(last) == Some(k) then [last] else [])
  }

  /** For every key, the rows carrying it appear in the same order in both lists. */
  ghost predicate SameRowsPerKey(a: seq<Row>, b: seq<Row>) {
    forall k :: RowsWithKey(a, k) == RowsWithKey(b, k)
  }

  lemma UndecorateAppend(a: seq<Keyed>, b: seq<Keyed>)
    ensures Undecorate(a + b) == Undecorate(a) + Undecorate(b)
  {
  }

  /** Filtering consistent entries by key and then dropping the keys filters their rows. */
  lemma {:induction false} RowsWithKeyUndecorate(ks: seq<Keyed>, k: SortKey)
    requires Consistent(ks)
    ensures RowsWithKey(Undecorate(ks), k) == Undecorate(WithKey(ks, k))
  {
    if |ks| > 0 {
      var init := ks[..|ks| - 1];
      var last := ks[|ks| - 1];
      assert Consistent(init) by {
        forall e | e in init
          ensures KeyOf(e.row) == Some(e.key)
        {
          assert e in ks;
        }
      }
      RowsWithKeyUndecorate(init, k);
      assert Undecorate(ks)[..|ks| - 1] == Undecorate(init);
      assert last in ks;
      UndecorateAppend(WithKey(init, k), if last.key == k then [last] else []);
    }
  }

  /** Rows whose keys the entries carry decorate back to those entries. */
  lemma DecorateUndecorated(ks: seq<Keyed>)
    requires Consistent(ks)
    ensures Decorate(Undecorate(ks)) == Some(ks)
  {
    var rows := Undecorate(ks);
    forall i | 0 <= i < |rows|
      ensures KeyOf(rows[i]) == Some(ks[i].key)
    {
      assert ks[i] in ks;
    }
    assert KeysExist(rows);
    assert Decorate(rows).value == ks;
  }

  /** Consistent entries are determined by their rows. */
  lemma ConsistentRowsDetermine(a: seq<Keyed>, b: seq<Keyed>)
    requires Consistent(a) && Consistent(b) && Undecorate(a) == Undecorate(b)
    ensures a == b
  {
    forall i | 0 <= i < |a|
      ensures a[i] == b[i]
    {
      assert a[i] in a && b[i] in b;
    }
  }

  lemma WithKeyConsistent(ks: seq<Keyed>, k: SortKey)
    requires Consistent(ks)
    ensures Consistent(WithKey(ks, k))
  {
    WithKeyMembers(ks, k);
  }

  /** Sorting the sorted rows again gives the same rows. */
  lemma SortRowsIdempotent(rows: seq<Row>)
    requires SortRows(rows).Some?
    ensures SortRows(SortRows(rows).value) == SortRows(rows)
  {
    var ks := Decorate(rows).value;
    var sorted := SortKeyed(ks);
    DecorateConsistent(rows, ks);
    SortedKeysAreRowKeys(ks, sorted);
    DecorateUndecorated(sorted);
    SortSortedIsIdentity(sorted);
  }

  /**
   * The row-level uniqueness of a stable sort: any rows in key order that
   * keep every key's rows in their input order are exactly what line 127's
   * `sort` returns.
   */
  lemma StableSortRowsUnique(rows: seq<Row>, other: seq<Row>)
    requires KeysExist(rows)
    requires RowsInKeyOrder(other) && SameRowsPerKey(other, rows)
    ensures SortRows(rows) == Some(other)
  {
    var ks := Decorate(rows).value;
    var ko := Decorate(other).value;
    DecorateConsistent(rows, ks);
    DecorateConsistent(other, ko);
    DecoratePreservesRows(rows, ks);
    DecoratePreservesRows(other, ko);
    assert SortedByKey(ko) by {
      forall i, j | 0 <= i < j < |ko|
        ensures KeyLe(ko[i].key, ko[j].key)
      {
      }
    }
    forall k
      ensures WithKey(ko, k) == WithKey(ks, k)
    {
      RowsWithKeyUndecorate(ko, k);
      RowsWithKeyUndecorate(ks, k);
      WithKeyConsistent(ko, k);
      WithKeyConsistent(ks, k);
      ConsistentRowsDetermine(WithKey(ko, k), WithKey(ks, k));
    }
    StableSortIsSortKeyed(ks, ko);
  }
}
