/**
 * The record sort of the index pages: `records.sort(key=..., reverse=...)`.
 * The key is the integer `stt` when sorting by `stt`, and otherwise the
 * lower-cased text of the chosen field, a missing field counting as `''`.
 * Python's sort is stable, also with `reverse=True`.
 */
module RecordSort {
  import opened Text
  import opened Records

  /** The value of the key function for one record. */
  datatype SortKey = Number(n: int) | Word(w: string)

  /** The key function of the index handlers. */
  function KeyOf(r: Record, sortBy: string): SortKey
  {
    if sortBy == "stt" then Number(r.stt) else Word(Lower(Field(r, sortBy)))
  }

  /** `key_func` as a function value, what the sort is parameterised by. */
  function KeyFunction(sortBy: string): Record -> SortKey
  {
    r => KeyOf(r, sortBy)
  }

  /** Python's `<` on keys: integers numerically, strings by code point. All
      keys of one sort are of the same kind; a number is put before a word
      only to make the order total. */
  predicate KeyLt(a: SortKey, b: SortKey)
  {
    match (a, b)
    case (Number(x), Number(y)) => x < y
    case (Word(x), Word(y)) => StrLt(x, y)
    case (Number(_), Word(_)) => true
    case (Word(_), Number(_)) => false
  }

  lemma KeyLtIsStrictTotalOrder(a: SortKey, b: SortKey, c: SortKey)
    ensures !KeyLt(a, a)
    ensures KeyLt(a, b) && KeyLt(b, c) ==> KeyLt(a, c)
    ensures a == b || KeyLt(a, b) || KeyLt(b, a)
  {
    if a.Word? {
      StrLtIrreflexive(a.w);
      if b.Word? {
        StrLtTotal(a.w, b.w);
        if c.Word? && StrLt(a.w, b.w) && StrLt(b.w, c.w) {
          StrLtTransitive(a.w, b.w, c.w);
        }
      }
    }
  }

  /** "`a` goes strictly before `b`": the key order, turned round by
      `reverse=True`. */
  predicate Precedes(a: SortKey, b: SortKey, desc: bool)
  {
    if desc then KeyLt(b, a) else KeyLt(a, b)
  }

  /** Neither key goes before the other only when they are equal. */
  lemma PrecedesTotal(a: SortKey, b: SortKey, desc: bool)
    ensures a == b || Precedes(a, b, desc) || Precedes(b, a, desc)
    ensures !Precedes(a, a, desc)
  {
    KeyLtIsStrictTotalOrder(a, b, a);
  }

  lemma PrecedesAsymmetric(a: SortKey, b: SortKey, desc: bool)
    requires Precedes(a, b, desc)
    ensures !Precedes(b, a, desc) && a != b
  {
    KeyLtIsStrictTotalOrder(a, b, a);
  }

  lemma PrecedesTransitive(a: SortKey, b: SortKey, c: SortKey, desc: bool)
    requires Precedes(a, b, desc) && Precedes(b, c, desc)
    ensures Precedes(a, c, desc)
  {
    if desc {
      KeyLtIsStrictTotalOrder(c, b, a);
    } else {
      KeyLtIsStrictTotalOrder(a, b, c);
    }
  }

  /** "Not after" is transitive. */
  lemma NotPrecedesTransitive(a: SortKey, b: SortKey, c: SortKey, desc: bool)
    requires !Precedes(b, a, desc) && !Precedes(c, b, desc)
    ensures !Precedes(c, a, desc)
  {
    if Precedes(c, a, desc) {
      PrecedesTotal(a, b, desc);
      if Precedes(a, b, desc) {
        PrecedesTransitive(c, a, b, desc);
      }
    }
  }

  /** Inserts `x` after every element that it does not strictly precede:
      scanning from the right, as insertion sort does, so that equal keys stay
      in arrival order. */
  function Insert(x: Record, s: seq<Record>, key: Record -> SortKey, desc: bool): seq<Record>
    decreases |s|
  {
    if s == [] || !Precedes(key(x), key(s[|s| - 1]), desc) then s + [x]
    else Insert(x, s[..|s| - 1], key, desc) + [s[|s| - 1]]
  }

  /** The stable sort `records.sort(key=key, reverse=desc)`, as an
      insertion sort of the records in their original order. */
  function SortRecords(s: seq<Record>, key: Record -> SortKey, desc: bool): seq<Record>
    decreases |s|
  {
    if s == [] then []
    else Insert(s[|s| - 1], SortRecords(s[..|s| - 1], key, desc), key, desc)
  }

  /** No record comes after one whose key goes strictly after its own:
      keys non-decreasing, or non-increasing when `desc`. */
  predicate Ordered(s: seq<Record>, key: Record -> SortKey, desc: bool)
  {
    forall i, j | 0 <= i < j < |s| :: !Precedes(key(s[j]), key(s[i]), desc)
  }

  /** The records of `s` whose key is `k`, in their order in `s`. */
  function WithKey(s: seq<Record>, key: Record -> SortKey, k: SortKey): seq<Record>
    decreases |s|
  {
    if s == [] then []
    else WithKey(s[..|s| - 1], key, k) + (if key(s[|s| - 1]) == k then [s[|s| - 1]] else [])
  }

  lemma WithKeySnoc(s: seq<Record>, x: Record, key: Record -> SortKey, k: SortKey)
    ensures WithKey(s + [x], key, k) == WithKey(s, key, k) + (if key(x) == k then [x] else [])
  {
    assert (s + [x])[..|s|] == s;
  }

  // ---------------------------------------------------------------------------
  // Insertion

  lemma {:induction false} InsertPermutes(x: Record, s: seq<Record>, key: Record -> SortKey, desc: bool)
    ensures multiset(Insert(x, s, key, desc)) == multiset(s) + multiset{x}
    decreases |s|
  {
    if s != [] && Precedes(key(x), key(s[|s| - 1]), desc) {
      var n := |s| - 1;
      InsertPermutes(x, s[..n], key, desc);
      assert s == s[..n] + [s[n]];
    }
  }

  /** Appending a record that goes strictly before none of the records keeps
      them ordered. */
  lemma OrderedSnoc(t: seq<Record>, y: Record, key: Record -> SortKey, desc: bool)
    requires Ordered(t, key, desc)
    requires forall i | 0 <= i < |t| :: !Precedes(key(y), key(t[i]), desc)
    ensures Ordered(t + [y], key, desc)
  {
    var r := t + [y];
    forall i, j | 0 <= i < j < |r|
      ensures !Precedes(key(r[j]), key(r[i]), desc)
    {
      assert r[i] == t[i];
      if j < |t| {
        assert r[j] == t[j];
      }
    }
  }

  lemma {:induction false} InsertOrdered(x: Record, s: seq<Record>, key: Record -> SortKey, desc: bool)
    requires Ordered(s, key, desc)
    ensures Ordered(Insert(x, s, key, desc), key, desc)
    decreases |s|
  {
    var kx := key(x);
    if s == [] || !Precedes(kx, key(s[|s| - 1]), desc) {
      forall i | 0 <= i < |s|
        ensures !Precedes(kx, key(s[i]), desc)
      {
        if i < |s| - 1 {
          NotPrecedesTransitive(key(s[i]), key(s[|s| - 1]), kx, desc);
        }
      }
      OrderedSnoc(s, x, key, desc);
    } else {
      var n := |s| - 1;
      var last := s[n];
      var init := s[..n];
      assert forall i | 0 <= i < n :: init[i] == s[i];
      InsertOrdered(x, init, key, desc);
      var t := Insert(x, init, key, desc);
      InsertPermutes(x, init, key, desc);
      forall i | 0 <= i < |t|
        ensures !Precedes(key(last), key(t[i]), desc)
      {
        var e := t[i];
        assert e in multiset(t);
        if e == x {
          PrecedesAsymmetric(kx, key(last), desc);
        } else {
          assert e in multiset(init);
          var k :| 0 <= k < n && init[k] == e;
          assert s[k] == e;
        }
      }
      OrderedSnoc(t, last, key, desc);
    }
  }

  /** Inserting `x` adds it at the END of the records with its key. */
  lemma {:induction false} InsertWithKey(x: Record, s: seq<Record>, key: Record -> SortKey, desc: bool, k: SortKey)
    ensures WithKey(Insert(x, s, key, desc), key, k)
            == WithKey(s, key, k) + (if key(x) == k then [x] else [])
    decreases |s|
  {
    if s == [] || !Precedes(key(x), key(s[|s| - 1]), desc) {
      WithKeySnoc(s, x, key, k);
    } else {
      var n := |s| - 1;
      var init, last := s[..n], s[n];
      var t := Insert(x, init, key, desc);
      var w := WithKey(init, key, k);
      var xs := if key(x) == k then [x] else [];
      var ls := if key(last) == k then [last] else [];
      calc {
        WithKey(Insert(x, s, key, desc), key, k);
        WithKey(t + [last], key, k);
        { WithKeySnoc(t, last, key, k); }
        WithKey(t, key, k) + ls;
        { InsertWithKey(x, init, key, desc, k); }
        w + xs + ls;
        { PrecedesAsymmetric(key(x), key(last), desc);
          SwapAbsent(w, xs, ls); }
        w + ls + xs;
        { WithKeySnoc(init, last, key, k); assert s == init + [last]; }
        WithKey(s, key, k) + xs;
      }
    }
  }

  lemma SwapAbsent(w: seq<Record>, xs: seq<Record>, ls: seq<Record>)
    requires xs == [] || ls == []
    ensures w + xs + ls == w + ls + xs
  {
    if xs == [] {
      assert w + xs == w;
    } else {
      assert w + ls == w;
    }
  }

  // ---------------------------------------------------------------------------
  // The sort

  /** The sort returns a permutation of its input. */
  lemma {:induction false} SortRecordsPermutes(s: seq<Record>, key: Record -> SortKey, desc: bool)
    ensures multiset(SortRecords(s, key, desc)) == multiset(s)
    ensures |SortRecords(s, key, desc)| == |s|
    decreases |s|
  {
    if s != [] {
      var n := |s| - 1;
      SortRecordsPermutes(s[..n], key, desc);
      InsertPermutes(s[n], SortRecords(s[..n], key, desc), key, desc);
      assert s == s[..n] + [s[n]];
    }
    assert |multiset(SortRecords(s, key, desc))| == |SortRecords(s, key, desc)|;
  }

  /** The sorted records are ordered by the key: ascending, or descending
      exactly when the direction is `desc`. */
  lemma {:induction false} SortRecordsOrdered(s: seq<Record>, key: Record -> SortKey, desc: bool)
    ensures Ordered(SortRecords(s, key, desc), key, desc)
    decreases |s|
  {
    if s != [] {
      var n := |s| - 1;
      SortRecordsOrdered(s[..n], key, desc);
      InsertOrdered(s[n], SortRecords(s[..n], key, desc), key, desc);
    }
  }

  /** The sort is stable in both directions: the records sharing any one key
      come out in the order they went in. */
  lemma {:induction false} SortRecordsStable(s: seq<Record>, key: Record -> SortKey, desc: bool, k: SortKey)
    ensures WithKey(SortRecords(s, key, desc), key, k) == WithKey(s, key, k)
    decreases |s|
  {
    if s != [] {
      var n := |s| - 1;
      SortRecordsStable(s[..n], key, desc, k);
      InsertWithKey(s[n], SortRecords(s[..n], key, desc), key, desc, k);
    }
  }

  /** In ordered records the ones with equal keys sit next to each other:
      whatever lies between two of them has the same key. */
  lemma EqualKeysAdjacent(s: seq<Record>, key: Record -> SortKey, desc: bool, i: nat, m: nat, j: nat)
    requires Ordered(s, key, desc)
    requires i < m < j < |s| && key(s[i]) == key(s[j])
    ensures key(s[m]) == key(s[i])
  {
    PrecedesTotal(key(s[i]), key(s[m]), desc);
  }

  /** A text key ignores case: fields that differ only in the case of ASCII
      letters, such as `ABC` and `abc`, give the same key. */
  lemma KeyIgnoresCase(a: Record, b: Record, sortBy: string)
    requires sortBy != "stt"
    requires |Field(a, sortBy)| == |Field(b, sortBy)|
    requires forall i | 0 <= i < |Field(a, sortBy)| :: LowerChar(Field(a, sortBy)[i]) == LowerChar(Field(b, sortBy)[i])
    ensures KeyOf(a, sortBy) == KeyOf(b, sortBy)
  {
    LowerIgnoresCase(Field(a, sortBy), Field(b, sortBy));
  }

  // ---------------------------------------------------------------------------
  // The in-place sort

  /** `records.sort(key=key_func, reverse=(direction == 'desc'))`: the
      records sorted in place by the handler's key, in reverse exactly when
      the direction is `desc`. */
  method SortInPlace(a: array<Record>, sortBy: string, direction: string)
    modifies a
    ensures a[..] == SortRecords(old(a[..]), KeyFunction(sortBy), direction == "desc")
    ensures multiset(a[..]) == multiset(old(a[..]))
    ensures Ordered(a[..], KeyFunction(sortBy), direction == "desc")
    ensures forall k :: WithKey(a[..], KeyFunction(sortBy), k) == WithKey(old(a[..]), KeyFunction(sortBy), k)
  {
    ghost var s := a[..];
    SortBy(a, KeyFunction(sortBy), direction == "desc");
    SortRecordsIsStableSort(s, KeyFunction(sortBy), direction == "desc");
  }

  /** Insertion sort in place: each record in turn moved left past the
      records it strictly precedes. */
  method SortBy(a: array<Record>, key: Record -> SortKey, desc: bool)
    modifies a
    ensures a[..] == SortRecords(old(a[..]), key, desc)
  {
    ghost var s := a[..];
    var i := 0;
    while i < a.Length
      invariant 0 <= i <= a.Length
      invariant a[..i] == SortRecords(s[..i], key, desc)
      invariant forall k | i <= k < a.Length :: a[k] == s[k]
    {
      ghost var pre := a[..i];
      assert a[i] == s[i];
      InsertSlot(a, i, key, desc);
      SortRecordsPrefix(s, i, key, desc);
      assert a[..i + 1] == Insert(s[i], pre, key, desc);
      i := i + 1;
    }
    assert a[..] == a[..a.Length] && s == s[..a.Length];
  }

  /** Sorting one more record of the input inserts it into the sorted
      prefix. */
  lemma SortRecordsPrefix(s: seq<Record>, i: nat, key: Record -> SortKey, desc: bool)
    requires i < |s|
    ensures SortRecords(s[..i + 1], key, desc) == Insert(s[i], SortRecords(s[..i], key, desc), key, desc)
  {
    assert s[..i + 1][..i] == s[..i];
  }

  /** One pass of the outer loop: the record at `i` moves left into the
      ordered prefix `a[..i]`, past every record it strictly precedes. */
  method InsertSlot(a: array<Record>, i: nat, key: Record -> SortKey, desc: bool)
    requires i < a.Length
    modifies a
    ensures a[..i + 1] == Insert(old(a[i]), old(a[..i]), key, desc)
    ensures forall k | i < k < a.Length :: a[k] == old(a[k])
  {
    var x := a[i];
    ghost var sorted := a[..i];
    var j := i;
    while j > 0 && Precedes(key(x), key(a[j - 1]), desc)
      invariant 0 <= j <= i
      invariant forall k | 0 <= k < j :: a[k] == sorted[k]
      invariant forall k | j < k <= i :: a[k] == sorted[k - 1]
      invariant forall k | i < k < a.Length :: a[k] == old(a[k])
      invariant forall k | j <= k < i :: Precedes(key(x), key(sorted[k]), desc)
    {
      a[j] := a[j - 1];
      j := j - 1;
    }
    a[j] := x;
    PlacedAt(a, i, sorted, j, x, key, desc);
  }

  /** The sort is a stable sort: a permutation, ordered, with the records
      of each key in their original order. */
  lemma SortRecordsIsStableSort(s: seq<Record>, key: Record -> SortKey, desc: bool)
    ensures multiset(SortRecords(s, key, desc)) == multiset(s)
    ensures Ordered(SortRecords(s, key, desc), key, desc)
    ensures forall k :: WithKey(SortRecords(s, key, desc), key, k) == WithKey(s, key, k)
  {
    SortRecordsPermutes(s, key, desc);
    SortRecordsOrdered(s, key, desc);
    forall k {
      SortRecordsStable(s, key, desc, k);
    }
  }

  /** Where insertion puts `x`: after the last record it does not strictly
      precede, every later record being one it does precede. */
  lemma {:induction false} InsertAt(x: Record, sorted: seq<Record>, j: nat, key: Record -> SortKey, desc: bool)
    requires j <= |sorted|
    requires j == 0 || !Precedes(key(x), key(sorted[j - 1]), desc)
    requires forall k | j <= k < |sorted| :: Precedes(key(x), key(sorted[k]), desc)
    ensures Insert(x, sorted, key, desc) == sorted[..j] + [x] + sorted[j..]
    decreases |sorted|
  {
    var n := |sorted| - 1;
    if j <= n {
      var init := sorted[..n];
      InsertAt(x, init, j, key, desc);
      assert init[..j] == sorted[..j];
      assert init[j..] + [sorted[n]] == sorted[j..];
    } else {
      assert sorted[..j] == sorted && sorted[j..] == [];
    }
  }

  /** The array after the inner loop: the records before `j`, then `x`, then
      the records shifted one place right, which is where insertion puts
      `x`. */
  lemma PlacedAt(a: array<Record>, i: nat, sorted: seq<Record>, j: nat, x: Record, key: Record -> SortKey, desc: bool)
    requires i < a.Length && |sorted| == i && j <= i
    requires forall k | 0 <= k < j :: a[k] == sorted[k]
    requires a[j] == x
    requires forall k | j < k <= i :: a[k] == sorted[k - 1]
    requires j == 0 || !Precedes(key(x), key(sorted[j - 1]), desc)
    requires forall k | j <= k < i :: Precedes(key(x), key(sorted[k]), desc)
    ensures a[..i + 1] == Insert(x, sorted, key, desc)
  {
    InsertAt(x, sorted, j, key, desc);
    ghost var r := a[..i + 1];
    assert forall k | 0 <= k < j :: r[k] == sorted[k];
    assert forall k | j < k <= i :: r[k] == sorted[k - 1];
    assert r == sorted[..j] + [x] + sorted[j..];
  }
}
