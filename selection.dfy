/**
 * Choosing the most recent content items: a stable sort by date, newest
 * first, done in place on the shared collection array, followed by taking
 * a prefix of at most `limit` items.
 */
module Selection {
  import opened Dates

  function Min(a: nat, b: nat): (m: nat)
    ensures m <= a && m <= b && (m == a || m == b)
  {
    if a <= b then a else b
  }

  /** Newest first: no item is earlier than an item after it. */
  predicate SortedDesc<T>(s: seq<T>, key: T -> Date)
  {
    forall i, j :: 0 <= i < j < |s| ==> !Before(key(s[i]), key(s[j]))
  }

  /** The items of `s` dated `d`, in their order in `s`. */
  function WithDate<T>(s: seq<T>, key: T -> Date, d: Date): (r: seq<T>)
    ensures |r| <= |s|
  {
    if s == [] then []
    else (if key(s[0]) == d then [s[0]] else []) + WithDate(s[1..], key, d)
  }

  /**
   * Places `x` in front of the first item of `t` that is strictly earlier
   * than it, so after every item of `t` that has the same date.
   */
  function Insert<T>(t: seq<T>, x: T, key: T -> Date): (r: seq<T>)
    ensures |r| == |t| + 1
    ensures multiset(r) == multiset(t) + multiset{x}
  {
    if t == [] then [x]
    else if Before(key(t[0]), key(x)) then [x] + t
    else
      assert t == [t[0]] + t[1..];
      [t[0]] + Insert(t[1..], x, key)
  }

  /**
   * The stable descending sort: each item in turn, from the first, is
   * inserted into the sorted arrangement of the items before it.
   */
  function Sort<T>(s: seq<T>, key: T -> Date): (r: seq<T>)
    ensures |r| == |s|
    ensures multiset(r) == multiset(s)
  {
    if s == [] then []
    else
      assert s == s[..|s| - 1] + [s[|s| - 1]];
      Insert(Sort(s[..|s| - 1], key), s[|s| - 1], key)
  }

  /** The `limit` most recent items of `s`, newest first. */
  function Select<T>(s: seq<T>, key: T -> Date, limit: nat): (r: seq<T>)
    ensures |r| == Min(|s|, limit)
    ensures r == Sort(s, key)[..|r|]
  {
    Sort(s, key)[..Min(|s|, limit)]
  }

  // ---------------------------------------------------------------------
  // Properties of Insert

  lemma SortedDescCons<T>(a: T, r: seq<T>, key: T -> Date)
    requires SortedDesc(r, key)
    requires forall k :: 0 <= k < |r| ==> !Before(key(a), key(r[k]))
    ensures SortedDesc([a] + r, key)
  {
    var s := [a] + r;
    forall i, j | 0 <= i < j < |s| ensures !Before(key(s[i]), key(s[j])) {
      if i == 0 {
        assert s[j] == r[j - 1];
      } else {
        assert s[i] == r[i - 1] && s[j] == r[j - 1];
      }
    }
  }

  lemma {:induction false} InsertSorted<T>(t: seq<T>, x: T, key: T -> Date)
    requires SortedDesc(t, key)
    ensures SortedDesc(Insert(t, x, key), key)
  {
    if t == [] {
    } else if Before(key(t[0]), key(x)) {
      forall k | 0 <= k < |t| ensures !Before(key(x), key(t[k])) {
        if k > 0 {
          assert !Before(key(t[0]), key(t[k]));
        }
        BeforeIsStrictTotalOrder(key(t[0]), key(t[k]), key(x));
        BeforeIsStrictTotalOrder(key(x), key(t[k]), key(t[0]));
      }
      SortedDescCons(x, t, key);
    } else {
      var tail := t[1..];
      SortedDescTail(t, key);
      InsertSorted(tail, x, key);
      var r := Insert(tail, x, key);
      forall k | 0 <= k < |r| ensures !Before(key(t[0]), key(r[k])) {
        assert r[k] in multiset(r);
        assert r[k] in multiset(tail) || r[k] == x;
        if r[k] != x {
          assert r[k] in tail;
          var m :| 0 <= m < |tail| && tail[m] == r[k];
          assert t[m + 1] == r[k];
        }
      }
      SortedDescCons(t[0], r, key);
    }
  }

  /** An item no more recent than any item of `t` is appended at the end. */
  lemma {:induction false} InsertAtEnd<T>(t: seq<T>, x: T, key: T -> Date)
    requires forall k :: 0 <= k < |t| ==> !Before(key(t[k]), key(x))
    ensures Insert(t, x, key) == t + [x]
  {
    if t != [] {
      InsertAtEnd(t[1..], x, key);
      assert t == [t[0]] + t[1..];
    }
  }

  lemma SortedDescTail<T>(t: seq<T>, key: T -> Date)
    requires SortedDesc(t, key) && t != []
    ensures SortedDesc(t[1..], key)
    ensures forall k :: 0 <= k < |t| ==> !Before(key(t[0]), key(t[k]))
  {
    var tail := t[1..];
    forall i, j | 0 <= i < j < |tail| ensures !Before(key(tail[i]), key(tail[j])) {
      assert tail[i] == t[i + 1] && tail[j] == t[j + 1];
    }
    BeforeIsStrictTotalOrder(key(t[0]), key(t[0]), key(t[0]));
  }

  /** In a sorted `t`, an item no earlier than `x` is preceded only by such items. */
  lemma SortedDescNoEarlier<T>(t: seq<T>, x: T, key: T -> Date, j: nat)
    requires SortedDesc(t, key)
    requires 0 < j <= |t| && !Before(key(t[j - 1]), key(x))
    ensures !Before(key(t[0]), key(x))
  {
    if j - 1 > 0 {
      assert !Before(key(t[0]), key(t[j - 1]));
      BeforeIsStrictTotalOrder(key(t[0]), key(t[j - 1]), key(x));
      BeforeIsStrictTotalOrder(key(t[j - 1]), key(t[0]), key(x));
    }
  }

  /**
   * In a sorted `t`, inserting at the boundary `j` between the items no
   * earlier than `x` and those strictly earlier than `x` is `Insert`.
   */
  lemma {:induction false} InsertAt<T>(t: seq<T>, x: T, key: T -> Date, j: nat)
    requires SortedDesc(t, key)
    requires j <= |t|
    requires j == 0 || !Before(key(t[j - 1]), key(x))
    requires forall k :: j <= k < |t| ==> Before(key(t[k]), key(x))
    ensures Insert(t, x, key) == t[..j] + [x] + t[j..]
  {
    if j == 0 {
      if t != [] {
        assert Before(key(t[0]), key(x));
      }
    } else {
      SortedDescNoEarlier(t, x, key, j);
      var tail := t[1..];
      SortedDescTail(t, key);
      assert j - 1 == 0 || tail[j - 2] == t[j - 1];
      forall k | j - 1 <= k < |tail| ensures Before(key(tail[k]), key(x)) {
        assert tail[k] == t[k + 1];
      }
      InsertAt(tail, x, key, j - 1);
      assert Insert(t, x, key) == [t[0]] + Insert(tail, x, key);
      assert t[..j] == [t[0]] + tail[..j - 1];
      assert t[j..] == tail[j - 1..];
    }
  }

  /** Items dated `d` that are split apart stay in order. */
  lemma {:induction false} WithDateConcat<T>(a: seq<T>, b: seq<T>, key: T -> Date, d: Date)
    ensures WithDate(a + b, key, d) == WithDate(a, key, d) + WithDate(b, key, d)
  {
    if a != [] {
      assert (a + b)[1..] == a[1..] + b;
      WithDateConcat(a[1..], b, key, d);
    } else {
      assert a + b == b;
    }
  }

  lemma {:induction false} WithDateNone<T>(t: seq<T>, key: T -> Date, d: Date)
    requires forall k :: 0 <= k < |t| ==> key(t[k]) != d
    ensures WithDate(t, key, d) == []
  {
    if t != [] {
      WithDateNone(t[1..], key, d);
    }
  }

  /** Inserting `x` adds it after the items of `t` that share its date. */
  lemma {:induction false} InsertStable<T>(t: seq<T>, x: T, key: T -> Date, d: Date)
    requires SortedDesc(t, key)
    ensures WithDate(Insert(t, x, key), key, d)
         == WithDate(t, key, d) + (if key(x) == d then [x] else [])
  {
    if t == [] {
    } else if Before(key(t[0]), key(x)) {
      var r := [x] + t;
      assert r[1..] == t;
      if key(x) == d {
        forall k | 0 <= k < |t| ensures key(t[k]) != d {
          if k > 0 {
            assert !Before(key(t[0]), key(t[k]));
          }
          BeforeIsStrictTotalOrder(key(t[0]), key(t[k]), key(x));
        }
        WithDateNone(t, key, d);
      }
    } else {
      var tail := t[1..];
      SortedDescTail(t, key);
      InsertStable(tail, x, key, d);
      var r := [t[0]] + Insert(tail, x, key);
      assert r[1..] == Insert(tail, x, key);
    }
  }

  // ---------------------------------------------------------------------
  // Properties of Sort

  lemma {:induction false} SortIsSorted<T>(s: seq<T>, key: T -> Date)
    ensures SortedDesc(Sort(s, key), key)
  {
    if s != [] {
      SortIsSorted(s[..|s| - 1], key);
      InsertSorted(Sort(s[..|s| - 1], key), s[|s| - 1], key);
    }
  }

  /**
   * Stability: for every date, the items carrying it appear in the sorted
   * sequence in exactly their original order.
   */
  lemma {:induction false} SortIsStable<T>(s: seq<T>, key: T -> Date, d: Date)
    ensures WithDate(Sort(s, key), key, d) == WithDate(s, key, d)
  {
    if s != [] {
      var init, x := s[..|s| - 1], s[|s| - 1];
      var sortedInit := Sort(init, key);
      assert Sort(s, key) == Insert(sortedInit, x, key);
      SortIsStable(init, key, d);
      SortIsSorted(init, key);
      InsertStable(sortedInit, x, key, d);
      assert s == init + [x];
      WithDateConcat(init, [x], key, d);
      assert WithDate([x], key, d) == (if key(x) == d then [x] else []) by {
        assert [x][1..] == [];
      }
    }
  }

  /** A sequence already newest first is left as it is. */
  lemma {:induction false} SortOfSorted<T>(s: seq<T>, key: T -> Date)
    ensures SortedDesc(s, key) ==> Sort(s, key) == s
  {
    if s != [] && SortedDesc(s, key) {
      var init, x := s[..|s| - 1], s[|s| - 1];
      assert SortedDesc(init, key) by {
        forall i, j | 0 <= i < j < |init| ensures !Before(key(init[i]), key(init[j])) {
          assert init[i] == s[i] && init[j] == s[j];
        }
      }
      SortOfSorted(init, key);
      forall k | 0 <= k < |init| ensures !Before(key(init[k]), key(x)) {
        assert init[k] == s[k];
      }
      InsertAtEnd(init, x, key);
      assert s == init + [x];
    }
  }

  lemma SortIdempotent<T>(s: seq<T>, key: T -> Date)
    ensures Sort(Sort(s, key), key) == Sort(s, key)
  {
    SortIsSorted(s, key);
    SortOfSorted(Sort(s, key), key);
  }

  lemma {:induction false} WithDateMembers<T>(s: seq<T>, key: T -> Date, d: Date)
    ensures forall y :: y in WithDate(s, key, d) <==> y in s && key(y) == d
  {
    if s != [] {
      WithDateMembers(s[1..], key, d);
      assert s == [s[0]] + s[1..];
    }
  }

  /**
   * Two newest-first sequences that agree, date by date, on the items of
   * that date and their order are the same sequence.
   */
  lemma {:induction false} SameGroupsEqual<T>(r: seq<T>, q: seq<T>, key: T -> Date)
    requires SortedDesc(r, key) && SortedDesc(q, key)
    requires forall d :: WithDate(r, key, d) == WithDate(q, key, d)
    ensures r == q
    decreases |r| + |q|
  {
    // A first item of either sequence lies in the other, so both are empty or neither is.
    if r != [] {
      WithDateMembers(r, key, key(r[0]));
      WithDateMembers(q, key, key(r[0]));
    }
    if q != [] {
      WithDateMembers(q, key, key(q[0]));
      WithDateMembers(r, key, key(q[0]));
    }
    if r != [] && q != [] {
      var d0 := key(r[0]);
      WithDateMembers(r, key, d0);
      WithDateMembers(q, key, d0);
      WithDateMembers(r, key, key(q[0]));
      WithDateMembers(q, key, key(q[0]));
      assert r[0] in q;
      assert q[0] in r;
      SortedDescTail(r, key);
      SortedDescTail(q, key);
      assert key(q[0]) == d0 by {
        var i :| 0 <= i < |q| && q[i] == r[0];
        var j :| 0 <= j < |r| && r[j] == q[0];
        BeforeIsStrictTotalOrder(key(q[0]), key(r[0]), key(q[0]));
      }
      assert r[0] == q[0] by {
        assert WithDate(r, key, d0)[0] == r[0];
        assert WithDate(q, key, d0)[0] == q[0];
      }
      forall d ensures WithDate(r[1..], key, d) == WithDate(q[1..], key, d) {
        var head := if key(r[0]) == d then [r[0]] else [];
        var wr, wq := WithDate(r[1..], key, d), WithDate(q[1..], key, d);
        assert WithDate(r, key, d) == head + wr;
        assert WithDate(q, key, d) == head + wq;
        assert WithDate(r, key, d) == WithDate(q, key, d);
        assert (head + wr)[|head|..] == wr && (head + wq)[|head|..] == wq;
      }
      SameGroupsEqual(r[1..], q[1..], key);
      assert r == [r[0]] + r[1..] && q == [q[0]] + q[1..];
    }
  }

  /**
   * The stable descending sort is unique: any newest-first arrangement that
   * keeps, for every date, the items of that date in their original order
   * is `Sort(s)`, whichever algorithm produced it.
   */
  lemma StableSortIsUnique<T>(s: seq<T>, r: seq<T>, key: T -> Date)
    requires SortedDesc(r, key)
    requires forall d :: WithDate(r, key, d) == WithDate(s, key, d)
    ensures r == Sort(s, key)
  {
    SortIsSorted(s, key);
    forall d ensures WithDate(r, key, d) == WithDate(Sort(s, key), key, d) {
      SortIsStable(s, key, d);
    }
    SameGroupsEqual(r, Sort(s, key), key);
  }

  // ---------------------------------------------------------------------
  // Properties of Select

  lemma SelectIsSorted<T>(s: seq<T>, key: T -> Date, limit: nat)
    ensures SortedDesc(Select(s, key, limit), key)
  {
    var r := Select(s, key, limit);
    SortIsSorted(s, key);
    forall i, j | 0 <= i < j < |r| ensures !Before(key(r[i]), key(r[j])) {
      assert r[i] == Sort(s, key)[i] && r[j] == Sort(s, key)[j];
    }
  }

  /**
   * The selected items are the most recent ones: every selected item is at
   * least as recent as every item of the collection left unselected.
   */
  lemma SelectIsMostRecent<T>(s: seq<T>, key: T -> Date, limit: nat)
    ensures multiset(Select(s, key, limit)) <= multiset(s)
    ensures forall x, y :: x in Select(s, key, limit) && y in multiset(s) - multiset(Select(s, key, limit))
              ==> !Before(key(x), key(y))
  {
    var sorted, r := Sort(s, key), Select(s, key, limit);
    var rest := sorted[|r|..];
    assert sorted == r + rest;
    assert multiset(s) == multiset(r) + multiset(rest);
    SortIsSorted(s, key);
    forall x, y | x in r && y in multiset(s) - multiset(r) ensures !Before(key(x), key(y)) {
      assert y in rest;
      var i :| 0 <= i < |r| && r[i] == x;
      var j :| 0 <= j < |rest| && rest[j] == y;
      assert sorted[i] == x && sorted[|r| + j] == y;
    }
  }

  /**
   * Stability of the selection: the selected items of each date are the
   * first ones of that date, in their original order.
   */
  lemma SelectIsStable<T>(s: seq<T>, key: T -> Date, limit: nat, d: Date)
    ensures var w, all := WithDate(Select(s, key, limit), key, d), WithDate(s, key, d);
            |w| <= |all| && w == all[..|w|]
  {
    var sorted, r := Sort(s, key), Select(s, key, limit);
    assert sorted == r + sorted[|r|..];
    WithDateConcat(r, sorted[|r|..], key, d);
    SortIsStable(s, key, d);
  }

  /**
   * Selecting again from a selection, or from the already sorted
   * collection, gives the same items.
   */
  lemma SelectIdempotent<T>(s: seq<T>, key: T -> Date, limit: nat)
    ensures Select(Select(s, key, limit), key, limit) == Select(s, key, limit)
    ensures Select(Sort(s, key), key, limit) == Select(s, key, limit)
  {
    SelectIsSorted(s, key, limit);
    SortOfSorted(Select(s, key, limit), key);
    SortIdempotent(s, key);
  }

  // ---------------------------------------------------------------------
  // The in-place sort

  /** One outer step of the insertion sort, as the specification unfolds it. */
  lemma SortStep<T>(s: seq<T>, key: T -> Date, i: nat)
    requires i < |s|
    ensures Sort(s[..i + 1], key) == Insert(Sort(s[..i], key), s[i], key)
  {
    assert s[..i + 1][..i] == s[..i];
  }

  /** The array contents after the inner loop: `t` with `x` placed at `j`. */
  lemma ShiftedInsert<T>(t: seq<T>, x: T, j: nat, cur: seq<T>)
    requires j <= |t| && |cur| == |t| + 1
    requires forall k :: 0 <= k < j ==> cur[k] == t[k]
    requires cur[j] == x
    requires forall k :: j < k < |cur| ==> cur[k] == t[k - 1]
    ensures cur == t[..j] + [x] + t[j..]
  {
    var r := t[..j] + [x] + t[j..];
    forall k | 0 <= k < |cur| ensures cur[k] == r[k] {
      if k < j {
        assert r[k] == t[k];
      } else if k > j {
        assert r[k] == t[k - 1];
      }
    }
  }

  /**
   * Moves `a[i]` into the newest-first prefix `a[..i]`: the items of the
   * prefix strictly earlier than it shift one place right, from the back.
   */
  method InsertLast<T>(a: array<T>, i: nat, key: T -> Date)
    requires i < a.Length
    requires SortedDesc(a[..i], key)
    modifies a
    ensures a[..i + 1] == Insert(old(a[..i]), old(a[i]), key)
    ensures forall k :: i < k < a.Length ==> a[k] == old(a[k])
  {
    ghost var t := a[..i];
    var x := a[i];
    var j := i;
    while j > 0 && CompareDesc(key(a[j - 1]), key(x)) > 0
      invariant 0 <= j <= i
      invariant forall k :: 0 <= k < j ==> a[k] == t[k]
      invariant forall k :: j < k <= i ==> a[k] == t[k - 1]
      invariant forall k :: i < k < a.Length ==> a[k] == old(a[k])
      invariant forall k :: j <= k < i ==> Before(key(t[k]), key(x))
    {
      a[j] := a[j - 1];
      j := j - 1;
    }
    a[j] := x;
    InsertAt(t, x, key, j);
    ShiftedInsert(t, x, j, a[..i + 1]);
  }

  /**
   * Sorts `a` newest first, in place and stably: insertion sort whose
   * comparison is the descending comparator on the items' dates.
   */
  method SortByDateDesc<T>(a: array<T>, key: T -> Date)
    modifies a
    ensures a[..] == Sort(old(a[..]), key)
  {
    ghost var orig := a[..];
    var i := 0;
    while i < a.Length
      invariant 0 <= i <= a.Length
      invariant a[..i] == Sort(orig[..i], key)
      invariant forall k :: i <= k < a.Length ==> a[k] == orig[k]
    {
      SortIsSorted(orig[..i], key);
      InsertLast(a, i, key);
      SortStep(orig, key, i);
      i := i + 1;
    }
    assert a[..] == a[..a.Length];
    assert orig == orig[..a.Length];
  }
}
