// `Array.prototype.sort` by a numeric key: stable, and determined by the contents alone exactly
// when no two elements share a key.
module StableSort {

  // Inserts after every element with the same key.
  function Insert<T>(sorted: seq<T>, x: T, key: T -> int): seq<T> {
    if sorted == [] || key(sorted[|sorted| - 1]) <= key(x) then sorted + [x]
    else Insert(sorted[..|sorted| - 1], x, key) + [sorted[|sorted| - 1]]
  }

  function SortBy<T>(xs: seq<T>, key: T -> int): seq<T> {
    if xs == [] then [] else Insert(SortBy(xs[..|xs| - 1], key), xs[|xs| - 1], key)
  }

  ghost predicate SortedBy<T>(xs: seq<T>, key: T -> int) {
    forall i, j | 0 <= i < j < |xs| :: key(xs[i]) <= key(xs[j])
  }

  predicate DistinctBy<T>(xs: seq<T>, key: T -> int) {
    forall i, j | 0 <= i < j < |xs| :: key(xs[i]) != key(xs[j])
  }

  // The elements with key `k`, in order.
  function WithKey<T>(xs: seq<T>, key: T -> int, k: int): seq<T> {
    if xs == [] then []
    else WithKey(xs[..|xs| - 1], key, k) + (if key(xs[|xs| - 1]) == k then [xs[|xs| - 1]] else [])
  }

  lemma {:induction false} InsertContents<T>(sorted: seq<T>, x: T, key: T -> int)
    ensures multiset(Insert(sorted, x, key)) == multiset(sorted) + multiset{x}
  {
    if !(sorted == [] || key(sorted[|sorted| - 1]) <= key(x)) {
      InsertContents(sorted[..|sorted| - 1], x, key);
      assert sorted == sorted[..|sorted| - 1] + [sorted[|sorted| - 1]];
    }
  }

  lemma {:induction false} InsertSorted<T>(sorted: seq<T>, x: T, key: T -> int)
    requires SortedBy(sorted, key)
    ensures SortedBy(Insert(sorted, x, key), key)
  {
    if !(sorted == [] || key(sorted[|sorted| - 1]) <= key(x)) {
      var front, last := sorted[..|sorted| - 1], sorted[|sorted| - 1];
      InsertSorted(front, x, key);
      InsertContents(front, x, key);
      var inserted := Insert(front, x, key);
      forall i | 0 <= i < |inserted|
        ensures key(inserted[i]) <= key(last)
      {
        assert inserted[i] in multiset(inserted);
        assert inserted[i] == x || inserted[i] in front;
      }
    }
  }

  lemma {:induction false} SortKeeps<T>(xs: seq<T>, key: T -> int)
    ensures SortedBy(SortBy(xs, key), key)
    ensures multiset(SortBy(xs, key)) == multiset(xs)
  {
    if xs != [] {
      var front, last := xs[..|xs| - 1], xs[|xs| - 1];
      SortKeeps(front, key);
      InsertSorted(SortBy(front, key), last, key);
      InsertContents(SortBy(front, key), last, key);
      assert xs == front + [last];
    }
  }

  lemma WithKeyAppend<T>(xs: seq<T>, x: T, key: T -> int, k: int)
    ensures WithKey(xs + [x], key, k) == WithKey(xs, key, k) + (if key(x) == k then [x] else [])
  {
    assert (xs + [x])[..|xs|] == xs;
  }

  lemma {:induction false} InsertIsStable<T>(sorted: seq<T>, x: T, key: T -> int, k: int)
    requires SortedBy(sorted, key)
    ensures WithKey(Insert(sorted, x, key), key, k) == WithKey(sorted, key, k) + (if key(x) == k then [x] else [])
  {
    if sorted == [] || key(sorted[|sorted| - 1]) <= key(x) {
      WithKeyAppend(sorted, x, key, k);
    } else {
      var front, last := sorted[..|sorted| - 1], sorted[|sorted| - 1];
      InsertIsStable(front, x, key, k);
      WithKeyAppend(Insert(front, x, key), last, key, k);
    }
  }

  lemma {:induction false} SortIsStable<T>(xs: seq<T>, key: T -> int, k: int)
    ensures WithKey(SortBy(xs, key), key, k) == WithKey(xs, key, k)
  {
    if xs != [] {
      SortIsStable(xs[..|xs| - 1], key, k);
      SortKeeps(xs[..|xs| - 1], key);
      InsertIsStable(SortBy(xs[..|xs| - 1], key), xs[|xs| - 1], key, k);
    }
  }

  // ----- Contents alone ---------------------------------------------------------------------

  lemma {:induction false} SortedOnceOnly<T>(xs: seq<T>, ys: seq<T>, key: T -> int)
    requires SortedBy(xs, key) && SortedBy(ys, key) && multiset(xs) == multiset(ys)
    requires DistinctBy(xs, key)
    ensures xs == ys
  {
    SameLength(xs, ys);
    if xs != [] {
      LastIsGreatest(xs, ys, key);
      FrontContents(xs, ys);
      SortedOnceOnly(xs[..|xs| - 1], ys[..|ys| - 1], key);
      assert xs == xs[..|xs| - 1] + [xs[|xs| - 1]];
      assert ys == ys[..|ys| - 1] + [ys[|ys| - 1]];
    }
  }

  lemma SameLength<T>(xs: seq<T>, ys: seq<T>)
    requires multiset(xs) == multiset(ys)
    ensures |xs| == |ys|
  {
    assert |multiset(xs)| == |multiset(ys)|;
  }

  lemma FrontOf<T>(xs: seq<T>)
    requires xs != []
    ensures multiset(xs[..|xs| - 1]) == multiset(xs) - multiset{xs[|xs| - 1]}
  {
    assert xs == xs[..|xs| - 1] + [xs[|xs| - 1]];
  }

  lemma FrontContents<T>(xs: seq<T>, ys: seq<T>)
    requires multiset(xs) == multiset(ys) && |xs| == |ys| > 0 && xs[|xs| - 1] == ys[|ys| - 1]
    ensures multiset(xs[..|xs| - 1]) == multiset(ys[..|ys| - 1])
  {
    FrontOf(xs);
    FrontOf(ys);
  }

  lemma LastIsGreatest<T>(xs: seq<T>, ys: seq<T>, key: T -> int)
    requires SortedBy(xs, key) && SortedBy(ys, key) && multiset(xs) == multiset(ys)
    requires DistinctBy(xs, key) && |xs| == |ys| > 0
    ensures xs[|xs| - 1] == ys[|ys| - 1]
  {
    assert xs[|xs| - 1] in multiset(ys) && ys[|ys| - 1] in multiset(xs);
    var i :| 0 <= i < |xs| && xs[i] == ys[|ys| - 1];
    var j :| 0 <= j < |ys| && ys[j] == xs[|xs| - 1];
    assert key(ys[j]) <= key(ys[|ys| - 1]) && key(xs[i]) <= key(xs[|xs| - 1]);
  }

  lemma SortKeepsDistinct<T>(xs: seq<T>, key: T -> int)
    requires DistinctBy(xs, key)
    ensures DistinctBy(SortBy(xs, key), key)
  {
    var sorted := SortBy(xs, key);
    SortKeeps(xs, key);
    forall i, j | 0 <= i < j < |sorted|
      ensures key(sorted[i]) != key(sorted[j])
    {
      if key(sorted[i]) == key(sorted[j]) {
        SortIsStable(xs, key, key(sorted[i]));
        TwoWithKey(sorted, key, i, j);
        OneWithKey(xs, key, key(sorted[i]));
      }
    }
  }

  lemma {:induction false} TwoWithKey<T>(xs: seq<T>, key: T -> int, i: nat, j: nat)
    requires i < j < |xs| && key(xs[i]) == key(xs[j])
    ensures |WithKey(xs, key, key(xs[i]))| >= 2
  {
    var front := xs[..|xs| - 1];
    if j < |xs| - 1 {
      TwoWithKey(front, key, i, j);
    } else {
      SomeWithKey(front, key, i);
    }
  }

  lemma {:induction false} SomeWithKey<T>(xs: seq<T>, key: T -> int, i: nat)
    requires i < |xs|
    ensures WithKey(xs, key, key(xs[i])) != []
  {
    if i < |xs| - 1 {
      SomeWithKey(xs[..|xs| - 1], key, i);
    }
  }

  lemma {:induction false} OneWithKey<T>(xs: seq<T>, key: T -> int, k: int)
    requires DistinctBy(xs, key)
    ensures |WithKey(xs, key, k)| <= 1
  {
    if xs != [] {
      var front := xs[..|xs| - 1];
      OneWithKey(front, key, k);
      if key(xs[|xs| - 1]) == k {
        NoneWithKey(front, key, k);
      }
    }
  }

  lemma {:induction false} NoneWithKey<T>(xs: seq<T>, key: T -> int, k: int)
    requires forall i | 0 <= i < |xs| :: key(xs[i]) != k
    ensures WithKey(xs, key, k) == []
  {
    if xs != [] {
      NoneWithKey(xs[..|xs| - 1], key, k);
    }
  }

  // The first element with key `k` heads the elements with that key.
  lemma {:induction false} HeadWithKey<T>(xs: seq<T>, key: T -> int, i: nat)
    requires i < |xs| && forall j | 0 <= j < i :: key(xs[j]) != key(xs[i])
    ensures WithKey(xs, key, key(xs[i])) != [] && WithKey(xs, key, key(xs[i]))[0] == xs[i]
  {
    if i < |xs| - 1 {
      HeadWithKey(xs[..|xs| - 1], key, i);
    } else {
      NoneWithKey(xs[..|xs| - 1], key, key(xs[i]));
    }
  }

  lemma DistinctInAnyOrder<T>(xs: seq<T>, ys: seq<T>, key: T -> int)
    requires DistinctBy(xs, key) && multiset(xs) == multiset(ys)
    ensures DistinctBy(ys, key)
  {
    SortKeeps(xs, key);
    SortKeeps(ys, key);
    SortKeepsDistinct(xs, key);
    SortedOnceOnly(SortBy(xs, key), SortBy(ys, key), key);
    forall i, j | 0 <= i < j < |ys|
      ensures key(ys[i]) != key(ys[j])
    {
      if key(ys[i]) == key(ys[j]) {
        SortIsStable(ys, key, key(ys[i]));
        TwoWithKey(ys, key, i, j);
        OneWithKey(SortBy(xs, key), key, key(ys[i]));
      }
    }
  }

  // ----- Elementwise images -------------------------------------------------------------------

  function Mapped<T, U>(xs: seq<T>, f: T -> U): (ys: seq<U>)
    ensures |ys| == |xs|
  {
    seq(|xs|, i requires 0 <= i < |xs| => f(xs[i]))
  }

  lemma MappedAppend<T, U>(xs: seq<T>, x: T, f: T -> U)
    ensures Mapped(xs + [x], f) == Mapped(xs, f) + [f(x)]
  {
  }

  lemma {:induction false} MappedInsert<T, U>(sorted: seq<T>, x: T, key: T -> int, f: T -> U)
    ensures multiset(Mapped(Insert(sorted, x, key), f)) == multiset(Mapped(sorted, f)) + multiset{f(x)}
  {
    if sorted == [] || key(sorted[|sorted| - 1]) <= key(x) {
      MappedAppend(sorted, x, f);
    } else {
      var front, last := sorted[..|sorted| - 1], sorted[|sorted| - 1];
      MappedInsert(front, x, key, f);
      MappedAppend(Insert(front, x, key), last, f);
      MappedAppend(front, last, f);
      assert sorted == front + [last];
    }
  }

  // Sorting first or last makes no difference to the contents.
  lemma {:induction false} MappedSort<T, U>(xs: seq<T>, key: T -> int, f: T -> U)
    ensures multiset(Mapped(SortBy(xs, key), f)) == multiset(Mapped(xs, f))
  {
    if xs == [] {
      assert Mapped(SortBy(xs, key), f) == [];
    } else {
      var front, last := xs[..|xs| - 1], xs[|xs| - 1];
      MappedSort(front, key, f);
      MappedInsert(SortBy(front, key), last, key, f);
      MappedAppend(front, last, f);
      assert xs == front + [last];
    }
  }

  lemma CountsTwice<T>(xs: seq<T>, i: nat, j: nat)
    requires i < j < |xs| && xs[i] == xs[j]
    ensures multiset(xs)[xs[i]] >= 2
  {
    assert xs == xs[..j] + xs[j..];
    assert xs[..j][i] in multiset(xs[..j]) && xs[j..][0] in multiset(xs[j..]);
  }

  lemma {:induction false} FoundTwice<T>(xs: seq<T>, x: T) returns (i: nat, j: nat)
    requires multiset(xs)[x] >= 2
    ensures i < j < |xs| && xs[i] == x && xs[j] == x
  {
    var front, last := xs[..|xs| - 1], xs[|xs| - 1];
    assert xs == front + [last];
    if last == x {
      assert x in multiset(front);
      i :| 0 <= i < |front| && front[i] == x;
      j := |front|;
    } else {
      i, j := FoundTwice(front, x);
    }
  }

  // Whether no two elements agree on `key` does not depend on their arrangement.
  lemma ApartInAnyOrder<T, K>(xs: seq<T>, ys: seq<T>, key: T -> K, i: nat, j: nat)
    requires multiset(xs) == multiset(ys) && i < j < |ys|
    requires forall i, j | 0 <= i < j < |xs| :: key(xs[i]) != key(xs[j])
    ensures key(ys[i]) != key(ys[j])
  {
    if ys[i] == ys[j] {
      CountsTwice(ys, i, j);
      var m, n := FoundTwice(xs, ys[i]);
    } else {
      assert ys[i] in multiset(xs) && ys[j] in multiset(xs);
      var m :| 0 <= m < |xs| && xs[m] == ys[i];
      var n :| 0 <= n < |xs| && xs[n] == ys[j];
    }
  }

  // ----- Any arrangement ----------------------------------------------------------------------

  lemma WithoutOne<T>(ys: seq<T>, k: nat)
    requires k < |ys|
    ensures multiset(ys[..k] + ys[k + 1..]) == multiset(ys) - multiset{ys[k]}
  {
    assert ys == ys[..k] + [ys[k]] + ys[k + 1..];
  }

  lemma MappedAround<T, U>(xs: seq<T>, x: T, ys: seq<T>, f: T -> U)
    ensures Mapped(xs + [x] + ys, f) == Mapped(xs, f) + [f(x)] + Mapped(ys, f)
    ensures Mapped(xs + ys, f) == Mapped(xs, f) + Mapped(ys, f)
  {
  }

  lemma MappedWithoutOne<T, U>(ys: seq<T>, k: nat, f: T -> U)
    requires k < |ys|
    ensures multiset(Mapped(ys, f)) == multiset(Mapped(ys[..k] + ys[k + 1..], f)) + multiset{f(ys[k])}
  {
    assert ys == ys[..k] + [ys[k]] + ys[k + 1..];
    MappedAround(ys[..k], ys[k], ys[k + 1..], f);
  }

  // The images of the same elements are the same, however they are arranged.
  lemma {:induction false} MappedInAnyOrder<T, U>(xs: seq<T>, ys: seq<T>, f: T -> U)
    requires multiset(xs) == multiset(ys)
    ensures multiset(Mapped(xs, f)) == multiset(Mapped(ys, f))
  {
    SameLength(xs, ys);
    if xs != [] {
      var last := xs[|xs| - 1];
      assert last in multiset(ys);
      var k :| 0 <= k < |ys| && ys[k] == last;
      FrontOf(xs);
      WithoutOne(ys, k);
      MappedInAnyOrder(xs[..|xs| - 1], ys[..k] + ys[k + 1..], f);
      MappedWithoutOne(ys, k, f);
      MappedWithoutOne(xs, |xs| - 1, f);
      assert xs[..|xs| - 1] + xs[|xs|..] == xs[..|xs| - 1];
    }
  }
}
