/** Sequence algorithms both registries share: the id counter seed and the
    stable descending sort behind the rankings. */
module Seqs {
  import opened JavaInt

  /** `mapToInt(...).max().orElse(0)`. */
  function MaxOrZero(xs: seq<int>): (m: int)
    ensures forall i :: 0 <= i < |xs| ==> xs[i] <= m
    ensures |xs| > 0 ==> exists i :: 0 <= i < |xs| && xs[i] == m
    ensures |xs| == 0 ==> m == 0
    decreases |xs|
  {
    if |xs| == 0 then 0
    else if |xs| == 1 then xs[0]
    else
      var rest := MaxOrZero(xs[1..]);
      if xs[0] >= rest then xs[0] else rest
  }

  /** The counter seed `max().orElse(0) + 1`, over unbounded integers:
      above every existing id, and 1 for an empty registry. */
  function NextId(ids: seq<int>): (n: int)
    ensures forall i :: 0 <= i < |ids| ==> ids[i] < n
    ensures |ids| == 0 ==> n == 1
    ensures |ids| > 0 ==> exists i :: 0 <= i < |ids| && ids[i] == n - 1
  {
    MaxOrZero(ids) + 1
  }

  /** The seed with the source's 32-bit `int` addition, which wraps when the
      largest id is `MAX_INT`. */
  function NextIdAsWritten(ids: seq<int>): (n: int)
    ensures IsInt32(n)
    ensures IsInt32(MaxOrZero(ids) + 1) ==> n == NextId(ids)
  {
    WrapOfInt32(MaxOrZero(ids) + 1);
    Wrap32(MaxOrZero(ids) + 1)
  }

  /** Appending an id one above every existing id moves the seed up by one. */
  lemma NextIdSnoc(ids: seq<int>, x: int)
    requires x == NextId(ids)
    ensures NextId(ids + [x]) == x + 1
  {
    var n := NextId(ids + [x]);
    assert (ids + [x])[|ids|] == x;
    var i :| 0 <= i < |ids + [x]| && (ids + [x])[i] == n - 1;
    if i < |ids| {
      assert (ids + [x])[i] == ids[i];
    }
  }

  /** When the largest id is `MAX_INT` the seed wraps to `MIN_INT`, an id
      that may already be taken. */
  lemma NextIdAsWrittenWraps()
    ensures NextIdAsWritten([MAX_INT, MIN_INT]) == MIN_INT
  {
    var ids := [MAX_INT, MIN_INT];
    assert MaxOrZero(ids) == MAX_INT;
    WrapOfInt32(MIN_INT);
    WrapAddLeft(MAX_INT + 1 - TWO_32, TWO_32);
  }

  predicate SortedDesc<T>(s: seq<T>, key: T -> int) {
    forall i, j :: 0 <= i < j < |s| ==> key(s[i]) >= key(s[j])
  }

  /** Insertion in front of the first element whose key is not larger, so
      that `x` precedes every element with an equal key. */
  function InsertDesc<T>(x: T, s: seq<T>, key: T -> int): (r: seq<T>)
    requires SortedDesc(s, key)
    ensures SortedDesc(r, key)
    ensures multiset(r) == multiset(s) + multiset{x}
    decreases |s|
  {
    if |s| == 0 || key(x) >= key(s[0]) then [x] + s
    else
      var tail := InsertDesc(x, s[1..], key);
      assert s == [s[0]] + s[1..];
      TailBelowHead(x, s, tail, key);
      ConsSorted(s[0], tail, key);
      [s[0]] + tail
  }

  /** Every element of `s[1..]` plus `x` has a key no larger than `s[0]`'s
      when `x`'s key is smaller. */
  lemma TailBelowHead<T>(x: T, s: seq<T>, tail: seq<T>, key: T -> int)
    requires SortedDesc(s, key) && |s| > 0 && key(x) < key(s[0])
    requires multiset(tail) == multiset(s[1..]) + multiset{x}
    ensures forall j :: 0 <= j < |tail| ==> key(tail[j]) <= key(s[0])
  {
    forall j | 0 <= j < |tail|
      ensures key(tail[j]) <= key(s[0])
    {
      assert tail[j] in multiset(tail);
      if tail[j] != x {
        assert tail[j] in multiset(s[1..]);
        var k :| 0 <= k < |s[1..]| && s[1..][k] == tail[j];
        assert s[k + 1] == tail[j];
      }
    }
  }

  /** A head no smaller than every element keeps a sorted list sorted. */
  lemma ConsSorted<T>(h: T, t: seq<T>, key: T -> int)
    requires SortedDesc(t, key)
    requires forall j :: 0 <= j < |t| ==> key(t[j]) <= key(h)
    ensures SortedDesc([h] + t, key)
  {
    var r := [h] + t;
    forall i, j | 0 <= i < j < |r|
      ensures key(r[i]) >= key(r[j])
    {
      assert r[j] == t[j - 1];
      if i > 0 {
        assert r[i] == t[i - 1];
      }
    }
  }

  /** A stable sort on a key, largest key first (the source's
      `sorted(comparingInt(key).reversed())`). */
  function SortDesc<T>(s: seq<T>, key: T -> int): (r: seq<T>)
    ensures SortedDesc(r, key)
    ensures multiset(r) == multiset(s)
    decreases |s|
  {
    if |s| == 0 then []
    else
      assert s == [s[0]] + s[1..];
      InsertDesc(s[0], SortDesc(s[1..], key), key)
  }

  /** The elements whose key is `k`, in their order in `s`. */
  function WithKey<T>(s: seq<T>, key: T -> int, k: int): seq<T>
    decreases |s|
  {
    if |s| == 0 then []
    else (if key(s[0]) == k then [s[0]] else []) + WithKey(s[1..], key, k)
  }

  lemma {:induction false} WithKeyAppend<T>(a: seq<T>, b: seq<T>, key: T -> int, k: int)
    ensures WithKey(a + b, key, k) == WithKey(a, key, k) + WithKey(b, key, k)
    decreases |a|
  {
    if |a| == 0 {
      assert a + b == b;
    } else {
      var h := if key(a[0]) == k then [a[0]] else [];
      assert (a + b)[0] == a[0];
      assert (a + b)[1..] == a[1..] + b;
      assert WithKey(a + b, key, k) == h + WithKey(a[1..] + b, key, k);
      WithKeyAppend(a[1..], b, key, k);
      assert WithKey(a, key, k) == h + WithKey(a[1..], key, k);
    }
  }

  lemma {:induction false} InsertDescStable<T>(x: T, s: seq<T>, key: T -> int, k: int)
    requires SortedDesc(s, key)
    ensures WithKey(InsertDesc(x, s, key), key, k) == WithKey([x], key, k) + WithKey(s, key, k)
    decreases |s|
  {
    if |s| == 0 || key(x) >= key(s[0]) {
      WithKeyAppend([x], s, key, k);
    } else {
      var tail := InsertDesc(x, s[1..], key);
      InsertDescStable(x, s[1..], key, k);
      WithKeyAppend([s[0]], tail, key, k);
      assert s == [s[0]] + s[1..];
      WithKeyAppend([s[0]], s[1..], key, k);
      assert WithKey([x], key, k) == [] || WithKey([s[0]], key, k) == [];
    }
  }

  /** Stability: elements with equal keys keep their original order. */
  lemma {:induction false} SortDescStable<T>(s: seq<T>, key: T -> int, k: int)
    ensures WithKey(SortDesc(s, key), key, k) == WithKey(s, key, k)
    decreases |s|
  {
    if |s| > 0 {
      var rest := SortDesc(s[1..], key);
      var head := WithKey([s[0]], key, k);
      assert SortDesc(s, key) == InsertDesc(s[0], rest, key);
      assert WithKey(InsertDesc(s[0], rest, key), key, k) == head + WithKey(rest, key, k) by {
        InsertDescStable(s[0], rest, key, k);
      }
      assert WithKey(rest, key, k) == WithKey(s[1..], key, k) by {
        SortDescStable(s[1..], key, k);
      }
      assert WithKey(s, key, k) == head + WithKey(s[1..], key, k) by {
        assert s == [s[0]] + s[1..];
        WithKeyAppend([s[0]], s[1..], key, k);
      }
    }
  }

  ghost predicate IsPrefix<T>(a: seq<T>, b: seq<T>) {
    |a| <= |b| && a == b[..|a|]
  }

  function Min(a: int, b: int): int {
    if a <= b then a else b
  }

  /** `sorted(...).limit(n)`: the first `n` elements of the stable sort, or
      all of them when there are fewer. */
  function TopDesc<T>(s: seq<T>, key: T -> int, n: nat): (r: seq<T>)
    ensures |r| == Min(n, |s|)
    ensures SortedDesc(r, key)
    ensures multiset(r) <= multiset(s)
  {
    var sorted := SortDesc(s, key);
    SortedLength(s, key);
    var m := Min(n, |s|);
    assert sorted == sorted[..m] + sorted[m..];
    sorted[..m]
  }

  lemma SortedLength<T>(s: seq<T>, key: T -> int)
    ensures |SortDesc(s, key)| == |s|
  {
    assert |SortDesc(s, key)| == |multiset(SortDesc(s, key))| == |multiset(s)|;
  }

  lemma MultisetSplit<T>(s: seq<T>, m: int)
    requires 0 <= m <= |s|
    ensures multiset(s) == multiset(s[..m]) + multiset(s[m..])
  {
    assert s == s[..m] + s[m..];
  }

  lemma TopDescSplit<T>(s: seq<T>, key: T -> int, n: nat)
    ensures var sorted := SortDesc(s, key);
            && Min(n, |s|) <= |sorted|
            && TopDesc(s, key, n) == sorted[..Min(n, |s|)]
            && multiset(s) == multiset(TopDesc(s, key, n)) + multiset(sorted[Min(n, |s|)..])
  {
    var sorted := SortDesc(s, key);
    SortedLength(s, key);
    MultisetSplit(sorted, Min(n, |s|));
  }

  /** Nothing left out of the top ranks above anything kept in it. */
  lemma TopDescMaximal<T>(s: seq<T>, key: T -> int, n: nat, x: T, i: int)
    requires x in multiset(s) - multiset(TopDesc(s, key, n))
    requires 0 <= i < |TopDesc(s, key, n)|
    ensures key(x) <= key(TopDesc(s, key, n)[i])
  {
    var sorted := SortDesc(s, key);
    var m := Min(n, |s|);
    TopDescSplit(s, key, n);
    var r := TopDesc(s, key, n);
    var rest := sorted[m..];
    assert x in multiset(rest);
    var j :| 0 <= j < |rest| && rest[j] == x;
    assert sorted[m + j] == x;
    assert sorted[i] == r[i];
    assert SortedDesc(sorted, key);
  }

  /** Ties inside the top keep their original order: for every key, the
      kept elements are the first ones of that key in `s`. */
  lemma TopDescStable<T>(s: seq<T>, key: T -> int, n: nat, k: int)
    ensures IsPrefix(WithKey(TopDesc(s, key, n), key, k), WithKey(s, key, k))
  {
    var sorted := SortDesc(s, key);
    SortedLength(s, key);
    var m := Min(n, |s|);
    var r := sorted[..m];
    assert sorted == r + sorted[m..];
    WithKeyAppend(r, sorted[m..], key, k);
    SortDescStable(s, key, k);
  }
}
