/**
  Sequences, and the stable sort by key that the repository takes from the Rust
  standard library (`sort_by_key`).
 */
module Sorting {

  /** Sorted in ascending order of the key. */
  ghost predicate Sorted<T>(s: seq<T>, key: T -> int) {
    forall i, j :: 0 <= i < j < |s| ==> key(s[i]) <= key(s[j])
  }

  /** No two positions carry the same key. */
  ghost predicate DistinctKeys<T>(s: seq<T>, key: T -> int) {
    forall i, j :: 0 <= i < j < |s| ==> key(s[i]) != key(s[j])
  }

  /** The elements of `s` that carry the key `k`, in their order. */
  function WithKey<T>(s: seq<T>, key: T -> int, k: int): seq<T> {
    if s == [] then []
    else (if key(s[0]) == k then [s[0]] else []) + WithKey(s[1..], key, k)
  }

  function Insert<T>(x: T, s: seq<T>, key: T -> int): seq<T> {
    if s == [] || key(x) <= key(s[0]) then [x] + s else [s[0]] + Insert(x, s[1..], key)
  }

  /** Stable sort by key. */
  function SortBy<T>(s: seq<T>, key: T -> int): seq<T> {
    if s == [] then [] else Insert(s[0], SortBy(s[1..], key), key)
  }

  ghost predicate AtLeast<T>(s: seq<T>, key: T -> int, k: int) {
    forall j :: 0 <= j < |s| ==> k <= key(s[j])
  }

  lemma {:induction false} InsertAtLeast<T>(x: T, s: seq<T>, key: T -> int, k: int)
    requires k <= key(x) && AtLeast(s, key, k)
    ensures AtLeast(Insert(x, s, key), key, k)
  {
    if s != [] && key(x) > key(s[0]) {
      InsertAtLeast(x, s[1..], key, k);
    }
  }

  lemma {:induction false} InsertSorts<T>(x: T, s: seq<T>, key: T -> int)
    requires Sorted(s, key)
    ensures Sorted(Insert(x, s, key), key)
  {
    if s != [] && key(x) > key(s[0]) {
      InsertSorts(x, s[1..], key);
      InsertAtLeast(x, s[1..], key, key(s[0]));
    }
  }

  lemma {:induction false} InsertAdds<T>(x: T, s: seq<T>, key: T -> int)
    ensures multiset(Insert(x, s, key)) == multiset{x} + multiset(s)
  {
    if s != [] && key(x) > key(s[0]) {
      InsertAdds(x, s[1..], key);
      assert s == [s[0]] + s[1..];
    }
  }

  /** The result is sorted and a permutation of the input. */
  lemma {:induction false} SortBySorts<T>(s: seq<T>, key: T -> int)
    ensures Sorted(SortBy(s, key), key)
    ensures multiset(SortBy(s, key)) == multiset(s)
    ensures |SortBy(s, key)| == |s|
  {
    if s != [] {
      SortBySorts(s[1..], key);
      InsertSorts(s[0], SortBy(s[1..], key), key);
      InsertAdds(s[0], SortBy(s[1..], key), key);
      assert s == [s[0]] + s[1..];
    }
    assert |multiset(SortBy(s, key))| == |SortBy(s, key)| && |multiset(s)| == |s|;
  }

  lemma WithKeyHead<T>(x: T, s: seq<T>, key: T -> int, k: int)
    ensures WithKey([x] + s, key, k) == (if key(x) == k then [x] else []) + WithKey(s, key, k)
  {
    assert ([x] + s)[1..] == s;
  }

  lemma {:induction false} InsertIsStable<T>(x: T, s: seq<T>, key: T -> int, k: int)
    ensures WithKey(Insert(x, s, key), key, k) == (if key(x) == k then [x] else []) + WithKey(s, key, k)
  {
    if s == [] || key(x) <= key(s[0]) {
      WithKeyHead(x, s, key, k);
    } else {
      InsertIsStable(x, s[1..], key, k);
      WithKeyHead(s[0], Insert(x, s[1..], key), key, k);
    }
  }

  /** Elements of equal key keep their order. */
  lemma {:induction false} SortByIsStable<T>(s: seq<T>, key: T -> int, k: int)
    ensures WithKey(SortBy(s, key), key, k) == WithKey(s, key, k)
  {
    if s != [] {
      SortByIsStable(s[1..], key, k);
      InsertIsStable(s[0], SortBy(s[1..], key), key, k);
    }
  }

  lemma SortByLength<T>(s: seq<T>, key: T -> int)
    ensures |SortBy(s, key)| == |s|
  {
    SortBySorts(s, key);
  }

  lemma SameLength<T>(a: seq<T>, b: seq<T>)
    requires multiset(a) == multiset(b)
    ensures |a| == |b|
  {
    assert |multiset(a)| == |a| && |multiset(b)| == |b|;
  }

  // The head of a sorted permutation is the element of least key.
  lemma SameHead<T>(a: seq<T>, b: seq<T>, key: T -> int)
    requires Sorted(a, key) && Sorted(b, key)
    requires DistinctKeys(a, key)
    requires multiset(a) == multiset(b)
    requires a != [] && b != []
    ensures a[0] == b[0]
  {
    assert b[0] in multiset(a) && a[0] in multiset(b);
    var i :| 0 <= i < |a| && a[i] == b[0];
    var j :| 0 <= j < |b| && b[j] == a[0];
    assert key(b[0]) <= key(b[j]);
  }

  lemma TailMultiset<T>(a: seq<T>)
    requires a != []
    ensures multiset(a[1..]) == multiset(a) - multiset{a[0]}
  {
    assert a == [a[0]] + a[1..];
  }

  /** With distinct keys there is only one sorted order. */
  lemma {:induction false} SortedIsUnique<T>(a: seq<T>, b: seq<T>, key: T -> int)
    requires Sorted(a, key) && Sorted(b, key)
    requires DistinctKeys(a, key)
    requires multiset(a) == multiset(b)
    ensures a == b
  {
    SameLength(a, b);
    if a != [] {
      SameHead(a, b, key);
      TailMultiset(a);
      TailMultiset(b);
      SortedIsUnique(a[1..], b[1..], key);
      assert a == [a[0]] + a[1..] && b == [b[0]] + b[1..];
    }
  }

  /** Every key of `x` is below every key of `y`. */
  ghost predicate AllBelow<T>(x: seq<T>, y: seq<T>, key: T -> int) {
    forall i, j :: 0 <= i < |x| && 0 <= j < |y| ==> key(x[i]) < key(y[j])
  }

  lemma AllBelowOfPermutation<T>(x: seq<T>, y: seq<T>, x': seq<T>, y': seq<T>, key: T -> int)
    requires AllBelow(x, y, key)
    requires multiset(x) == multiset(x') && multiset(y) == multiset(y')
    ensures AllBelow(x', y', key)
  {
    forall i, j | 0 <= i < |x'| && 0 <= j < |y'| ensures key(x'[i]) < key(y'[j]) {
      assert x'[i] in multiset(x) && y'[j] in multiset(y);
    }
  }

  lemma ConcatSorted<T>(x: seq<T>, y: seq<T>, key: T -> int)
    requires Sorted(x, key) && Sorted(y, key)
    requires AllBelow(x, y, key)
    ensures Sorted(x + y, key)
  {
  }

  /** Sorting `all` when it splits into `x` and `y` with every key of `x` below every key of `y`. */
  lemma SortByConcat<T>(x: seq<T>, y: seq<T>, all: seq<T>, key: T -> int)
    requires multiset(x) + multiset(y) == multiset(all)
    requires DistinctKeys(all, key)
    requires AllBelow(x, y, key)
    ensures SortBy(all, key) == SortBy(x, key) + SortBy(y, key)
  {
    var sx, sy, sa := SortBy(x, key), SortBy(y, key), SortBy(all, key);
    SortBySorts(x, key);
    SortBySorts(y, key);
    SortBySorts(all, key);
    AllBelowOfPermutation(x, y, sx, sy, key);
    ConcatSorted(sx, sy, key);
    DistinctOfPermutation(all, sa, key);
    SortedIsUnique(sa, sx + sy, key);
  }

  lemma {:induction false} DistinctOfPermutation<T>(a: seq<T>, b: seq<T>, key: T -> int)
    requires multiset(a) == multiset(b)
    requires DistinctKeys(a, key)
    ensures DistinctKeys(b, key)
  {
    forall i, j | 0 <= i < j < |b| ensures key(b[i]) != key(b[j]) {
      assert b[i] in multiset(a) && b[j] in multiset(a);
      if key(b[i]) == key(b[j]) {
        assert b[i] == b[j];
        assert b == b[..i] + [b[i]] + b[i + 1..j] + [b[j]] + b[j + 1..];
        assert multiset(b)[b[i]] >= 2;
        OnceOnly(a, b[i], key);
      }
    }
  }

  lemma {:induction false} OnceOnly<T>(a: seq<T>, x: T, key: T -> int)
    requires DistinctKeys(a, key)
    ensures multiset(a)[x] <= 1
  {
    if a != [] {
      assert a == [a[0]] + a[1..];
      OnceOnly(a[1..], x, key);
      assert a[0] !in a[1..];
    }
  }

  /** The first `n` elements (all of them when there are fewer). */
  function Take<T>(s: seq<T>, n: nat): seq<T> {
    if n <= |s| then s[..n] else s
  }

  lemma TakeCons<T>(x: T, rest: seq<T>, n: nat)
    ensures Take([x] + rest, n) == if n == 0 then [] else [x] + Take(rest, n - 1)
  {
  }

  /** Taking from a part that holds enough of the least keys is taking from the whole. */
  lemma TakeFromPart<T>(x: seq<T>, y: seq<T>, all: seq<T>, key: T -> int, n: nat)
    requires multiset(x) + multiset(y) == multiset(all)
    requires DistinctKeys(all, key) && AllBelow(x, y, key)
    requires |x| >= n || y == []
    ensures Take(SortBy(x, key), n) == Take(SortBy(all, key), n)
  {
    SortByConcat(x, y, all, key);
    SortByLength(x, key);
    if y == [] {
      assert SortBy(all, key) == SortBy(x, key);
    }
  }

  /** `r` and `rest` split `s`, every key of `r` below every key of `rest`, and `rest`
      is what does not fit into `n`. */
  ghost predicate Split<T>(r: seq<T>, rest: seq<T>, s: seq<T>, key: T -> int, n: nat) {
    && multiset(r) + multiset(rest) == multiset(s)
    && AllBelow(r, rest, key)
    && (|r| == n || (|r| < n && rest == []))
  }

  /** `r` is sorted and holds the `n` elements of `s` with the least keys. */
  ghost predicate LeastOf<T(!new)>(r: seq<T>, s: seq<T>, key: T -> int, n: nat) {
    Sorted(r, key) && exists rest :: Split(r, rest, s, key, n)
  }

  lemma CutSorted<T>(s: seq<T>, key: T -> int, n: nat)
    requires n <= |s| && Sorted(s, key) && DistinctKeys(s, key)
    ensures Sorted(s[..n], key) && AllBelow(s[..n], s[n..], key)
  {
    forall i, j | 0 <= i < n && 0 <= j < |s[n..]| ensures key(s[..n][i]) < key(s[n..][j]) {
      assert s[..n][i] == s[i] && s[n..][j] == s[n + j];
    }
  }

  lemma CutIsLeast<T(!new)>(sorted: seq<T>, s: seq<T>, key: T -> int, m: nat, n: nat)
    requires Sorted(sorted, key) && DistinctKeys(sorted, key) && multiset(sorted) == multiset(s)
    requires m <= |sorted| && (m == n || (m < n && m == |sorted|))
    ensures LeastOf(sorted[..m], s, key, n)
  {
    CutSorted(sorted, key, m);
    assert sorted == sorted[..m] + sorted[m..];
    assert Split(sorted[..m], sorted[m..], s, key, n);
  }

  lemma TakeIsLeast<T(!new)>(s: seq<T>, key: T -> int, n: nat)
    requires DistinctKeys(s, key)
    ensures LeastOf(Take(SortBy(s, key), n), s, key, n)
  {
    var sorted := SortBy(s, key);
    SortBySorts(s, key);
    DistinctOfPermutation(s, sorted, key);
    var m := if n <= |sorted| then n else |sorted|;
    assert Take(sorted, n) == sorted[..m];
    CutIsLeast(sorted, s, key, m, n);
  }

  function Flatten<T>(ss: seq<seq<T>>): seq<T> {
    if ss == [] then [] else ss[0] + Flatten(ss[1..])
  }

  lemma ConcatAssociates<T>(x: seq<T>, y: seq<T>, z: seq<T>)
    ensures x + (y + z) == (x + y) + z
  {
  }

  lemma {:induction false} FlattenConcat<T>(a: seq<seq<T>>, b: seq<seq<T>>)
    ensures Flatten(a + b) == Flatten(a) + Flatten(b)
  {
    if a == [] {
      assert a + b == b;
    } else {
      calc {
        Flatten(a + b);
        { assert (a + b)[0] == a[0] && (a + b)[1..] == a[1..] + b; }
        a[0] + Flatten(a[1..] + b);
        { FlattenConcat(a[1..], b); }
        a[0] + (Flatten(a[1..]) + Flatten(b));
        { ConcatAssociates(a[0], Flatten(a[1..]), Flatten(b)); }
        Flatten(a) + Flatten(b);
      }
    }
  }

  lemma {:induction false} FlattenMember<T>(ss: seq<seq<T>>, x: T) returns (i: nat)
    requires x in Flatten(ss)
    ensures i < |ss| && x in ss[i]
  {
    if x in ss[0] {
      i := 0;
    } else {
      var k := FlattenMember(ss[1..], x);
      i := k + 1;
    }
  }

  lemma FlattenCut<T>(ss: seq<seq<T>>, k: nat)
    requires k <= |ss|
    ensures multiset(Flatten(ss[..k])) + multiset(Flatten(ss[k..])) == multiset(Flatten(ss))
  {
    FlattenConcat(ss[..k], ss[k..]);
    assert ss[..k] + ss[k..] == ss;
  }
}
