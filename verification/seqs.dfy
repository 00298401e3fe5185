/** Generic sequence helpers: order-preserving filter, counting, and the
    stable sort by an integer key that Python's `sorted`/`list.sort` provide. */
module Seqs {

  /** The elements of `s` that satisfy `p`, in their original order. */
  function Filter<T>(s: seq<T>, p: T -> bool): (r: seq<T>)
    ensures |r| <= |s|
    ensures forall i :: 0 <= i < |r| ==> r[i] in s && p(r[i])
    ensures forall i :: 0 <= i < |s| && p(s[i]) ==> s[i] in r
    ensures multiset(r) <= multiset(s)
    decreases |s|
  {
    if s == [] then []
    else
      assert s == [s[0]] + s[1..];
      (if p(s[0]) then [s[0]] else []) + Filter(s[1..], p)
  }

  lemma {:induction false} FilterConcat<T>(a: seq<T>, b: seq<T>, p: T -> bool)
    ensures Filter(a + b, p) == Filter(a, p) + Filter(b, p)
    decreases |a|
  {
    if a == [] {
      assert a + b == b;
    } else {
      assert (a + b)[1..] == a[1..] + b;
      FilterConcat(a[1..], b, p);
    }
  }

  /** Filtering decides the head, then filters the rest. */
  lemma FilterHead<T>(s: seq<T>, p: T -> bool)
    requires s != []
    ensures Filter(s, p) == (if p(s[0]) then [s[0]] else []) + Filter(s[1..], p)
  {
  }

  /** Filtering keeps every copy of an element that satisfies `p` and no
      copy of one that does not. */
  lemma {:induction false} FilterCount<T>(s: seq<T>, p: T -> bool, x: T)
    ensures multiset(Filter(s, p))[x] == if p(x) then multiset(s)[x] else 0
    decreases |s|
  {
    if s != [] {
      FilterCount(s[1..], p, x);
      FilterHead(s, p);
      var h := if p(s[0]) then [s[0]] else [];
      assert multiset(Filter(s, p)) == multiset(h) + multiset(Filter(s[1..], p));
      assert multiset(s) == multiset{s[0]} + multiset(s[1..]) by {
        assert s == [s[0]] + s[1..];
      }
    }
  }

  /** Number of elements of `s` satisfying `p`. */
  function Count<T>(s: seq<T>, p: T -> bool): nat
  {
    |Filter(s, p)|
  }

  function Min(a: int, b: int): int { if a <= b then a else b }

  predicate SortedBy<T>(s: seq<T>, key: T -> int)
  {
    forall i, j :: 0 <= i < j < |s| ==> key(s[i]) <= key(s[j])
  }

  /** The subsequence of `s` whose key is `k`: a stable sort leaves it unchanged. */
  function WithKey<T>(s: seq<T>, key: T -> int, k: int): (r: seq<T>)
    ensures |r| <= |s|
    decreases |s|
  {
    if s == [] then []
    else (if key(s[0]) == k then [s[0]] else []) + WithKey(s[1..], key, k)
  }

  lemma {:induction false} WithKeyConcat<T>(a: seq<T>, b: seq<T>, key: T -> int, k: int)
    ensures WithKey(a + b, key, k) == WithKey(a, key, k) + WithKey(b, key, k)
    decreases |a|
  {
    if a == [] {
      assert a + b == b;
    } else {
      var c := a + b;
      assert c[0] == a[0];
      assert c[1..] == a[1..] + b;
      WithKeyConcat(a[1..], b, key, k);
      assert WithKey(c, key, k) == (if key(a[0]) == k then [a[0]] else []) + WithKey(c[1..], key, k);
    }
  }

  /** A prefix of `s` contributes a prefix of `WithKey(s, …)`. */
  lemma WithKeyPrefix<T>(a: seq<T>, s: seq<T>, key: T -> int, k: int)
    requires |a| <= |s| && s[..|a|] == a
    ensures |WithKey(a, key, k)| <= |WithKey(s, key, k)|
    ensures WithKey(s, key, k)[..|WithKey(a, key, k)|] == WithKey(a, key, k)
  {
    assert s == a + s[|a|..];
    WithKeyConcat(a, s[|a|..], key, k);
  }

  lemma {:induction false} WithKeyNone<T>(s: seq<T>, key: T -> int, k: int)
    requires forall i :: 0 <= i < |s| ==> key(s[i]) != k
    ensures WithKey(s, key, k) == []
    decreases |s|
  {
    if s != [] {
      WithKeyNone(s[1..], key, k);
    }
  }

  /** Inserts `x` after every element whose key is not greater than its own. */
  function Insert<T>(s: seq<T>, x: T, key: T -> int): (r: seq<T>)
    ensures |r| == |s| + 1
    ensures multiset(r) == multiset(s) + multiset{x}
    decreases |s|
  {
    if s == [] then [x]
    else if key(s[0]) > key(x) then [x] + s
    else
      assert s == [s[0]] + s[1..];
      [s[0]] + Insert(s[1..], x, key)
  }

  lemma {:induction false} InsertSorted<T>(s: seq<T>, x: T, key: T -> int)
    requires SortedBy(s, key)
    ensures SortedBy(Insert(s, x, key), key)
    decreases |s|
  {
    if s == [] {
      assert Insert(s, x, key) == [x];
    } else if key(s[0]) > key(x) {
      assert Insert(s, x, key) == [x] + s;
      ConsSorted(x, s, key);
    } else {
      var tail := s[1..];
      var t := Insert(tail, x, key);
      assert SortedBy(tail, key) by {
        forall i, j | 0 <= i < j < |tail| ensures key(tail[i]) <= key(tail[j]) {
          assert tail[i] == s[i + 1] && tail[j] == s[j + 1];
        }
      }
      InsertSorted(tail, x, key);
      assert key(s[0]) <= key(t[0]) by {
        if tail != [] && key(tail[0]) <= key(x) {
          assert t[0] == tail[0] == s[1];
        } else {
          assert t[0] == x;
        }
      }
      assert Insert(s, x, key) == [s[0]] + t;
      ConsSorted(s[0], t, key);
    }
  }

  /** A sorted sequence stays sorted under a head no greater than its first. */
  lemma ConsSorted<T>(a: T, t: seq<T>, key: T -> int)
    requires SortedBy(t, key) && (t != [] ==> key(a) <= key(t[0]))
    ensures SortedBy([a] + t, key)
  {
    var r := [a] + t;
    forall i, j | 0 <= i < j < |r| ensures key(r[i]) <= key(r[j]) {
      assert r[j] == t[j - 1];
      if i > 0 {
        assert r[i] == t[i - 1];
      } else if j > 1 {
        assert key(t[0]) <= key(t[j - 1]);
      }
    }
  }

  lemma {:induction false} InsertWithKey<T>(s: seq<T>, x: T, key: T -> int, k: int)
    requires SortedBy(s, key)
    ensures WithKey(Insert(s, x, key), key, k)
         == WithKey(s, key, k) + (if key(x) == k then [x] else [])
    decreases |s|
  {
    if s == [] {
    } else if key(s[0]) > key(x) {
      var r := [x] + s;
      assert r[1..] == s;
      if key(x) == k {
        WithKeyNone(s, key, k);
      }
    } else {
      var t := Insert(s[1..], x, key);
      var r := [s[0]] + t;
      assert r[1..] == t;
      assert SortedBy(s[1..], key) by {
        forall i, j | 0 <= i < j < |s[1..]| ensures key(s[1..][i]) <= key(s[1..][j]) {
          assert s[1..][i] == s[i + 1] && s[1..][j] == s[j + 1];
        }
      }
      InsertWithKey(s[1..], x, key, k);
      var head := if key(s[0]) == k then [s[0]] else [];
      var tail := if key(x) == k then [x] else [];
      assert WithKey(r, key, k) == head + WithKey(t, key, k);
      assert WithKey(s, key, k) == head + WithKey(s[1..], key, k);
      assert head + (WithKey(s[1..], key, k) + tail) == (head + WithKey(s[1..], key, k)) + tail;
    }
  }

  /** Stable insertion sort, ascending by `key`. */
  function SortBy<T>(s: seq<T>, key: T -> int): (r: seq<T>)
    ensures |r| == |s|
    ensures multiset(r) == multiset(s)
    ensures SortedBy(r, key)
    decreases |s|
  {
    if s == [] then []
    else
      var init := s[..|s| - 1];
      assert s == init + [s[|s| - 1]];
      InsertSorted(SortBy(init, key), s[|s| - 1], key);
      Insert(SortBy(init, key), s[|s| - 1], key)
  }

  /** Stability: sorting does not reorder elements that share a key. */
  lemma {:induction false} SortByStable<T>(s: seq<T>, key: T -> int, k: int)
    ensures WithKey(SortBy(s, key), key, k) == WithKey(s, key, k)
    decreases |s|
  {
    if s != [] {
      var init := s[..|s| - 1];
      var x := s[|s| - 1];
      assert s == init + [x];
      SortByStable(init, key, k);
      InsertWithKey(SortBy(init, key), x, key, k);
      WithKeyConcat(init, [x], key, k);
    }
  }

  /** A sorted sequence has its smallest-key elements first: anything with a
      key below some element in the first `n` is itself among the first `n`. */
  lemma SortedPrefixHoldsSmaller<T>(s: seq<T>, key: T -> int, n: nat, i: nat, y: T)
    requires SortedBy(s, key)
    requires i < n <= |s|
    requires y in s && key(y) < key(s[i])
    ensures y in s[..n]
  {
    var j :| 0 <= j < |s| && s[j] == y;
    assert s[j] == s[..n][j];
  }

  /** `f` applied to each element, in order. */
  function Map<S, M>(s: seq<S>, f: S --> M): (r: seq<M>)
    requires forall i :: 0 <= i < |s| ==> f.requires(s[i])
    ensures |r| == |s|
    ensures forall i :: 0 <= i < |s| ==> r[i] == f(s[i])
    decreases |s|
  {
    if s == [] then [] else [f(s[0])] + Map(s[1..], f)
  }

  /** Mapping the kept elements: one result per kept element, and each
      result is the image of a kept element. */
  lemma MapFilterMembers<S, M>(s: seq<S>, p: S -> bool, f: S --> M)
    requires forall x :: p(x) ==> f.requires(x)
    ensures forall i :: 0 <= i < |Filter(s, p)| ==> f.requires(Filter(s, p)[i])
    ensures |Map(Filter(s, p), f)| == Count(s, p)
    ensures forall j :: 0 <= j < |s| && p(s[j]) ==> f(s[j]) in Map(Filter(s, p), f)
    ensures forall i :: 0 <= i < |Map(Filter(s, p), f)| ==>
      exists j :: 0 <= j < |s| && p(s[j]) && Map(Filter(s, p), f)[i] == f(s[j])
  {
    var kept := Filter(s, p);
    assert forall i :: 0 <= i < |kept| ==> p(kept[i]);
    var r := Map(kept, f);
    forall j | 0 <= j < |s| && p(s[j]) ensures f(s[j]) in r {
      var k :| 0 <= k < |kept| && kept[k] == s[j];
      assert r[k] == f(s[j]);
    }
    forall i | 0 <= i < |r| ensures exists j :: 0 <= j < |s| && p(s[j]) && r[i] == f(s[j]) {
      var j :| 0 <= j < |s| && s[j] == kept[i];
      assert p(s[j]);
    }
  }

  lemma {:induction false} MapConcat<S, M>(a: seq<S>, b: seq<S>, f: S --> M)
    requires forall i :: 0 <= i < |a| ==> f.requires(a[i])
    requires forall i :: 0 <= i < |b| ==> f.requires(b[i])
    ensures Map(a + b, f) == Map(a, f) + Map(b, f)
  {
    var l, r := Map(a + b, f), Map(a, f) + Map(b, f);
    assert |l| == |r|;
    forall i | 0 <= i < |l| ensures l[i] == r[i] {
      if i < |a| { assert (a + b)[i] == a[i]; } else { assert (a + b)[i] == b[i - |a|]; }
    }
  }


  /** Python's `s[:n]`: a negative `n` counts from the end. */
  function PrefixSlice<T>(s: seq<T>, n: int): (r: seq<T>)
    ensures n >= 0 ==> |r| == Min(n, |s|)
    ensures n < 0 ==> |r| == if |s| + n >= 0 then |s| + n else 0
    ensures r == s[..|r|]
  {
    if n >= |s| then s
    else if n >= 0 then s[..n]
    else if |s| + n >= 0 then s[..|s| + n]
    else []
  }

  /** The first `n` after a stable sort: still sorted, and drawn from `s`. */
  lemma SortedPrefix<T>(s: seq<T>, key: T -> int, n: int)
    ensures SortedBy(PrefixSlice(SortBy(s, key), n), key)
    ensures multiset(PrefixSlice(SortBy(s, key), n)) <= multiset(s)
  {
    var sorted := SortBy(s, key);
    var r := PrefixSlice(sorted, n);
    assert sorted == r + sorted[|r|..];
  }

  /** The same for the elements that pass `p`: each one kept is in `s` and
      passes `p`. */
  lemma FilterSortedPrefix<T>(s: seq<T>, p: T -> bool, key: T -> int, n: int)
    ensures var r := PrefixSlice(SortBy(Filter(s, p), key), n);
      (n >= 0 ==> |r| == Min(n, Count(s, p)))
      && SortedBy(r, key) && multiset(r) <= multiset(Filter(s, p))
      && forall i :: 0 <= i < |r| ==> r[i] in s && p(r[i])
  {
    var cands := Filter(s, p);
    var r := PrefixSlice(SortBy(cands, key), n);
    SortedPrefix(cands, key, n);
    forall i | 0 <= i < |r| ensures r[i] in s && p(r[i]) {
      assert r[i] in multiset(r);
      assert r[i] in cands;
    }
  }
}
