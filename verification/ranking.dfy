/** Descending ranking by a numeric key: `sort_values(key, ascending=False)`
    followed by `head(k)`. pandas does not promise a stable sort here, so the
    contracts fix sortedness and the multiset of elements, never the order of ties. */
module Ranking {
  import opened Seqs

  /** Non-increasing by `key`. */
  ghost predicate SortedDesc<T>(s: seq<T>, key: T -> real)
  {
    forall i, j :: 0 <= i < j < |s| ==> key(s[i]) >= key(s[j])
  }

  /** Puts `x` in front of the first element with a smaller key. */
  function Insert<T(!new)>(x: T, s: seq<T>, key: T -> real): (r: seq<T>)
    requires SortedDesc(s, key)
    ensures |r| == |s| + 1
    ensures multiset(r) == multiset(s) + multiset{x}
    ensures forall y :: y in r ==> y == x || y in s
    ensures SortedDesc(r, key)
    decreases |s|
  {
    if |s| == 0 then [x]
    else if key(s[0]) <= key(x) then [x] + s
    else
      var rest := Insert(x, s[1..], key);
      assert s == [s[0]] + s[1..];
      InsertSorted(s, key, x, rest);
      [s[0]] + rest
  }

  lemma InsertSorted<T>(s: seq<T>, key: T -> real, x: T, rest: seq<T>)
    requires |s| > 0 && SortedDesc(s, key)
    requires key(x) < key(s[0])
    requires forall y :: y in rest ==> y == x || y in s[1..]
    requires SortedDesc(rest, key)
    ensures SortedDesc([s[0]] + rest, key)
  {
    var r := [s[0]] + rest;
    forall i, j | 0 <= i < j < |r|
      ensures key(r[i]) >= key(r[j])
    {
      if i == 0 {
        assert r[j] == rest[j - 1] && rest[j - 1] in rest;
        if r[j] != x {
          var m :| 0 <= m < |s[1..]| && s[1..][m] == r[j];
          assert s[m + 1] == r[j];
        }
      } else {
        assert r[i] == rest[i - 1] && r[j] == rest[j - 1];
      }
    }
  }

  /** A descending rearrangement of `s`. */
  function SortDesc<T(!new)>(s: seq<T>, key: T -> real): (r: seq<T>)
    ensures |r| == |s|
    ensures multiset(r) == multiset(s)
    ensures SortedDesc(r, key)
    decreases |s|
  {
    if |s| == 0 then []
    else
      assert s == [s[0]] + s[1..];
      Insert(s[0], SortDesc(s[1..], key), key)
  }

  /** `sort_values(key, ascending=False).head(k)`: as many elements as `head`
      gives, drawn from `s`, in descending order, and no element left behind
      outranks an element taken. */
  function TopK<T(!new)>(s: seq<T>, key: T -> real, k: nat): (r: seq<T>)
    ensures |r| == if k <= |s| then k else |s|
    ensures multiset(r) <= multiset(s)
    ensures SortedDesc(r, key)
    ensures forall x, y :: x in multiset(s) - multiset(r) && y in r ==> key(x) <= key(y)
    ensures |r| > 0 ==> forall x :: x in s ==> key(x) <= key(r[0])
  {
    var sorted := SortDesc(s, key);
    var r := Take(sorted, k);
    var tail := sorted[|r|..];
    assert sorted == r + tail;
    assert multiset(sorted) == multiset(r) + multiset(tail);
    TakeSorted(sorted, key, k);
    LeftBehind(r, tail, key);
    TopKHead(s, sorted, key);
    r
  }

  lemma TakeSorted<T>(sorted: seq<T>, key: T -> real, k: nat)
    requires SortedDesc(sorted, key)
    ensures SortedDesc(Take(sorted, k), key)
  {
  }

  /** In a descending sequence `r + tail`, nothing in `tail` outranks `r`. */
  lemma LeftBehind<T>(r: seq<T>, tail: seq<T>, key: T -> real)
    requires SortedDesc(r + tail, key)
    ensures forall x, y :: x in multiset(tail) && y in r ==> key(x) <= key(y)
  {
    var sorted := r + tail;
    forall x, y | x in multiset(tail) && y in r
      ensures key(x) <= key(y)
    {
      assert x in tail;
      var j :| 0 <= j < |tail| && tail[j] == x;
      var i :| 0 <= i < |r| && r[i] == y;
      assert sorted[|r| + j] == x && sorted[i] == y;
    }
  }

  /** The head of a descending rearrangement of `s` is a maximum of `s`. */
  lemma TopKHead<T>(s: seq<T>, sorted: seq<T>, key: T -> real)
    requires multiset(sorted) == multiset(s)
    requires SortedDesc(sorted, key)
    ensures |sorted| > 0 ==> forall x :: x in s ==> key(x) <= key(sorted[0])
  {
    if |sorted| > 0 {
      forall x | x in s
        ensures key(x) <= key(sorted[0])
      {
        assert x in multiset(s);
        assert x in sorted;
        var j :| 0 <= j < |sorted| && sorted[j] == x;
      }
    }
  }

  /** Every element of a top-k selection comes from the ranked sequence. */
  lemma TopKMembers<T(!new)>(s: seq<T>, key: T -> real, k: nat)
    ensures forall y :: y in TopK(s, key, k) ==> y in s
  {
    var r := TopK(s, key, k);
    forall y | y in r
      ensures y in s
    {
      assert y in multiset(r);
    }
  }
  /** Selects the elements whose key exceeds `v`. */
  function Above<T>(key: T -> real, v: real): T -> bool
  {
    (y: T) => key(y) > v
  }

  /** Selects the elements whose key is at least `v`. */
  function AtLeast<T>(key: T -> real, v: real): T -> bool
  {
    (y: T) => key(y) >= v
  }

  /** A sub-multiset is no larger. */
  lemma SubMultisetCard<T>(a: multiset<T>, b: multiset<T>)
    requires a <= b
    ensures |a| <= |b|
  {
    assert b == a + (b - a);
  }

  /** `head(k)` by rank: an element taken is outranked by fewer than `k`
      elements, and an element that at most `k` elements reach (itself
      included) is always taken. */
  lemma TopKRank<T(!new)>(s: seq<T>, key: T -> real, k: nat)
    ensures forall x :: x in TopK(s, key, k) ==> |Filter(s, Above(key, key(x)))| < k
    ensures forall x :: x in s && |Filter(s, AtLeast(key, key(x)))| <= k ==> x in TopK(s, key, k)
  {
    forall x | x in TopK(s, key, k)
      ensures |Filter(s, Above(key, key(x)))| < k
    {
      TopKExcludes(s, key, k, x);
    }
    forall x | x in s && |Filter(s, AtLeast(key, key(x)))| <= k
      ensures x in TopK(s, key, k)
    {
      if x !in TopK(s, key, k) {
        TopKMissing(s, key, k, x);
      }
    }
  }

  /** Every element that outranks a taken element is taken with all its
      copies, and the taken element itself is not among them. */
  lemma TopKExcludes<T(!new)>(s: seq<T>, key: T -> real, k: nat, x: T)
    requires x in TopK(s, key, k)
    ensures |Filter(s, Above(key, key(x)))| < k
  {
    var top := TopK(s, key, k);
    var keptAbove := Filter(top, Above(key, key(x)));
    AboveAllTaken(s, top, key, x);
    SubMultisetCard(multiset(Filter(s, Above(key, key(x)))), multiset(keptAbove));
    KeptAboveAndX(top, key, x);
    SubMultisetCard(multiset(keptAbove) + multiset{x}, multiset(top));
  }

  /** Whatever outranks a taken element is taken, copies included. */
  lemma AboveAllTaken<T(!new)>(s: seq<T>, top: seq<T>, key: T -> real, x: T)
    requires x in top
    requires forall u, v :: u in multiset(s) - multiset(top) && v in top ==> key(u) <= key(v)
    ensures multiset(Filter(s, Above(key, key(x)))) <= multiset(Filter(top, Above(key, key(x))))
  {
    var above := Filter(s, Above(key, key(x)));
    var keptAbove := Filter(top, Above(key, key(x)));
    forall y
      ensures multiset(above)[y] <= multiset(keptAbove)[y]
    {
      assert multiset(top)[y] < multiset(s)[y] ==> y in multiset(s) - multiset(top);
    }
  }

  /** A taken element is not above itself, so it adds to the taken elements
      above it without exceeding the top. */
  lemma KeptAboveAndX<T(!new)>(top: seq<T>, key: T -> real, x: T)
    requires x in top
    ensures multiset(Filter(top, Above(key, key(x)))) + multiset{x} <= multiset(top)
  {
    var keptAbove := Filter(top, Above(key, key(x)));
    forall y
      ensures (multiset(keptAbove) + multiset{x})[y] <= multiset(top)[y]
    {
      if y == x {
        assert multiset(keptAbove)[y] == 0;
      } else {
        assert multiset{x}[y] == 0;
      }
    }
  }

  /** An element of `s` left out of the top `k` is reached, itself included,
      by more than `k` elements. */
  lemma TopKMissing<T(!new)>(s: seq<T>, key: T -> real, k: nat, x: T)
    requires x in s && x !in TopK(s, key, k)
    ensures |Filter(s, AtLeast(key, key(x)))| > k
  {
    var top := TopK(s, key, k);
    var reach := Filter(s, AtLeast(key, key(x)));
    assert x in multiset(s) - multiset(top);
    forall y
      ensures (multiset(top) + multiset{x})[y] <= multiset(reach)[y]
    {
      if y in top {
        assert key(x) <= key(y);
      }
    }
    assert multiset(top) + multiset{x} <= multiset(reach);
    SubMultisetCard(multiset(top) + multiset{x}, multiset(reach));
    assert |reach| <= |s|;
  }
}
