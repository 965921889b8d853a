/** Order-preserving sequence operations: the dataframe row selection, `head(k)`
    and first-occurrence de-duplication that the recommendation engine is built from.
    Every recursive definition peels off the LAST element, matching the way the
    script's loops append to their result lists. */
module Seqs {

  /** `head(k)`: the first k elements, or all of them when there are fewer. */
  function Take<T>(s: seq<T>, k: nat): (r: seq<T>)
    ensures |r| == if k <= |s| then k else |s|
    ensures r <= s
  {
    if k <= |s| then s[..k] else s
  }

  /** `a` can be obtained from `b` by deleting elements: relative order is kept. */
  ghost predicate IsSubseq<T>(a: seq<T>, b: seq<T>)
    decreases |b|
  {
    if |a| == 0 then true
    else if |b| == 0 then false
    else (a[|a| - 1] == b[|b| - 1] && IsSubseq(a[..|a| - 1], b[..|b| - 1]))
         || IsSubseq(a, b[..|b| - 1])
  }

  /** Boolean-mask row selection, `df[mask]`: keeps exactly the elements that
      satisfy `p`, in their original order and with their multiplicities. */
  function Filter<T(!new)>(s: seq<T>, p: T -> bool): (r: seq<T>)
    ensures |r| <= |s|
    ensures forall i :: 0 <= i < |r| ==> p(r[i])
    ensures forall x :: x in r <==> x in s && p(x)
    ensures forall x {:trigger multiset(r)[x]} :: multiset(r)[x] == if p(x) then multiset(s)[x] else 0
    ensures IsSubseq(r, s)
    decreases |s|
  {
    if |s| == 0 then []
    else
      var rest := Filter(s[..|s| - 1], p);
      var last := s[|s| - 1];
      assert s == s[..|s| - 1] + [last];
      if p(last) then
        assert (rest + [last])[..|rest|] == rest;
        rest + [last]
      else rest
  }

  /** Nothing is selected when no element satisfies the predicate. */
  lemma {:induction false} FilterNone<T(!new)>(s: seq<T>, p: T -> bool)
    requires forall x :: x in s ==> !p(x)
    ensures Filter(s, p) == []
    decreases |s|
  {
    if |s| > 0 {
      assert s[|s| - 1] in s;
      assert forall x :: x in s[..|s| - 1] ==> x in s;
      FilterNone(s[..|s| - 1], p);
    }
  }

  /** Concatenation is associative. */
  lemma ConcatAssoc<T>(a: seq<T>, b: seq<T>, c: seq<T>)
    ensures (a + b) + c == a + (b + c)
  {
  }

  /** Selecting from a concatenation selects from each part in turn. */
  lemma {:induction false} FilterAppend<T(!new)>(a: seq<T>, b: seq<T>, p: T -> bool)
    ensures Filter(a + b, p) == Filter(a, p) + Filter(b, p)
    decreases |b|
  {
    if |b| == 0 {
      assert a + b == a;
    } else {
      var init := b[..|b| - 1];
      assert (a + b)[..|a + b| - 1] == a + init;
      FilterAppend(a, init, p);
    }
  }

  lemma {:induction false} FilterMultiset<T(!new)>(s: seq<T>, p: T -> bool)
    ensures multiset(Filter(s, p)) <= multiset(s)
    decreases |s|
  {
    if |s| > 0 {
      FilterMultiset(s[..|s| - 1], p);
      assert s == s[..|s| - 1] + [s[|s| - 1]];
    }
  }

  /** Selecting with `p` and then with `q` is selecting once with any `c` that
      is their conjunction. */
  lemma {:induction false} FilterFusion<T(!new)>(s: seq<T>, p: T -> bool, q: T -> bool, c: T -> bool)
    requires forall x :: c(x) == (p(x) && q(x))
    ensures Filter(Filter(s, p), q) == Filter(s, c)
    decreases |s|
  {
    if |s| > 0 {
      FilterFusion(s[..|s| - 1], p, q, c);
      var rest := Filter(s[..|s| - 1], p);
      var last := s[|s| - 1];
      if p(last) {
        assert (rest + [last])[..|rest|] == rest;
      }
    }
  }

  /** The first element of a selection is the first element of `s` that
      satisfies `p`: no earlier element does. */
  lemma {:induction false} FilterHead<T(!new)>(s: seq<T>, p: T -> bool)
    requires |Filter(s, p)| > 0
    ensures exists i :: 0 <= i < |s| && s[i] == Filter(s, p)[0] && p(s[i])
                        && forall j :: 0 <= j < i ==> !p(s[j])
    decreases |s|
  {
    var init := s[..|s| - 1];
    var last := s[|s| - 1];
    var rest := Filter(init, p);
    assert Filter(s, p) == if p(last) then rest + [last] else rest;
    if |rest| > 0 {
      FilterHead(init, p);
      assert Filter(s, p)[0] == rest[0];
      var i :| 0 <= i < |init| && init[i] == rest[0] && p(init[i])
               && forall j :: 0 <= j < i ==> !p(init[j]);
      assert s[i] == init[i];
      assert forall j :: 0 <= j < i ==> s[j] == init[j];
    } else {
      assert Filter(s, p)[0] == last;
      forall j | 0 <= j < |init|
        ensures !p(s[j])
      {
        assert s[j] == init[j];
        assert init[j] !in rest;
      }
      assert s[|s| - 1] == last;
    }
  }

  /** Every element of a subsequence occurs in the sequence it was drawn from. */
  lemma {:induction false} SubseqMembers<T>(a: seq<T>, b: seq<T>)
    requires IsSubseq(a, b)
    ensures forall x :: x in a ==> x in b
    decreases |b|
  {
    if |a| > 0 {
      var b' := b[..|b| - 1];
      if a[|a| - 1] == b[|b| - 1] && IsSubseq(a[..|a| - 1], b') {
        SubseqMembers(a[..|a| - 1], b');
        assert a == a[..|a| - 1] + [a[|a| - 1]];
      } else {
        SubseqMembers(a, b');
      }
    }
  }

  /** A subsequence stays one when the source sequence grows at its end. */
  lemma {:induction false} SubseqExtend<T>(a: seq<T>, b: seq<T>, x: T)
    requires IsSubseq(a, b)
    ensures IsSubseq(a, b + [x])
  {
    assert (b + [x])[..|b|] == b;
  }

  /** Every sequence is a subsequence of itself. */
  lemma {:induction false} SubseqRefl<T>(s: seq<T>)
    ensures IsSubseq(s, s)
    decreases |s|
  {
    if |s| > 0 {
      SubseqRefl(s[..|s| - 1]);
    }
  }

  /** A prefix is a subsequence. */
  lemma {:induction false} PrefixSubseq<T>(s: seq<T>, k: nat)
    requires k <= |s|
    ensures IsSubseq(s[..k], s)
    decreases |s|
  {
    if k == |s| {
      assert s[..k] == s;
      SubseqRefl(s);
    } else {
      assert s[..|s| - 1][..k] == s[..k];
      PrefixSubseq(s[..|s| - 1], k);
    }
  }

  /** Deleting elements twice is deleting elements once. */
  lemma {:induction false} SubseqTrans<T>(a: seq<T>, b: seq<T>, c: seq<T>)
    requires IsSubseq(a, b) && IsSubseq(b, c)
    ensures IsSubseq(a, c)
    decreases |c|
  {
    if |a| > 0 && |c| > 0 {
      var c' := c[..|c| - 1];
      if |b| > 0 && b[|b| - 1] == c[|c| - 1] && IsSubseq(b[..|b| - 1], c') {
        var b' := b[..|b| - 1];
        if a[|a| - 1] == b[|b| - 1] && IsSubseq(a[..|a| - 1], b') {
          SubseqTrans(a[..|a| - 1], b', c');
        } else {
          SubseqTrans(a, b', c');
        }
      } else {
        SubseqTrans(a, b, c');
      }
    }
  }

  /** The element of `s` is the first one carrying its key: `x` occurs at some
      position `j` and no earlier element has the same key. */
  ghost predicate FirstOfKey<T, K>(s: seq<T>, key: T -> K, x: T)
  {
    exists j :: 0 <= j < |s| && s[j] == x && forall j' :: 0 <= j' < j ==> key(s[j']) != key(x)
  }

  /** No element of `s` has key `k`. */
  predicate KeyAbsent<T, K(==)>(s: seq<T>, key: T -> K, k: K)
  {
    forall i :: 0 <= i < |s| ==> key(s[i]) != k
  }

  /** The position of the first element of `s` with key `k`, or `|s|` when
      no element has it. */
  function KeyIndex<T, K(==)>(s: seq<T>, key: T -> K, k: K): (i: nat)
    ensures i <= |s|
    ensures i < |s| ==> key(s[i]) == k
    ensures forall j :: 0 <= j < i ==> key(s[j]) != k
    decreases |s|
  {
    if |s| == 0 then 0
    else
      var i := KeyIndex(s[..|s| - 1], key, k);
      if i < |s| - 1 then i
      else if key(s[|s| - 1]) == k then |s| - 1
      else |s|
  }

  /** First-occurrence de-duplication: scans `s` from the front, keeping an
      element only when no kept element has its key yet. */
  function Dedup<T(!new), K(==)>(s: seq<T>, key: T -> K): seq<T>
    decreases |s|
  {
    if |s| == 0 then []
    else
      var rest := Dedup(s[..|s| - 1], key);
      if KeyAbsent(rest, key, key(s[|s| - 1])) then rest + [s[|s| - 1]] else rest
  }

  /** What the de-duplication keeps: elements of `s` in their order, with
      pairwise distinct keys, each the first of its key, and one for every key
      that occurs. */
  lemma {:induction false} DedupProps<T(!new), K>(s: seq<T>, key: T -> K)
    ensures var r := Dedup(s, key);
            && |r| <= |s|
            && IsSubseq(r, s)
            && DistinctKeys(r, key)
            && (forall x :: x in s ==> exists i :: 0 <= i < |r| && key(r[i]) == key(x))
            && forall i :: 0 <= i < |r| ==> FirstOfKey(s, key, r[i])
    decreases |s|
  {
    if |s| > 0 {
      var init := s[..|s| - 1];
      var last := s[|s| - 1];
      assert s == init + [last];
      DedupProps(init, key);
      var rest := Dedup(init, key);
      SubseqExtend(rest, init, last);
      FirstOfKeyExtend(init, key, last, rest);
      if KeyAbsent(rest, key, key(last)) {
        DedupAppend(init, key, last, rest);
      } else {
        assert forall x :: x in s ==> x in init || x == last;
      }
    }
  }

  /** `Dedup` with its properties: models pandas `unique()` on a column and
      the explicit seen-set loop of the recommendation planner. */
  function FirstByKey<T(!new), K(==)>(s: seq<T>, key: T -> K): (r: seq<T>)
    ensures |r| <= |s|
    ensures IsSubseq(r, s)
    ensures DistinctKeys(r, key)
    ensures forall x :: x in s ==> exists i :: 0 <= i < |r| && key(r[i]) == key(x)
    ensures forall i :: 0 <= i < |r| ==> FirstOfKey(s, key, r[i])
    ensures forall i, j :: 0 <= i < j < |r| ==> KeyIndex(s, key, key(r[i])) < KeyIndex(s, key, key(r[j]))
  {
    DedupProps(s, key);
    DedupOrder(s, key);
    Dedup(s, key)
  }

  /** The de-duplication lists its keys in the order they first occur. */
  lemma {:induction false} DedupOrder<T(!new), K>(s: seq<T>, key: T -> K)
    ensures var r := Dedup(s, key);
            forall i, j :: 0 <= i < j < |r| ==> KeyIndex(s, key, key(r[i])) < KeyIndex(s, key, key(r[j]))
    decreases |s|
  {
    if |s| > 0 {
      var init := s[..|s| - 1];
      var last := s[|s| - 1];
      assert s == init + [last];
      DedupOrder(init, key);
      DedupProps(init, key);
      var rest := Dedup(init, key);
      KeptKeysEarlier(init, key, last, rest);
      if KeyAbsent(rest, key, key(last)) {
        NewKeyAbsent(init, key, rest, key(last));
        OrderAppend(s, key, rest, last, |init|);
      }
    }
  }

  /** Kept elements of `init` keep their first positions when `init` grows. */
  lemma KeptKeysEarlier<T, K>(init: seq<T>, key: T -> K, last: T, rest: seq<T>)
    requires forall i :: 0 <= i < |rest| ==> FirstOfKey(init, key, rest[i])
    ensures forall i :: 0 <= i < |rest| ==>
              KeyIndex(init + [last], key, key(rest[i])) == KeyIndex(init, key, key(rest[i])) < |init|
  {
    assert (init + [last])[..|init|] == init;
    forall i | 0 <= i < |rest|
      ensures KeyIndex(init, key, key(rest[i])) < |init|
    {
      var j :| 0 <= j < |init| && init[j] == rest[i]
               && forall j' :: 0 <= j' < j ==> key(init[j']) != key(rest[i]);
      assert key(init[j]) == key(rest[i]);
    }
  }

  /** A key that no kept element carries does not occur in `init`. */
  lemma NewKeyAbsent<T, K>(init: seq<T>, key: T -> K, rest: seq<T>, k: K)
    requires forall x :: x in init ==> exists i :: 0 <= i < |rest| && key(rest[i]) == key(x)
    requires KeyAbsent(rest, key, k)
    ensures KeyIndex(init, key, k) == |init|
  {
    forall m | 0 <= m < |init|
      ensures key(init[m]) != k
    {
      assert init[m] in init;
    }
  }

  /** Appending an element whose key first occurs at `n`, after every key of
      `rest`, keeps the keys in first-occurrence order. */
  lemma OrderAppend<T, K>(s: seq<T>, key: T -> K, rest: seq<T>, last: T, n: nat)
    requires forall i, j :: 0 <= i < j < |rest| ==> KeyIndex(s, key, key(rest[i])) < KeyIndex(s, key, key(rest[j]))
    requires forall i :: 0 <= i < |rest| ==> KeyIndex(s, key, key(rest[i])) < n
    requires KeyIndex(s, key, key(last)) == n
    ensures var r := rest + [last];
            forall i, j :: 0 <= i < j < |r| ==> KeyIndex(s, key, key(r[i])) < KeyIndex(s, key, key(r[j]))
  {
    var r := rest + [last];
    forall i, j | 0 <= i < j < |r|
      ensures KeyIndex(s, key, key(r[i])) < KeyIndex(s, key, key(r[j]))
    {
      assert r[i] == rest[i];
      if j < |rest| {
        assert r[j] == rest[j];
      }
    }
  }

  /** No two elements share a key. */
  ghost predicate DistinctKeys<T, K>(r: seq<T>, key: T -> K)
  {
    forall i, j :: 0 <= i < j < |r| ==> key(r[i]) != key(r[j])
  }

  /** Appending an element whose key is new keeps the de-duplication properties. */
  lemma DedupAppend<T, K>(init: seq<T>, key: T -> K, last: T, r: seq<T>)
    requires IsSubseq(r, init)
    requires DistinctKeys(r, key)
    requires forall x :: x in init ==> exists i :: 0 <= i < |r| && key(r[i]) == key(x)
    requires forall i :: 0 <= i < |r| ==> FirstOfKey(init + [last], key, r[i])
    requires forall i :: 0 <= i < |r| ==> key(r[i]) != key(last)
    ensures IsSubseq(r + [last], init + [last])
    ensures DistinctKeys(r + [last], key)
    ensures forall x :: x in init + [last] ==> exists i :: 0 <= i < |r + [last]| && key((r + [last])[i]) == key(x)
    ensures forall i :: 0 <= i < |r + [last]| ==> FirstOfKey(init + [last], key, (r + [last])[i])
  {
    var s := init + [last];
    var r' := r + [last];
    assert r'[..|r|] == r;
    assert s[..|init|] == init;
    forall x | x in s
      ensures exists i :: 0 <= i < |r'| && key(r'[i]) == key(x)
    {
      if x == last {
        assert r'[|r|] == last;
      } else {
        assert x in init;
        var i :| 0 <= i < |r| && key(r[i]) == key(x);
        assert r'[i] == r[i];
      }
    }
    FirstOfKeyLast(init, key, last, r);
    forall i | 0 <= i < |r'|
      ensures FirstOfKey(s, key, r'[i])
    {
      if i < |r| {
        assert r'[i] == r[i];
      }
    }
  }

  /** An element whose key no kept element carries is the first of its key. */
  lemma FirstOfKeyLast<T, K>(init: seq<T>, key: T -> K, last: T, r: seq<T>)
    requires forall x :: x in init ==> exists i :: 0 <= i < |r| && key(r[i]) == key(x)
    requires forall i :: 0 <= i < |r| ==> key(r[i]) != key(last)
    ensures FirstOfKey(init + [last], key, last)
  {
    var s := init + [last];
    forall j' | 0 <= j' < |init|
      ensures key(s[j']) != key(last)
    {
      assert s[j'] == init[j'] && init[j'] in init;
    }
    assert s[|init|] == last;
  }

  lemma FirstOfKeyExtend<T, K>(init: seq<T>, key: T -> K, last: T, r: seq<T>)
    requires forall i :: 0 <= i < |r| ==> FirstOfKey(init, key, r[i])
    ensures forall i :: 0 <= i < |r| ==> FirstOfKey(init + [last], key, r[i])
  {
    forall i | 0 <= i < |r| ensures FirstOfKey(init + [last], key, r[i]) {
      var j :| 0 <= j < |init| && init[j] == r[i]
               && forall j' :: 0 <= j' < j ==> key(init[j']) != key(r[i]);
      assert (init + [last])[j] == r[i];
      assert forall j' :: 0 <= j' < j ==> (init + [last])[j'] == init[j'];
    }
  }

  /** De-duplicating a longer sequence only appends to the result for a shorter
      prefix of it. */
  lemma {:induction false} DedupPrefix<T(!new), K>(s: seq<T>, key: T -> K, n: nat)
    requires n <= |s|
    ensures Dedup(s[..n], key) <= Dedup(s, key)
    decreases |s| - n
  {
    if n < |s| {
      assert s[..|s| - 1][..n] == s[..n];
      DedupPrefix(s[..|s| - 1], key, n);
    } else {
      assert s[..n] == s;
    }
  }

  /** The result for a prefix one longer appends the new element exactly when
      its key is new. */
  lemma DedupStep<T(!new), K>(s: seq<T>, key: T -> K, i: nat)
    requires i < |s|
    ensures var r := Dedup(s[..i], key);
            Dedup(s[..i + 1], key)
            == if KeyAbsent(r, key, key(s[i])) then r + [s[i]] else r
  {
    assert s[..i + 1][..i] == s[..i];
  }

  /** A key is absent from `r + [x]` exactly when it is absent from `r` and is
      not the key of `x`. */
  lemma KeyAbsentAppend<T, K>(r: seq<T>, key: T -> K, x: T, k: K)
    ensures KeyAbsent(r + [x], key, k) <==> KeyAbsent(r, key, k) && key(x) != k
  {
    if KeyAbsent(r + [x], key, k) {
      assert (r + [x])[|r|] == x;
      forall i | 0 <= i < |r|
        ensures key(r[i]) != k
      {
        assert (r + [x])[i] == r[i];
      }
    }
  }

  /** The first `n` elements with pairwise distinct keys, scanning from the
      front: the de-duplication cut to `n`. */
  function FirstDistinct<T(!new), K(==)>(s: seq<T>, key: T -> K, n: nat): (r: seq<T>)
    ensures |r| <= n
    ensures |s| > 0 && n > 0 ==> |r| > 0
    ensures DistinctKeys(r, key)
    ensures IsSubseq(r, s)
    ensures forall i :: 0 <= i < |r| ==> FirstOfKey(s, key, r[i])
    ensures |r| < n ==> forall x :: x in s ==> exists i :: 0 <= i < |r| && key(r[i]) == key(x)
    ensures forall i, j :: 0 <= i < j < |r| ==> KeyIndex(s, key, key(r[i])) < KeyIndex(s, key, key(r[j]))
    ensures |r| > 0 ==> forall x :: x in s && KeyIndex(s, key, key(x)) <= KeyIndex(s, key, key(r[|r| - 1]))
                                    ==> exists i :: 0 <= i < |r| && key(r[i]) == key(x)
  {
    FirstDistinctBasics(s, key, n);
    FirstDistinctOrder(s, key, n);
    Take(Dedup(s, key), n)
  }

  /** The size, subsequence and coverage facts of the cut de-duplication. */
  lemma FirstDistinctBasics<T(!new), K>(s: seq<T>, key: T -> K, n: nat)
    ensures var r := Take(Dedup(s, key), n);
            && (|s| > 0 && n > 0 ==> |r| > 0)
            && IsSubseq(r, s)
            && (|r| < n ==> forall x :: x in s ==> exists i :: 0 <= i < |r| && key(r[i]) == key(x))
  {
    var firsts := Dedup(s, key);
    DedupProps(s, key);
    var r := Take(firsts, n);
    assert |s| > 0 ==> s[0] in s;
    PrefixSubseq(firsts, |r|);
    assert firsts[..|r|] == r;
    SubseqTrans(r, firsts, s);
    assert |r| < n ==> r == firsts;
  }

  /** The key facts of the cut de-duplication: distinct keys, each element
      the first of its key, keys in first-occurrence order, and no key
      skipped before the last one kept. */
  lemma FirstDistinctOrder<T(!new), K>(s: seq<T>, key: T -> K, n: nat)
    ensures var r := Take(Dedup(s, key), n);
            && DistinctKeys(r, key)
            && (forall i :: 0 <= i < |r| ==> FirstOfKey(s, key, r[i]))
            && (forall i, j :: 0 <= i < j < |r| ==> KeyIndex(s, key, key(r[i])) < KeyIndex(s, key, key(r[j])))
            && (|r| > 0 ==> forall x :: x in s && KeyIndex(s, key, key(x)) <= KeyIndex(s, key, key(r[|r| - 1]))
                                        ==> exists i :: 0 <= i < |r| && key(r[i]) == key(x))
  {
    var firsts := Dedup(s, key);
    DedupProps(s, key);
    DedupOrder(s, key);
    var r := Take(firsts, n);
    PrefixKeepsKeys(s, key, firsts, r);
    FirstDistinctPrefix(s, key, firsts, r);
  }

  /** A prefix of the de-duplication keeps its per-element facts. */
  lemma PrefixKeepsKeys<T, K>(s: seq<T>, key: T -> K, firsts: seq<T>, r: seq<T>)
    requires r <= firsts
    requires DistinctKeys(firsts, key)
    requires forall i :: 0 <= i < |firsts| ==> FirstOfKey(s, key, firsts[i])
    requires forall i, j :: 0 <= i < j < |firsts| ==>
               KeyIndex(s, key, key(firsts[i])) < KeyIndex(s, key, key(firsts[j]))
    ensures DistinctKeys(r, key)
    ensures forall i :: 0 <= i < |r| ==> FirstOfKey(s, key, r[i])
    ensures forall i, j :: 0 <= i < j < |r| ==> KeyIndex(s, key, key(r[i])) < KeyIndex(s, key, key(r[j]))
  {
    assert forall i :: 0 <= i < |r| ==> r[i] == firsts[i];
  }

  /** A prefix of the keys in first-occurrence order holds every key that
      occurs no later than its last one. */
  lemma FirstDistinctPrefix<T, K>(s: seq<T>, key: T -> K, firsts: seq<T>, r: seq<T>)
    requires r <= firsts
    requires forall x :: x in s ==> exists i :: 0 <= i < |firsts| && key(firsts[i]) == key(x)
    requires forall i, j :: 0 <= i < j < |firsts| ==>
               KeyIndex(s, key, key(firsts[i])) < KeyIndex(s, key, key(firsts[j]))
    ensures |r| > 0 ==> forall x :: x in s && KeyIndex(s, key, key(x)) <= KeyIndex(s, key, key(r[|r| - 1]))
                                    ==> exists i :: 0 <= i < |r| && key(r[i]) == key(x)
  {
    if |r| > 0 {
      var last := |r| - 1;
      assert r[last] == firsts[last];
      assert forall m :: last < m < |firsts| ==>
               KeyIndex(s, key, key(firsts[last])) < KeyIndex(s, key, key(firsts[m]));
      forall x | x in s && KeyIndex(s, key, key(x)) <= KeyIndex(s, key, key(r[last]))
        ensures exists i :: 0 <= i < |r| && key(r[i]) == key(x)
      {
        var m :| 0 <= m < |firsts| && key(firsts[m]) == key(x);
        assert KeyIndex(s, key, key(firsts[m])) == KeyIndex(s, key, key(x));
        assert r[m] == firsts[m];
      }
    }
  }

  /** Once the de-duplication of a prefix holds `n` elements, or the prefix
      is everything and holds fewer, it is the de-duplication cut to `n`. */
  lemma {:induction false} FirstDistinctFull<T(!new), K>(s: seq<T>, key: T -> K, n: nat, m: nat)
    requires m <= |s|
    ensures var r := Dedup(s[..m], key);
            (|r| == n || (m == |s| && |r| < n)) ==> FirstDistinct(s, key, n) == r
  {
    DedupPrefix(s, key, m);
    assert m == |s| ==> s[..m] == s;
  }

  /** The seen-set loop: scans `s` from the front, keeps an element whose key
      it has not seen and records the key, and stops once it holds `n`
      elements. */
  method FirstDistinctLoop<T(!new), K(==)>(s: seq<T>, key: T -> K, n: nat) returns (r: seq<T>)
    ensures r == FirstDistinct(s, key, n)
  {
    r := [];
    if n == 0 {
      return;
    }
    var seen: set<K> := {};
    var i := 0;
    while i < |s|
      invariant 0 <= i <= |s|
      invariant r == Dedup(s[..i], key)
      invariant |r| < n
      invariant forall k :: k in seen <==> !KeyAbsent(r, key, k)
    {
      var x := s[i];
      DedupStep(s, key, i);
      assert KeyAbsent(r, key, key(x)) <==> key(x) !in seen;
      if key(x) !in seen {
        forall k ensures k in seen + {key(x)} <==> !KeyAbsent(r + [x], key, k) {
          KeyAbsentAppend(r, key, x, k);
        }
        r := r + [x];
        seen := seen + {key(x)};
        if |r| == n {
          FirstDistinctFull(s, key, n, i + 1);
          return;
        }
      }
      i := i + 1;
    }
    assert s[..i] == s;
    FirstDistinctFull(s, key, n, |s|);
  }

  /** No element occurs twice. */
  ghost predicate Distinct<T>(s: seq<T>)
  {
    forall i, j :: 0 <= i < j < |s| ==> s[i] != s[j]
  }

  /** In a sequence without repeats every element is counted at most once. */
  lemma {:induction false} DistinctCount<T>(s: seq<T>)
    requires Distinct(s)
    ensures forall x :: multiset(s)[x] <= 1
    decreases |s|
  {
    if |s| > 0 {
      var init := s[..|s| - 1];
      var last := s[|s| - 1];
      assert s == init + [last];
      DistinctCount(init);
      assert last !in init by {
        forall i | 0 <= i < |init|
          ensures init[i] != last
        {
          assert s[i] == init[i];
        }
      }
    }
  }

  /** An element is counted once for position `i` and once more for position
      `j` when it repeats there. */
  lemma RepeatCount<T>(s: seq<T>, i: nat, j: nat)
    requires i < j < |s|
    ensures multiset(s)[s[i]] >= 1 + (if s[j] == s[i] then 1 else 0)
  {
    assert s == s[..j] + [s[j]] + s[j + 1..];
    assert s[..j][i] == s[i];
    assert s[i] in s[..j];
  }

  /** Drawing elements (as a sub-multiset) from a sequence without repeats
      gives a sequence without repeats. */
  lemma DistinctSubMultiset<T>(a: seq<T>, b: seq<T>)
    requires multiset(a) <= multiset(b)
    requires Distinct(b)
    ensures Distinct(a)
  {
    DistinctCount(b);
    forall i, j | 0 <= i < j < |a|
      ensures a[i] != a[j]
    {
      RepeatCount(a, i, j);
      assert multiset(b)[a[i]] <= 1;
    }
  }
}
