/** "Show Top Foods!" (foodans.py lines 49-63): within the chosen area and
    diet, the five vendors with the best mean score, each with its three best
    rows. */
module TopVendors {
  import opened Seqs
  import opened Ranking
  import opened Catalog
  import opened Search

  /** Lines 50-55: the rows of one area under the diet restriction. */
  function AreaRows(catalog: seq<Row>, area: string, diet: Diet): (r: seq<Row>)
    ensures forall x :: x in r <==> x in catalog && x.area == area && DietOk(diet, x)
    ensures forall x {:trigger multiset(r)[x]} ::
              multiset(r)[x] == if x.area == area && DietOk(diet, x) then multiset(catalog)[x] else 0
    ensures IsSubseq(r, catalog)
  {
    var inArea := Filter(catalog, AreaPred(area));
    SubseqTrans(DietFilter(inArea, diet), inArea, catalog);
    DietFilter(inArea, diet)
  }

  /** The number of rows listed under `vendor`. */
  function VendorCount(rows: seq<Row>, vendor: string): nat
    decreases |rows|
  {
    if |rows| == 0 then 0
    else VendorCount(rows[..|rows| - 1], vendor) + (if rows[|rows| - 1].vendor == vendor then 1 else 0)
  }

  /** The total score of the rows listed under `vendor`. */
  function VendorScoreSum(rows: seq<Row>, vendor: string): real
    decreases |rows|
  {
    if |rows| == 0 then 0.0
    else VendorScoreSum(rows[..|rows| - 1], vendor)
         + (if rows[|rows| - 1].vendor == vendor then rows[|rows| - 1].score else 0.0)
  }

  /** `groupby('Name')['Score'].mean()` for one vendor (0 for a vendor without
      rows, which the ranking never asks about). */
  function MeanScore(rows: seq<Row>, vendor: string): real
  {
    var n := VendorCount(rows, vendor);
    if n == 0 then 0.0 else VendorScoreSum(rows, vendor) / n as real
  }

  /** A vendor's row count is positive exactly when the vendor has a row. */
  lemma {:induction false} VendorCountPositive(rows: seq<Row>, vendor: string)
    ensures VendorCount(rows, vendor) > 0 <==> exists x :: x in rows && x.vendor == vendor
    decreases |rows|
  {
    if |rows| > 0 {
      var init := rows[..|rows| - 1];
      var last := rows[|rows| - 1];
      assert rows == init + [last];
      VendorCountPositive(init, vendor);
      if last.vendor == vendor {
        assert last in rows;
      } else {
        assert forall x :: x in rows && x.vendor == vendor ==> x in init;
      }
    }
  }

  /** `n` copies of `x` added up: the product `n * x` built by repeated
      addition, so that the bounds below stay linear. */
  function Repeat(n: nat, x: real): real
  {
    if n == 0 then 0.0 else Repeat(n - 1, x) + x
  }

  lemma {:induction false} RepeatIsProduct(n: nat, x: real)
    ensures Repeat(n, x) == n as real * x
  {
    if n > 0 {
      RepeatIsProduct(n - 1, x);
      assert n as real * x == (n - 1) as real * x + x;
    }
  }

  /** The score total of a vendor lies between count * lowest and
      count * highest of its rows' scores. */
  lemma {:induction false} VendorSumBounds(rows: seq<Row>, vendor: string, lo: real, hi: real)
    requires forall x :: x in rows && x.vendor == vendor ==> lo <= x.score <= hi
    ensures Repeat(VendorCount(rows, vendor), lo) <= VendorScoreSum(rows, vendor)
    ensures VendorScoreSum(rows, vendor) <= Repeat(VendorCount(rows, vendor), hi)
    decreases |rows|
  {
    if |rows| > 0 {
      var init := rows[..|rows| - 1];
      var last := rows[|rows| - 1];
      assert forall x :: x in init ==> x in rows;
      VendorSumBounds(init, vendor, lo, hi);
      if last.vendor == vendor {
        assert last in rows;
      }
    }
  }

  /** A vendor's mean score lies between the lowest and the highest score of
      its rows. */
  lemma MeanScoreBounds(rows: seq<Row>, vendor: string, lo: real, hi: real)
    requires exists x :: x in rows && x.vendor == vendor
    requires forall x :: x in rows && x.vendor == vendor ==> lo <= x.score <= hi
    ensures lo <= MeanScore(rows, vendor) <= hi
  {
    VendorCountPositive(rows, vendor);
    VendorSumBounds(rows, vendor, lo, hi);
    RepeatMeanBounds(VendorScoreSum(rows, vendor), VendorCount(rows, vendor), lo, hi);
  }

  /** A total between `count` copies of `lo` and `count` copies of `hi`
      has its mean between `lo` and `hi`. */
  lemma RepeatMeanBounds(sum: real, count: nat, lo: real, hi: real)
    requires count > 0
    requires Repeat(count, lo) <= sum <= Repeat(count, hi)
    ensures lo <= sum / count as real <= hi
  {
    RepeatIsProduct(count, lo);
    RepeatIsProduct(count, hi);
    DivBounds(sum, count as real, lo, hi);
  }

  lemma DivBounds(sum: real, n: real, lo: real, hi: real)
    requires n > 0.0 && n * lo <= sum <= n * hi
    ensures lo <= sum / n <= hi
  {
    assert (sum - n * lo) / n >= 0.0;
    assert (n * hi - sum) / n >= 0.0;
    assert (sum - n * lo) / n == sum / n - lo;
    assert (n * hi - sum) / n == hi - sum / n;
  }

  function MeanKey(rows: seq<Row>): string -> real
  {
    (v: string) => MeanScore(rows, v)
  }

  /** Line 56: at most five distinct vendors of the rows, in non-increasing
      mean score, and no vendor left out has a better mean than one kept. */
  function VendorRanking(rows: seq<Row>): (ranked: seq<string>)
    ensures |ranked| == if 5 <= |VendorNames(rows)| then 5 else |VendorNames(rows)|
    ensures Distinct(ranked)
    ensures forall v :: v in ranked ==> exists x :: x in rows && x.vendor == v
    ensures forall i, j :: 0 <= i < j < |ranked| ==>
              MeanScore(rows, ranked[i]) >= MeanScore(rows, ranked[j])
    ensures forall x, i :: x in rows && 0 <= i < |ranked| && x.vendor !in ranked
                           ==> MeanScore(rows, x.vendor) <= MeanScore(rows, ranked[i])
  {
    RankingVendors(rows);
    RankingOrder(rows);
    TopK(VendorNames(rows), MeanKey(rows), 5)
  }

  /** The ranked vendors are distinct vendors of the rows. */
  lemma {:induction false} RankingVendors(rows: seq<Row>)
    ensures var ranked := TopK(VendorNames(rows), MeanKey(rows), 5);
            Distinct(ranked)
            && forall v :: v in ranked ==> exists x :: x in rows && x.vendor == v
  {
    var names := VendorNames(rows);
    var ranked := TopK(names, MeanKey(rows), 5);
    DistinctSubMultiset(ranked, names);
    forall v | v in ranked
      ensures exists x :: x in rows && x.vendor == v
    {
      assert v in multiset(ranked);
      assert v in names;
    }
  }

  /** The ranking is in non-increasing mean score, and no vendor of the rows
      left out of it has a better mean than one kept. */
  lemma {:induction false} RankingOrder(rows: seq<Row>)
    ensures var ranked := TopK(VendorNames(rows), MeanKey(rows), 5);
            (forall i, j :: 0 <= i < j < |ranked| ==>
               MeanScore(rows, ranked[i]) >= MeanScore(rows, ranked[j]))
            && forall x, i :: x in rows && 0 <= i < |ranked| && x.vendor !in ranked
                 ==> MeanScore(rows, x.vendor) <= MeanScore(rows, ranked[i])
  {
    var names := VendorNames(rows);
    var ranked := TopK(names, MeanKey(rows), 5);
    forall i, j | 0 <= i < j < |ranked|
      ensures MeanScore(rows, ranked[i]) >= MeanScore(rows, ranked[j])
    {
      assert MeanKey(rows)(ranked[i]) >= MeanKey(rows)(ranked[j]);
    }
    LeftOutVendors(rows, names, ranked);
  }

  /** A vendor of the ranking and the rows listed under it. */
  datatype VendorPick = VendorPick(vendor: string, items: seq<Row>)

  /** Lines 50-59: the ranking of the area's vendors under the diet
      restriction, each with its three best rows. */
  function TopVendors(catalog: seq<Row>, area: string, diet: Diet): (picks: seq<VendorPick>)
    ensures var rows := AreaRows(catalog, area, diet);
            |picks| == |VendorRanking(rows)|
            && forall i :: 0 <= i < |picks| ==>
                 picks[i].vendor == VendorRanking(rows)[i]
                 && picks[i].items == VendorTop(rows, picks[i].vendor, 3)
                 && |picks[i].items| > 0
  {
    var rows := AreaRows(catalog, area, diet);
    PicksOf(rows, VendorRanking(rows))
  }

  /** Each listed vendor with its three best-scored rows, in list order. */
  function PicksOf(rows: seq<Row>, ranked: seq<string>): (picks: seq<VendorPick>)
    requires forall v :: v in ranked ==> exists x :: x in rows && x.vendor == v
    ensures |picks| == |ranked|
    ensures forall i :: 0 <= i < |picks| ==>
              picks[i].vendor == ranked[i]
              && picks[i].items == VendorTop(rows, ranked[i], 3)
              && |picks[i].items| > 0
  {
    VendorsHaveRows(rows, ranked, 3);
    seq(|ranked|, i requires 0 <= i < |ranked| => VendorPick(ranked[i], VendorTop(rows, ranked[i], 3)))
  }

  lemma LeftOutVendors(rows: seq<Row>, names: seq<string>, ranked: seq<string>)
    requires Distinct(names)
    requires forall x :: x in rows ==> x.vendor in names
    requires multiset(ranked) <= multiset(names)
    requires forall x, y :: x in multiset(names) - multiset(ranked) && y in ranked
                           ==> MeanKey(rows)(x) <= MeanKey(rows)(y)
    ensures forall x, i :: x in rows && 0 <= i < |ranked| && x.vendor !in ranked
                           ==> MeanScore(rows, x.vendor) <= MeanScore(rows, ranked[i])
  {
    DistinctCount(names);
    forall x, i | x in rows && 0 <= i < |ranked| && x.vendor !in ranked
      ensures MeanScore(rows, x.vendor) <= MeanScore(rows, ranked[i])
    {
      assert multiset(names)[x.vendor] == 1;
      assert multiset(ranked)[x.vendor] == 0;
      assert x.vendor in multiset(names) - multiset(ranked);
      assert ranked[i] in ranked;
    }
  }
}
