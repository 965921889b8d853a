/** "Know Your Vendors!" (foodans.py lines 238-288): per-vendor summaries of
    one area under the diet restriction, the area's most ordered rows, and the
    close-up of one vendor across all areas. */
module Vendors {
  import opened Wrappers
  import opened Seqs
  import opened Ranking
  import opened Catalog
  import opened Search
  import opened TopVendors

  /** `Total_Order.sum()`. */
  function SumOrders(rows: seq<Row>): nat
    decreases |rows|
  {
    if |rows| == 0 then 0 else SumOrders(rows[..|rows| - 1]) + rows[|rows| - 1].orders
  }

  function SumRatings(rows: seq<Row>): real
    decreases |rows|
  {
    if |rows| == 0 then 0.0 else SumRatings(rows[..|rows| - 1]) + rows[|rows| - 1].rating
  }

  /** `Avg_Rating.mean()` of a non-empty selection. */
  function MeanRating(rows: seq<Row>): real
    requires |rows| > 0
  {
    SumRatings(rows) / |rows| as real
  }

  /** A sum of ratings lies between count * lowest and count * highest. */
  lemma {:induction false} SumRatingsBounds(rows: seq<Row>, lo: real, hi: real)
    requires forall x :: x in rows ==> lo <= x.rating <= hi
    ensures Repeat(|rows|, lo) <= SumRatings(rows) <= Repeat(|rows|, hi)
    decreases |rows|
  {
    if |rows| > 0 {
      assert forall x :: x in rows[..|rows| - 1] ==> x in rows;
      assert rows[|rows| - 1] in rows;
      SumRatingsBounds(rows[..|rows| - 1], lo, hi);
    }
  }

  /** The mean rating lies between the lowest and the highest rating. */
  lemma MeanRatingBounds(rows: seq<Row>, lo: real, hi: real)
    requires |rows| > 0
    requires forall x :: x in rows ==> lo <= x.rating <= hi
    ensures lo <= MeanRating(rows) <= hi
  {
    SumRatingsBounds(rows, lo, hi);
    RepeatMeanBounds(SumRatings(rows), |rows|, lo, hi);
  }

  /** What lines 252-263 show for one vendor. */
  datatype VendorSummary = VendorSummary(
    vendor: string,
    avgRating: real,
    totalOrders: nat,
    top: seq<Row>,
    headline: Row)

  /** Lines 254-258 for a vendor of the area's rows: its mean rating, its
      total orders, its five most ordered rows and the first of them. */
  function Summarize(rows: seq<Row>, vendor: string): (s: VendorSummary)
    requires HasRow(rows, vendor)
    ensures s.vendor == vendor
    ensures s.totalOrders == SumOrders(VendorRows(rows, vendor))
    ensures s.avgRating == MeanRating(VendorRows(rows, vendor))
    ensures |s.top| == if 5 <= |VendorRows(rows, vendor)| then 5 else |VendorRows(rows, vendor)|
    ensures multiset(s.top) <= multiset(VendorRows(rows, vendor))
    ensures SortedDesc(s.top, OrdersKey)
    ensures forall x, y :: x in multiset(VendorRows(rows, vendor)) - multiset(s.top) && y in s.top
                           ==> x.orders <= y.orders
    ensures s.headline in rows && s.headline.vendor == vendor && s.headline == s.top[0]
    ensures forall x :: x in rows && x.vendor == vendor ==> x.orders <= s.headline.orders
  {
    OwnRowsNonEmpty(rows, vendor);
    SummaryOf(VendorRows(rows, vendor), vendor)
  }

  /** The summary of the non-empty rows `own` of one vendor. */
  function SummaryOf(own: seq<Row>, vendor: string): (s: VendorSummary)
    requires |own| > 0
    ensures s.vendor == vendor && s.totalOrders == SumOrders(own) && s.avgRating == MeanRating(own)
    ensures |s.top| == (if 5 <= |own| then 5 else |own|) && multiset(s.top) <= multiset(own)
    ensures SortedDesc(s.top, OrdersKey)
    ensures forall x, y :: x in multiset(own) - multiset(s.top) && y in s.top ==> x.orders <= y.orders
    ensures s.headline in own && s.headline == s.top[0]
    ensures forall x :: x in own ==> x.orders <= s.headline.orders
  {
    var top := TopK(own, OrdersKey, 5);
    TopKMembers(own, OrdersKey, 5);
    assert forall y :: y in own ==> OrdersKey(y) <= OrdersKey(top[0]);
    VendorSummary(vendor, MeanRating(own), SumOrders(own), top, top[0])
  }

  lemma OwnRowsNonEmpty(rows: seq<Row>, vendor: string)
    requires HasRow(rows, vendor)
    ensures |VendorRows(rows, vendor)| > 0
  {
    var x :| x in rows && x.vendor == vendor;
    assert x in VendorRows(rows, vendor);
  }

  /** The vendor's mean rating lies between its lowest and its highest rating. */
  lemma {:induction false} SummaryRatingBounds(rows: seq<Row>, vendor: string, lo: real, hi: real)
    requires HasRow(rows, vendor)
    requires forall x :: x in rows && x.vendor == vendor ==> lo <= x.rating <= hi
    ensures lo <= Summarize(rows, vendor).avgRating <= hi
  {
    var own := VendorRows(rows, vendor);
    var x :| x in rows && x.vendor == vendor;
    assert x in own;
    MeanRatingBounds(own, lo, hi);
  }

  /** What lines 243-268 show for an area. */
  datatype AreaView = AreaView(summaries: seq<VendorSummary>, favourites: seq<Row>)

  /** Lines 245-268: one summary per vendor of the area's rows under the diet
      restriction, in the order vendors first appear, and the five most
      ordered of those rows (both empty when the area has no such row, where
      the script shows nothing). */
  function AreaVendors(catalog: seq<Row>, area: string, diet: Diet): (v: AreaView)
    ensures var rows := AreaRows(catalog, area, diet);
            |v.summaries| == |VendorNames(rows)|
            && (forall i :: 0 <= i < |v.summaries| ==>
                  v.summaries[i] == Summarize(rows, VendorNames(rows)[i]))
            && v.favourites == TopK(rows, OrdersKey, 5)
  {
    var rows := AreaRows(catalog, area, diet);
    VendorsHaveRows(rows, VendorNames(rows), 0);
    AreaView(Summaries(rows, VendorNames(rows)), TopK(rows, OrdersKey, 5))
  }

  /** The summaries of the listed vendors, in order. */
  function Summaries(rows: seq<Row>, names: seq<string>): (r: seq<VendorSummary>)
    requires forall i :: 0 <= i < |names| ==> HasRow(rows, names[i])
    ensures |r| == |names|
    ensures forall i :: 0 <= i < |names| ==> r[i] == Summarize(rows, names[i])
  {
    seq(|names|, i requires 0 <= i < |names| => Summarize(rows, names[i]))
  }

  // ---------------------------------------------------------------------------
  // The vendor totals add up to the area's total
  // ---------------------------------------------------------------------------

  /** The total orders of each listed vendor, added up. */
  function OrdersByVendor(rows: seq<Row>, vendors: seq<string>): nat
    decreases |vendors|
  {
    if |vendors| == 0 then 0
    else OrdersByVendor(rows, vendors[..|vendors| - 1])
         + SumOrders(VendorRows(rows, vendors[|vendors| - 1]))
  }

  /** The orders of `x`, counted once for every listed vendor that is its
      vendor. */
  function Share(vendors: seq<string>, x: Row): nat
    decreases |vendors|
  {
    if |vendors| == 0 then 0
    else Share(vendors[..|vendors| - 1], x) + (if vendors[|vendors| - 1] == x.vendor then x.orders else 0)
  }

  lemma {:induction false} ShareAbsent(vendors: seq<string>, x: Row)
    requires x.vendor !in vendors
    ensures Share(vendors, x) == 0
    decreases |vendors|
  {
    if |vendors| > 0 {
      assert forall v :: v in vendors[..|vendors| - 1] ==> v in vendors;
      ShareAbsent(vendors[..|vendors| - 1], x);
    }
  }

  /** Among distinct vendors, a row is counted exactly once. */
  lemma {:induction false} ShareOnce(vendors: seq<string>, x: Row)
    requires Distinct(vendors)
    requires x.vendor in vendors
    ensures Share(vendors, x) == x.orders
    decreases |vendors|
  {
    var init := vendors[..|vendors| - 1];
    var last := vendors[|vendors| - 1];
    assert vendors == init + [last];
    if last == x.vendor {
      assert x.vendor !in init by {
        forall i | 0 <= i < |init|
          ensures init[i] != last
        {
          assert vendors[i] == init[i];
        }
      }
      ShareAbsent(init, x);
    } else {
      assert x.vendor in init;
      assert Distinct(init) by {
        forall i, j | 0 <= i < j < |init|
          ensures init[i] != init[j]
        {
          assert vendors[i] == init[i] && vendors[j] == init[j];
        }
      }
      ShareOnce(init, x);
    }
  }

  /** Selecting from a sequence one element longer selects from the shorter
      one and then possibly the new element. */
  lemma VendorRowsSnoc(init: seq<Row>, last: Row, vendor: string)
    ensures SumOrders(VendorRows(init + [last], vendor))
            == SumOrders(VendorRows(init, vendor)) + (if vendor == last.vendor then last.orders else 0)
  {
    var s := init + [last];
    assert s[..|s| - 1] == init;
    var r := VendorRows(init, vendor);
    if vendor == last.vendor {
      assert VendorRows(s, vendor) == r + [last];
      assert (r + [last])[..|r|] == r;
    }
  }

  /** Adding a row to the rows adds its share to the per-vendor totals. */
  lemma {:induction false} OrdersByVendorSnoc(init: seq<Row>, last: Row, vendors: seq<string>)
    ensures OrdersByVendor(init + [last], vendors) == OrdersByVendor(init, vendors) + Share(vendors, last)
    decreases |vendors|
  {
    if |vendors| > 0 {
      OrdersByVendorSnoc(init, last, vendors[..|vendors| - 1]);
      VendorRowsSnoc(init, last, vendors[|vendors| - 1]);
    }
  }

  lemma {:induction false} OrdersByVendorEmpty(vendors: seq<string>)
    ensures OrdersByVendor([], vendors) == 0
    decreases |vendors|
  {
    if |vendors| > 0 {
      OrdersByVendorEmpty(vendors[..|vendors| - 1]);
    }
  }

  /** Lines 252-256: over distinct vendors that cover every row, the vendors'
      total orders add up to the total orders of the rows. */
  lemma {:induction false} OrdersPartition(rows: seq<Row>, vendors: seq<string>)
    requires Distinct(vendors)
    requires forall x :: x in rows ==> x.vendor in vendors
    ensures OrdersByVendor(rows, vendors) == SumOrders(rows)
    decreases |rows|
  {
    if |rows| == 0 {
      OrdersByVendorEmpty(vendors);
    } else {
      var init := rows[..|rows| - 1];
      var last := rows[|rows| - 1];
      assert rows == init + [last];
      assert forall x :: x in init ==> x in rows;
      OrdersPartition(init, vendors);
      OrdersByVendorSnoc(init, last, vendors);
      ShareOnce(vendors, last);
    }
  }

  /** The total orders the summaries show, added up. */
  function TotalOf(summaries: seq<VendorSummary>): nat
    decreases |summaries|
  {
    if |summaries| == 0 then 0
    else TotalOf(summaries[..|summaries| - 1]) + summaries[|summaries| - 1].totalOrders
  }

  /** Summaries whose totals are those of the listed vendors, position by
      position, add up to the per-vendor totals. */
  lemma {:induction false} TotalOfSummaries(rows: seq<Row>, names: seq<string>, summaries: seq<VendorSummary>)
    requires |summaries| == |names|
    requires forall i :: 0 <= i < |names| ==>
               summaries[i].totalOrders == SumOrders(VendorRows(rows, names[i]))
    ensures TotalOf(summaries) == OrdersByVendor(rows, names)
    decreases |names|
  {
    if |names| > 0 {
      TotalOfSummaries(rows, names[..|names| - 1], summaries[..|names| - 1]);
    }
  }

  /** The totals the area summaries show add up to the area's total orders. */
  lemma {:induction false} AreaOrdersAddUp(catalog: seq<Row>, area: string, diet: Diet)
    ensures var rows := AreaRows(catalog, area, diet);
            OrdersByVendor(rows, VendorNames(rows)) == SumOrders(rows)
    ensures TotalOf(AreaVendors(catalog, area, diet).summaries) == SumOrders(AreaRows(catalog, area, diet))
  {
    var rows := AreaRows(catalog, area, diet);
    OrdersPartition(rows, VendorNames(rows));
    AreaSummaryTotals(catalog, area, diet);
    TotalOfSummaries(rows, VendorNames(rows), AreaVendors(catalog, area, diet).summaries);
  }

  /** Each area summary shows its vendor's total orders. */
  lemma AreaSummaryTotals(catalog: seq<Row>, area: string, diet: Diet)
    ensures var rows := AreaRows(catalog, area, diet);
            var summaries := AreaVendors(catalog, area, diet).summaries;
            |summaries| == |VendorNames(rows)|
            && forall i :: 0 <= i < |summaries| ==>
                 summaries[i].totalOrders == SumOrders(VendorRows(rows, VendorNames(rows)[i]))
  {
    var rows := AreaRows(catalog, area, diet);
    var names := VendorNames(rows);
    var summaries := AreaVendors(catalog, area, diet).summaries;
    VendorsHaveRows(rows, names, 0);
    forall i | 0 <= i < |summaries|
      ensures summaries[i].totalOrders == SumOrders(VendorRows(rows, names[i]))
    {
      assert summaries[i] == Summarize(rows, names[i]);
    }
  }

  // ---------------------------------------------------------------------------
  // One vendor across all areas (lines 272-288)
  // ---------------------------------------------------------------------------

  /** What lines 273-287 show for one vendor. */
  datatype VendorCloseUp = VendorCloseUp(avgRating: real, totalOrders: nat, top: seq<Row>)

  /** Line 281: the rows the close-up lists from, `own` being the vendor's
      rows. They are the vendor's rows of the searched category when it sells
      that category, and all its rows otherwise (also when no search category
      has been chosen, `category` being None). */
  function DisplayRows(own: seq<Row>, category: Option<string>): (shown: seq<Row>)
    ensures category.Some? && (exists x :: x in own && x.category == category.value) ==>
              forall x {:trigger multiset(shown)[x]} ::
                multiset(shown)[x] == if x.category == category.value then multiset(own)[x] else 0
    ensures !(category.Some? && exists x :: x in own && x.category == category.value) ==> shown == own
  {
    if category.Some? && category.value in Categories(own)
    then Filter(own, CategoryPred(category.value)) else own
  }

  /** Lines 272-283: the vendor's rows in every area, with no diet
      restriction: their mean rating, their total orders, and the seven most
      ordered of the rows `DisplayRows` selects, most ordered first; None
      when the vendor has no row. */
  function CloseUp(catalog: seq<Row>, vendor: string, category: Option<string>): (r: Option<VendorCloseUp>)
    ensures r.None? <==> forall x :: x in catalog ==> x.vendor != vendor
    ensures r.Some? ==> r.value.totalOrders == SumOrders(VendorRows(catalog, vendor))
    ensures r.Some? ==> |VendorRows(catalog, vendor)| > 0
                        && r.value.avgRating == MeanRating(VendorRows(catalog, vendor))
    ensures r.Some? ==> var shown := DisplayRows(VendorRows(catalog, vendor), category);
                        |r.value.top| == (if 7 <= |shown| then 7 else |shown|)
                        && multiset(r.value.top) <= multiset(shown)
                        && (forall x, y :: x in multiset(shown) - multiset(r.value.top) && y in r.value.top
                                           ==> x.orders <= y.orders)
                        && (forall x :: x in shown ==> x.orders <= r.value.top[0].orders)
    ensures r.Some? ==> |r.value.top| <= 7 && SortedDesc(r.value.top, OrdersKey)
  {
    var own := VendorRows(catalog, vendor);
    if |own| == 0 then
      assert forall x :: x in catalog ==> x.vendor != vendor;
      None
    else
      Some(VendorCloseUpOf(own, category))
  }

  /** The close-up lists at least one row, every listed row is one of the
      vendor's, and all are of the searched category when the vendor sells
      it. */
  lemma CloseUpListed(catalog: seq<Row>, vendor: string, category: Option<string>)
    ensures var r := CloseUp(catalog, vendor, category);
            r.Some? ==> |r.value.top| > 0 && forall x :: x in r.value.top ==> x in catalog && x.vendor == vendor
    ensures var r := CloseUp(catalog, vendor, category);
            r.Some? && category.Some?
              && (exists x :: x in catalog && x.vendor == vendor && x.category == category.value)
            ==> forall x :: x in r.value.top ==> x.category == category.value
  {
    var own := VendorRows(catalog, vendor);
    var r := CloseUp(catalog, vendor, category);
    if r.Some? {
      var shown := DisplayRows(own, category);
      CloseUpShown(catalog, vendor, category, own, shown);
      assert forall x :: x in r.value.top ==> x in multiset(shown);
    }
  }

  /** The close-up of the non-empty rows `own` of one vendor. */
  function VendorCloseUpOf(own: seq<Row>, category: Option<string>): (c: VendorCloseUp)
    requires |own| > 0
    ensures c.totalOrders == SumOrders(own)
    ensures c.avgRating == MeanRating(own)
    ensures var shown := DisplayRows(own, category);
            |c.top| == (if 7 <= |shown| then 7 else |shown|)
            && multiset(c.top) <= multiset(shown)
            && (forall x, y :: x in multiset(shown) - multiset(c.top) && y in c.top ==> x.orders <= y.orders)
            && (|c.top| > 0 ==> forall x :: x in shown ==> x.orders <= c.top[0].orders)
    ensures SortedDesc(c.top, OrdersKey)
  {
    VendorCloseUp(MeanRating(own), SumOrders(own), TopK(DisplayRows(own, category), OrdersKey, 7))
  }

  /** `vendor_df['Type'].values`. */
  function Categories(rows: seq<Row>): (c: seq<string>)
    ensures forall k :: k in c <==> exists x :: x in rows && x.category == k
  {
    var c := seq(|rows|, i requires 0 <= i < |rows| => rows[i].category);
    assert forall i :: 0 <= i < |rows| ==> c[i] == rows[i].category && rows[i] in rows;
    c
  }

  lemma CloseUpShown(catalog: seq<Row>, vendor: string, category: Option<string>,
                     own: seq<Row>, shown: seq<Row>)
    requires own == VendorRows(catalog, vendor) && |own| > 0
    requires shown == DisplayRows(own, category)
    ensures |shown| > 0
    ensures forall x :: x in shown ==> x in catalog && x.vendor == vendor
    ensures category.Some? && (exists x :: x in catalog && x.vendor == vendor && x.category == category.value)
            ==> forall x :: x in shown ==> x.category == category.value
  {
    assert own[0] in own;
    if category.Some? && category.value in Categories(own) {
      var x :| x in own && x.category == category.value;
      assert x in shown;
    }
    if category.Some? && exists x :: x in catalog && x.vendor == vendor && x.category == category.value {
      var x :| x in catalog && x.vendor == vendor && x.category == category.value;
      assert x in own;
    }
  }
}
