/** The catalog: one `Row` per line of the vendor table after `dropna`, the
    composite desirability `Score` of foodans.py line 12, and the selections
    every section of the script repeats (diet preference, area, category,
    vendor). */
module Catalog {
  import opened Seqs

  /** One catalog line. `category` is the `Type` column, `vendor` the `Name`
      column, `item` the `Item_Name` column and `foodType` the `Food_Type`
      column, kept as the text it holds ("Veg", "Non-Veg"). `score` is the
      derived `Score` column. */
  datatype Row = Row(
    area: string,
    category: string,
    foodType: string,
    vendor: string,
    item: string,
    price: real,
    rating: real,
    orders: nat,
    score: real)

  /** The "Diet Preference?" choice. */
  datatype Diet = Both | Veg | NonVeg

  /** Reads the dropdown text the way the script compares it: anything other
      than "Veg" or "Non-Veg" applies no diet restriction. */
  function ParseDiet(choice: string): (d: Diet)
    ensures d == Veg <==> choice == "Veg"
    ensures d == NonVeg <==> choice == "Non-Veg"
  {
    if choice == "Veg" then Veg else if choice == "Non-Veg" then NonVeg else Both
  }

  /** The diet restriction: Veg keeps "Veg" rows, Non-Veg keeps "Non-Veg" rows,
      Both keeps every row. */
  predicate DietOk(d: Diet, r: Row)
  {
    match d
    case Both => true
    case Veg => r.foodType == "Veg"
    case NonVeg => r.foodType == "Non-Veg"
  }

  function DietPred(d: Diet): Row -> bool
  {
    (r: Row) => DietOk(d, r)
  }

  /** The `if diet_type == "Veg": ... elif diet_type == "Non-Veg": ...` block
      that follows almost every selection in the script. */
  function DietFilter(rows: seq<Row>, d: Diet): (r: seq<Row>)
    ensures forall x :: x in r <==> x in rows && DietOk(d, x)
    ensures forall x {:trigger multiset(r)[x]} :: multiset(r)[x] == if DietOk(d, x) then multiset(rows)[x] else 0
    ensures IsSubseq(r, rows)
    ensures d == Both ==> r == rows
  {
    var r := Filter(rows, DietPred(d));
    if d == Both then
      FilterAll(rows, DietPred(d));
      r
    else r
  }

  /** A selection whose predicate holds everywhere returns its input. */
  lemma {:induction false} FilterAll<T(!new)>(s: seq<T>, p: T -> bool)
    requires forall x :: p(x)
    ensures Filter(s, p) == s
    decreases |s|
  {
    if |s| > 0 {
      assert s == s[..|s| - 1] + [s[|s| - 1]];
      FilterAll(s[..|s| - 1], p);
    }
  }

  function AreaPred(area: string): Row -> bool
  {
    (r: Row) => r.area == area
  }

  function CategoryPred(category: string): Row -> bool
  {
    (r: Row) => r.category == category
  }

  function VendorPred(vendor: string): Row -> bool
  {
    (r: Row) => r.vendor == vendor
  }

  /** `df[df['Type'] == category]`. */
  function CategoryRows(rows: seq<Row>, category: string): (r: seq<Row>)
    ensures forall x :: x in r <==> x in rows && x.category == category
  {
    Filter(rows, CategoryPred(category))
  }

  /** `df[df['Name'] == vendor]`. */
  function VendorRows(rows: seq<Row>, vendor: string): (r: seq<Row>)
    ensures forall x :: x in r <==> x in rows && x.vendor == vendor
    ensures IsSubseq(r, rows)
  {
    Filter(rows, VendorPred(vendor))
  }

  /** The vendor has a row among `rows`. */
  predicate HasRow(rows: seq<Row>, vendor: string)
  {
    exists x :: x in rows && x.vendor == vendor
  }

  function VendorKey(r: Row): string
  {
    r.vendor
  }

  function ScoreKey(r: Row): real
  {
    r.score
  }

  function OrdersKey(r: Row): real
  {
    r.orders as real
  }

  // ---------------------------------------------------------------------------
  // Scoring (foodans.py line 12)
  // ---------------------------------------------------------------------------

  /** The popularity share: orders relative to the catalog maximum. */
  function Popularity(orders: nat, maxOrders: nat): real
    requires maxOrders > 0
  {
    orders as real / maxOrders as real
  }

  /** `0.6 * Avg_Rating + 0.4 * (Total_Order / Total_Order.max())`. The script
      divides without a guard, so a catalog whose maximum is 0 is outside the
      model. */
  function Score(rating: real, orders: nat, maxOrders: nat): real
    requires maxOrders > 0
  {
    0.6 * rating + 0.4 * Popularity(orders, maxOrders)
  }

  /** With orders within the catalog maximum, the popularity term adds between
      0 and 0.4 to the weighted rating. */
  lemma PopularityTermBounds(rating: real, orders: nat, maxOrders: nat)
    requires maxOrders > 0 && orders <= maxOrders
    ensures 0.0 <= 0.4 * Popularity(orders, maxOrders) <= 0.4
    ensures 0.6 * rating <= Score(rating, orders, maxOrders) <= 0.6 * rating + 0.4
  {
    var m := maxOrders as real;
    var o := orders as real;
    assert o / m <= 1.0 by {
      assert o <= m;
      assert o / m <= m / m;
    }
  }

  /** A non-negative rating gives a non-negative score. */
  lemma ScoreNonNegative(rating: real, orders: nat, maxOrders: nat)
    requires maxOrders > 0 && rating >= 0.0
    ensures Score(rating, orders, maxOrders) >= 0.0
  {
    assert orders as real / maxOrders as real >= 0.0;
  }

  /** The score never falls when the rating rises and the orders stay fixed,
      nor when the orders rise and the rating stays fixed. */
  lemma ScoreMonotonic(r1: real, r2: real, o1: nat, o2: nat, maxOrders: nat)
    requires maxOrders > 0
    requires r1 <= r2 && o1 <= o2
    ensures Score(r1, o1, maxOrders) <= Score(r2, o1, maxOrders)
    ensures Score(r1, o1, maxOrders) <= Score(r1, o2, maxOrders)
    ensures Score(r1, o1, maxOrders) <= Score(r2, o2, maxOrders)
  {
    var m := maxOrders as real;
    assert o1 as real / m <= o2 as real / m by {
      assert (o2 as real - o1 as real) / m >= 0.0;
    }
  }

  /** `Total_Order.max()` over the catalog (0 for an empty catalog). */
  function MaxOrders(rows: seq<Row>): (m: nat)
    ensures forall x :: x in rows ==> x.orders <= m
    ensures |rows| > 0 ==> exists x :: x in rows && x.orders == m
    decreases |rows|
  {
    if |rows| == 0 then 0
    else
      var init := rows[..|rows| - 1];
      var last := rows[|rows| - 1];
      assert rows == init + [last];
      var m := MaxOrders(init);
      if last.orders > m then last.orders else m
  }

  /** Fills the `Score` column once, from the catalog-wide maximum: every row
      keeps its data, and its score lies between 0.6 * rating and
      0.6 * rating + 0.4. */
  function WithScores(rows: seq<Row>): (r: seq<Row>)
    requires MaxOrders(rows) > 0
    ensures |r| == |rows|
    ensures forall i :: 0 <= i < |r| ==> r[i] == rows[i].(score := r[i].score)
    ensures forall i :: 0 <= i < |r| ==>
              r[i].score == Score(rows[i].rating, rows[i].orders, MaxOrders(rows))
    ensures forall i :: 0 <= i < |r| ==>
              0.6 * rows[i].rating <= r[i].score <= 0.6 * rows[i].rating + 0.4
  {
    var m := MaxOrders(rows);
    var r := seq(|rows|, i requires 0 <= i < |rows| =>
                   rows[i].(score := Score(rows[i].rating, rows[i].orders, m)));
    forall i | 0 <= i < |rows|
      ensures 0.6 * rows[i].rating <= r[i].score <= 0.6 * rows[i].rating + 0.4
    {
      assert rows[i] in rows;
      PopularityTermBounds(rows[i].rating, rows[i].orders, m);
    }
    r
  }
}
