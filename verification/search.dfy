/** "Find My Food!" (foodans.py lines 86-148) and "More for You!" (lines
    151-161): the strict search, its per-vendor listing, the top item and the
    similar-item suggestions, and the similarity fallback when nothing
    matches. The nearest-neighbour index is a parameter `knn`: given an anchor
    row it yields the neighbour rows, nearest first. */
module Search {
  import opened Wrappers
  import opened Seqs
  import opened Ranking
  import opened Catalog
  import opened Bands

  /** The form of "What's Your Vibe?" once its dropdowns are read. */
  datatype Query = Query(area: string, category: string, price: Band, rating: Band, diet: Diet)

  /** Line 91: the "Same" choice stands for the area picked in "Tell Me About You!". */
  function SearchArea(homeArea: string, newArea: string): string
  {
    if newArea == "Same" then homeArea else newArea
  }

  /** Lines 87-96 and 91: the query the form describes, or None when a band
      choice does not parse (the script would raise ValueError). */
  function BuildQuery(homeArea: string, newArea: string, category: string,
                      priceChoice: string, ratingChoice: string, diet: Diet): (q: Option<Query>)
    ensures q.Some? <==> ParsePriceBand(priceChoice).Some? && ParseRatingBand(ratingChoice).Some?
    ensures q.Some? ==> q.value.price == ParsePriceBand(priceChoice).value
                        && q.value.rating == ParseRatingBand(ratingChoice).value
    ensures q.Some? && newArea == "Same" ==> q.value.area == homeArea
    ensures q.Some? && newArea != "Same" ==> q.value.area == newArea
    ensures q.Some? ==> q.value.category == category && q.value.diet == diet
  {
    match (ParsePriceBand(priceChoice), ParseRatingBand(ratingChoice))
    case (Some(p), Some(r)) => Some(Query(SearchArea(homeArea, newArea), category, p, r, diet))
    case _ => None
  }

  /** The strict filter of lines 97-99, before the diet restriction. */
  predicate CoreMatch(q: Query, r: Row)
  {
    && r.area == q.area
    && r.category == q.category
    && Contains(q.price, r.price)
    && Contains(q.rating, r.rating)
  }

  /** A row the search returns: the strict filter and the diet restriction. */
  predicate Matches(q: Query, r: Row)
  {
    CoreMatch(q, r) && DietOk(q.diet, r)
  }

  function CorePred(q: Query): Row -> bool
  {
    (r: Row) => CoreMatch(q, r)
  }

  function MatchPred(q: Query): Row -> bool
  {
    (r: Row) => Matches(q, r)
  }

  /** Lines 97-104: the strict filter followed by the diet restriction keeps
      exactly the catalog rows that meet the whole conjunction, in catalog
      order: it is one pass of the conjunction. */
  function SearchRows(catalog: seq<Row>, q: Query): (r: seq<Row>)
    ensures forall x :: x in r <==> x in catalog && Matches(q, x)
    ensures IsSubseq(r, catalog)
    ensures r == Filter(catalog, MatchPred(q))
  {
    var core := Filter(catalog, CorePred(q));
    FilterFusion(catalog, CorePred(q), DietPred(q.diet), MatchPred(q));
    DietFilter(core, q.diet)
  }

  /** Line 128, `Name.unique()`: each vendor once, at its first row, in the
      order vendors first appear. */
  function VendorNames(rows: seq<Row>): (names: seq<string>)
    ensures forall i, j :: 0 <= i < j < |names| ==> names[i] != names[j]
    ensures forall x :: x in rows ==> x.vendor in names
    ensures forall v :: v in names ==> exists x :: x in rows && x.vendor == v
    ensures forall i, j :: 0 <= i < j < |names| ==>
              KeyIndex(rows, VendorKey, names[i]) < KeyIndex(rows, VendorKey, names[j])
  {
    var firsts := FirstByKey(rows, VendorKey);
    var names := VendorsOf(firsts);
    NamesOfFirsts(rows, firsts, names, VendorKey);
    names
  }

  /** The vendor of each row, position by position. */
  function VendorsOf(rs: seq<Row>): (names: seq<string>)
    ensures |names| == |rs|
    ensures forall i {:trigger names[i]} :: 0 <= i < |rs| ==> names[i] == rs[i].vendor
  {
    seq(|rs|, i requires 0 <= i < |rs| => rs[i].vendor)
  }

  lemma NamesOfFirsts(rows: seq<Row>, firsts: seq<Row>, names: seq<string>, key: Row -> string)
    requires forall r :: key(r) == r.vendor
    requires IsSubseq(firsts, rows)
    requires DistinctKeys(firsts, key)
    requires forall x :: x in rows ==> exists i :: 0 <= i < |firsts| && key(firsts[i]) == key(x)
    requires |names| == |firsts| && forall i :: 0 <= i < |firsts| ==> names[i] == firsts[i].vendor
    requires forall i, j :: 0 <= i < j < |firsts| ==>
               KeyIndex(rows, key, key(firsts[i])) < KeyIndex(rows, key, key(firsts[j]))
    ensures forall i, j :: 0 <= i < j < |names| ==> names[i] != names[j]
    ensures forall i, j :: 0 <= i < j < |names| ==>
              KeyIndex(rows, key, names[i]) < KeyIndex(rows, key, names[j])
    ensures forall x :: x in rows ==> x.vendor in names
    ensures forall v :: v in names ==> exists x :: x in rows && x.vendor == v
  {
    forall i, j | 0 <= i < j < |names|
      ensures names[i] != names[j]
      ensures KeyIndex(rows, key, names[i]) < KeyIndex(rows, key, names[j])
    {
      assert key(firsts[i]) != key(firsts[j]);
      assert names[i] == key(firsts[i]) && names[j] == key(firsts[j]);
    }
    forall x | x in rows
      ensures x.vendor in names
    {
      var i :| 0 <= i < |firsts| && key(firsts[i]) == key(x);
      assert names[i] == x.vendor;
    }
    SubseqMembers(firsts, rows);
    forall v | v in names
      ensures exists x :: x in rows && x.vendor == v
    {
      var i :| 0 <= i < |names| && names[i] == v;
      assert firsts[i] in rows;
    }
  }

  /** A vendor heading of the result listing and the items shown under it. */
  datatype VendorGroup = VendorGroup(vendor: string, items: seq<Row>)

  /** Line 130: a vendor's rows, best score first, at most four. */
  function VendorTop(rows: seq<Row>, vendor: string, n: nat): (items: seq<Row>)
    ensures |items| == if n <= |VendorRows(rows, vendor)| then n else |VendorRows(rows, vendor)|
    ensures forall x :: x in items ==> x in rows && x.vendor == vendor
    ensures multiset(items) <= multiset(VendorRows(rows, vendor))
    ensures SortedDesc(items, ScoreKey)
    ensures forall x, y :: x in multiset(VendorRows(rows, vendor)) - multiset(items) && y in items
                           ==> x.score <= y.score
  {
    TopKMembers(VendorRows(rows, vendor), ScoreKey, n);
    TopK(VendorRows(rows, vendor), ScoreKey, n)
  }

  /** Lines 128-133: one group per vendor of the result, in first-appearance
      order, each with that vendor's best four rows of the result. */
  function VendorGroups(found: seq<Row>): (g: seq<VendorGroup>)
    ensures |g| == |VendorNames(found)|
    ensures forall i :: 0 <= i < |g| ==>
              g[i].vendor == VendorNames(found)[i] && g[i].items == VendorTop(found, g[i].vendor, 4)
    ensures forall i :: 0 <= i < |g| ==> 0 < |g[i].items| <= 4
  {
    GroupsOf(found, VendorNames(found))
  }

  /** Each listed vendor with its best four rows, in list order. */
  function GroupsOf(found: seq<Row>, names: seq<string>): (g: seq<VendorGroup>)
    requires forall v :: v in names ==> exists x :: x in found && x.vendor == v
    ensures |g| == |names|
    ensures forall i :: 0 <= i < |g| ==>
              g[i].vendor == names[i] && g[i].items == VendorTop(found, names[i], 4) && 0 < |g[i].items| <= 4
  {
    VendorsHaveRows(found, names, 4);
    seq(|names|, i requires 0 <= i < |names| => VendorGroup(names[i], VendorTop(found, names[i], 4)))
  }

  /** Every vendor of a list drawn from the rows has a row, and so, for
      any positive `n`, at least one row to show. */
  lemma VendorsHaveRows(rows: seq<Row>, names: seq<string>, n: nat)
    requires forall v :: v in names ==> exists x :: x in rows && x.vendor == v
    ensures forall i :: 0 <= i < |names| ==> HasRow(rows, names[i])
    ensures n > 0 ==> forall i :: 0 <= i < |names| ==> |VendorTop(rows, names[i], n)| > 0
  {
    forall i | 0 <= i < |names|
      ensures HasRow(rows, names[i])
      ensures n > 0 ==> |VendorTop(rows, names[i], n)| > 0
    {
      assert names[i] in names;
      var x :| x in rows && x.vendor == names[i];
      assert x in VendorRows(rows, names[i]);
    }
  }

  /** Line 136: a row of the result with the highest score. */
  function TopItem(found: seq<Row>): (t: Row)
    requires |found| > 0
    ensures t in found
    ensures forall x :: x in found ==> x.score <= t.score
  {
    var ranked := TopK(found, ScoreKey, 1);
    TopKMembers(found, ScoreKey, 1);
    ranked[0]
  }

  function ItemPred(item: string): Row -> bool
  {
    (r: Row) => r.item == item
  }

  /** Line 137: the first row of the result carrying the top item's name
      (item names are not unique, so this need not be the top row itself). */
  function Anchor(found: seq<Row>, top: Row): (a: Row)
    requires top in found
    ensures a in found && a.item == top.item
    ensures exists i :: 0 <= i < |found| && found[i] == a
                        && forall j :: 0 <= j < i ==> found[j].item != top.item
  {
    var named := Filter(found, ItemPred(top.item));
    assert top in named;
    FilterHead(found, ItemPred(top.item));
    named[0]
  }

  /** Lines 117-122, 139-144 and 225-230: the first `k` neighbours; under Veg or
      Non-Veg only those of the chosen diet and the searched category survive,
      under Both all `k` pass unchanged (category included). */
  function SimilarPostFilter(neighbours: seq<Row>, k: nat, diet: Diet, category: string): (r: seq<Row>)
    ensures |r| <= k
    ensures IsSubseq(r, Take(neighbours, k))
    ensures diet == Both ==> r == Take(neighbours, k)
    ensures diet != Both ==> forall x :: x in r <==>
              x in Take(neighbours, k) && DietOk(diet, x) && x.category == category
    ensures diet != Both ==> forall x {:trigger multiset(r)[x]} ::
              multiset(r)[x] == if DietOk(diet, x) && x.category == category
                                then multiset(Take(neighbours, k))[x] else 0
  {
    var firstK := Take(neighbours, k);
    if diet == Both then
      assert IsSubseq(firstK, firstK) by { SubseqRefl(firstK); }
      firstK
    else Filter(firstK, SimilarPred(diet, category))
  }

  function SimilarPred(diet: Diet, category: string): Row -> bool
  {
    (r: Row) => DietOk(diet, r) && r.category == category
  }

  /** Why no similar items can be suggested. */
  datatype FallbackError =
    | CategoryNotFound  // the category has no row at all (line 236)
    | NoAnchor          // rows of the category exist but none of the diet: `index[0]` raises IndexError

  /** Lines 108-115 and 214-221: the anchor of the similarity fallback is the
      first catalog row of the category that meets the diet restriction. */
  function FallbackAnchor(catalog: seq<Row>, category: string, diet: Diet): (r: Result<Row, FallbackError>)
    ensures r == Failure(CategoryNotFound) <==> forall x :: x in catalog ==> x.category != category
    ensures r == Failure(NoAnchor) <==>
              (exists x :: x in catalog && x.category == category)
              && forall x :: x in catalog && x.category == category ==> !DietOk(diet, x)
    ensures r.Success? ==>
              exists i :: 0 <= i < |catalog| && catalog[i] == r.value
                          && r.value.category == category && DietOk(diet, r.value)
                          && forall j :: 0 <= j < i ==>
                               !(catalog[j].category == category && DietOk(diet, catalog[j]))
  {
    var ofCategory := CategoryRows(catalog, category);
    if |ofCategory| == 0 then
      assert forall x :: x in catalog ==> x.category != category;
      Failure(CategoryNotFound)
    else
      assert ofCategory[0] in catalog;
      var eligible := DietFilter(ofCategory, diet);
      if |eligible| == 0 then Failure(NoAnchor)
      else
        AnchorIsFirst(catalog, category, diet);
        Success(eligible[0])
  }

  function AnchorPred(category: string, diet: Diet): Row -> bool
  {
    (r: Row) => r.category == category && DietOk(diet, r)
  }

  lemma AnchorIsFirst(catalog: seq<Row>, category: string, diet: Diet)
    requires |DietFilter(CategoryRows(catalog, category), diet)| > 0
    ensures var a := DietFilter(CategoryRows(catalog, category), diet)[0];
            exists i :: 0 <= i < |catalog| && catalog[i] == a
                        && a.category == category && DietOk(diet, a)
                        && forall j :: 0 <= j < i ==>
                             !(catalog[j].category == category && DietOk(diet, catalog[j]))
  {
    FilterFusion(catalog, CategoryPred(category), DietPred(diet), AnchorPred(category, diet));
    assert DietFilter(CategoryRows(catalog, category), diet) == Filter(catalog, AnchorPred(category, diet));
    FilterHead(catalog, AnchorPred(category, diet));
  }

  /** The fallback suggestions: the post-filtered first `k` neighbours of the
      anchor, or the reason there are none. */
  function Alternatives(catalog: seq<Row>, category: string, diet: Diet,
                        knn: Row -> seq<Row>, k: nat): (r: Result<seq<Row>, FallbackError>)
    ensures r.Failure? <==> FallbackAnchor(catalog, category, diet).Failure?
    ensures r.Failure? ==> r.error == FallbackAnchor(catalog, category, diet).error
    ensures r.Success? ==> |r.value| <= k
    ensures r.Success? && diet != Both ==>
              forall x :: x in r.value ==> x.category == category && DietOk(diet, x)
    ensures r.Success? ==> FallbackAnchor(catalog, category, diet).Success?
                           && r.value == SimilarPostFilter(knn(FallbackAnchor(catalog, category, diet).value),
                                                           k, diet, category)
  {
    match FallbackAnchor(catalog, category, diet)
    case Success(a) => Success(SimilarPostFilter(knn(a), k, diet, category))
    case Failure(e) => Failure(e)
  }

  /** What "Find My Food!" shows. */
  datatype FindResult =
    | Found(groups: seq<VendorGroup>, top: Row, anchor: Row, similar: seq<Row>)
    | NotFound(alternatives: Result<seq<Row>, FallbackError>)

  /** Lines 97-148: the listing, top item and three neighbour suggestions when
      the search finds rows; otherwise the two-neighbour fallback of lines
      106-125. */
  function FindMyFood(catalog: seq<Row>, q: Query, knn: Row -> seq<Row>): (r: FindResult)
    ensures r.Found? <==> exists x :: x in catalog && Matches(q, x)
    ensures r.Found? ==> r.groups == VendorGroups(SearchRows(catalog, q))
    ensures r.Found? ==> r.top in catalog && Matches(q, r.top)
    ensures r.Found? ==> forall x :: x in catalog && Matches(q, x) ==> x.score <= r.top.score
    ensures r.Found? ==> r.anchor in catalog && Matches(q, r.anchor) && r.anchor.item == r.top.item
    ensures r.Found? ==> r.top in SearchRows(catalog, q) && r.anchor == Anchor(SearchRows(catalog, q), r.top)
    ensures r.Found? ==> r.similar == SimilarPostFilter(knn(r.anchor), 3, q.diet, q.category)
    ensures r.NotFound? ==> r.alternatives == Alternatives(catalog, q.category, q.diet, knn, 2)
  {
    var found := SearchRows(catalog, q);
    if |found| == 0 then
      assert forall x :: x in catalog ==> !Matches(q, x);
      NotFound(Alternatives(catalog, q.category, q.diet, knn, 2))
    else
      FoundView(found, q, knn)
  }

  /** The listing of a non-empty search result `found`. */
  function FoundView(found: seq<Row>, q: Query, knn: Row -> seq<Row>): (r: FindResult)
    requires |found| > 0
    ensures r.Found? && r.groups == VendorGroups(found)
    ensures r.top in found && forall x :: x in found ==> x.score <= r.top.score
    ensures r.anchor == Anchor(found, r.top)
    ensures r.similar == SimilarPostFilter(knn(r.anchor), 3, q.diet, q.category)
  {
    assert found[0] in found;
    var top := TopItem(found);
    var anchor := Anchor(found, top);
    Found(VendorGroups(found), top, anchor, SimilarPostFilter(knn(anchor), 3, q.diet, q.category))
  }

  /** Lines 155-160: the best-selling row of a vendor in a category under the
      diet restriction, across all areas; None where `iloc[0]` would raise. */
  function TopSeller(catalog: seq<Row>, vendor: string, category: string, diet: Diet): (r: Option<Row>)
    ensures r.None? <==>
              forall x :: x in catalog ==> !(x.vendor == vendor && x.category == category && DietOk(diet, x))
    ensures r.Some? ==> r.value in catalog && r.value.vendor == vendor
                        && r.value.category == category && DietOk(diet, r.value)
    ensures r.Some? ==> forall x :: (x in catalog && x.vendor == vendor && x.category == category
                                     && DietOk(diet, x)) ==> x.orders <= r.value.orders
  {
    var rows := SellerRows(catalog, vendor, category, diet);
    if |rows| == 0 then None
    else
      var best := TopK(rows, OrdersKey, 1);
      TopKMembers(rows, OrdersKey, 1);
      assert best[0] in best;
      Some(best[0])
  }

  /** The rows line 160 sorts (156 and 158 under a diet): the vendor's rows of
      the category that the diet admits. */
  function SellerRows(catalog: seq<Row>, vendor: string, category: string, diet: Diet): (rows: seq<Row>)
    ensures forall x :: x in rows <==>
              x in catalog && x.vendor == vendor && x.category == category && DietOk(diet, x)
  {
    DietFilter(Filter(VendorRows(catalog, vendor), CategoryPred(category)), diet)
  }

  /** "More for You!" always has a pick after a successful search: the top
      item's vendor sells a row of the searched category under the diet. */
  lemma TopSellerAfterFind(catalog: seq<Row>, q: Query, knn: Row -> seq<Row>)
    requires FindMyFood(catalog, q, knn).Found?
    ensures TopSeller(catalog, FindMyFood(catalog, q, knn).top.vendor, q.category, q.diet).Some?
  {
    var top := FindMyFood(catalog, q, knn).top;
    assert top.vendor == top.vendor && top.category == q.category && DietOk(q.diet, top);
  }
}
