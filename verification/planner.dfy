/** "What's Next?" (foodans.py lines 165-236): after the searched category, up
    to three distinct items from the categories that usually follow it, taken
    from the best-scored rows of each following category in the search area
    (or anywhere when the area has none that fit), and the similarity fallback
    when nothing fits at all. */
module Planner {
  import opened Wrappers
  import opened Seqs
  import opened Ranking
  import opened Catalog
  import opened Search

  /** The categories the transition table knows. */
  const TableCategories: seq<string> := ["Tiffin", "Fast Food", "Lunch", "Tea", "Café"]

  /** Lines 168-174: the categories that follow a category, in the order they
      are tried; None for a category the table does not list. */
  function NextTypes(category: string): (r: Option<seq<string>>)
    ensures r.Some? <==> category in TableCategories
    ensures r.Some? ==> 2 <= |r.value| <= 3 && category !in r.value
  {
    if category == "Tiffin" then Some(["Tea", "Lunch", "Fast Food"])
    else if category == "Fast Food" then Some(["Tea", "Café"])
    else if category == "Lunch" then Some(["Café", "Tea", "Fast Food"])
    else if category == "Tea" then Some(["Fast Food", "Café", "Lunch"])
    else if category == "Café" then Some(["Tea", "Tiffin", "Lunch"])
    else None
  }

  function TypeAreaPred(category: string, area: string): Row -> bool
  {
    (r: Row) => r.category == category && r.area == area
  }

  /** `df[(df['Type'] == next_type) & (df['Area'] == search_area)]`. */
  function LocalPool(catalog: seq<Row>, category: string, area: string): (r: seq<Row>)
    ensures forall x :: x in r <==> x in catalog && x.category == category && x.area == area
  {
    Filter(catalog, TypeAreaPred(category, area))
  }

  /** The three best-scored rows of a pool under the diet restriction
      (`sort_values('Score', ascending=False).head(3)` and then the diet
      block). */
  function BestThree(pool: seq<Row>, diet: Diet): (r: seq<Row>)
    ensures |r| <= 3
    ensures multiset(r) <= multiset(pool)
    ensures forall x :: x in r ==> x in pool && DietOk(diet, x)
    ensures diet == Both ==> |r| == if 3 <= |pool| then 3 else |pool|
    ensures diet == Both ==>
              forall x, y :: x in multiset(pool) - multiset(r) && y in r ==> x.score <= y.score
    ensures IsSubseq(r, TopK(pool, ScoreKey, 3))
    ensures forall x {:trigger multiset(r)[x]} ::
              multiset(r)[x] == if DietOk(diet, x) then multiset(TopK(pool, ScoreKey, 3))[x] else 0
  {
    var top := TopK(pool, ScoreKey, 3);
    TopKMembers(pool, ScoreKey, 3);
    TopThreeScores(pool);
    FilterMultiset(top, DietPred(diet));
    DietFilter(top, diet)
  }

  /** The cut comes before the diet restriction: a row that three rows of the
      pool outscore is never kept, even when those rows are of another diet,
      and a row of the diet that at most three rows of the pool reach (itself
      included) is always kept. */
  lemma BestThreeRank(pool: seq<Row>, diet: Diet)
    ensures forall x :: x in BestThree(pool, diet) ==> |Filter(pool, Above(ScoreKey, x.score))| < 3
    ensures forall x :: x in pool && DietOk(diet, x) && |Filter(pool, AtLeast(ScoreKey, x.score))| <= 3
                        ==> x in BestThree(pool, diet)
  {
    TopKRank(pool, ScoreKey, 3);
  }

  /** No row left out of the pool's top three scores higher than one kept. */
  lemma TopThreeScores(pool: seq<Row>)
    ensures var top := TopK(pool, ScoreKey, 3);
            forall x, y :: x in multiset(pool) - multiset(top) && y in top ==> x.score <= y.score
  {
    var top := TopK(pool, ScoreKey, 3);
    forall x, y | x in multiset(pool) - multiset(top) && y in top
      ensures x.score <= y.score
    {
      assert ScoreKey(x) <= ScoreKey(y);
    }
  }

  /** Lines 182-198: what one following category adds. The search area's three
      best rows of that category under the diet restriction; when none of them
      fits, and the category has rows anywhere, the three best rows of the
      category across all areas under the diet restriction. */
  function Contribution(catalog: seq<Row>, area: string, category: string, diet: Diet): (r: seq<Row>)
    ensures |r| <= 3
    ensures forall x :: x in r ==> x in catalog && x.category == category && DietOk(diet, x)
    ensures (exists x :: x in r && x.area != area) ==>
              |BestThree(LocalPool(catalog, category, area), diet)| == 0
    ensures |BestThree(LocalPool(catalog, category, area), diet)| > 0 ==>
              r == BestThree(LocalPool(catalog, category, area), diet)
    ensures |BestThree(LocalPool(catalog, category, area), diet)| == 0 ==>
              r == BestThree(CategoryRows(catalog, category), diet)
  {
    var local := BestThree(LocalPool(catalog, category, area), diet);
    if |local| > 0 then local
    else if |CategoryRows(catalog, category)| > 0 then BestThree(CategoryRows(catalog, category), diet)
    else []
  }

  /** With no diet restriction and rows of the category in the search area,
      the contribution is the area's best rows of the category: as many as
      `head(3)` gives, and no row of the area left out scores higher. */
  lemma ContributionLocal(catalog: seq<Row>, area: string, category: string)
    requires exists x :: x in catalog && x.category == category && x.area == area
    ensures var r := Contribution(catalog, area, category, Both);
            var pool := LocalPool(catalog, category, area);
            |r| == (if 3 <= |pool| then 3 else |pool|)
            && (forall x :: x in r ==> x.area == area)
            && forall x, y :: x in multiset(pool) - multiset(r) && y in r ==> x.score <= y.score
  {
    var pool := LocalPool(catalog, category, area);
    var x :| x in catalog && x.category == category && x.area == area;
    assert x in pool;
  }

  /** With no diet restriction a category contributes exactly when it has a
      row somewhere. */
  lemma ContributionNonEmpty(catalog: seq<Row>, area: string, category: string)
    ensures |Contribution(catalog, area, category, Both)| > 0 <==>
            exists x :: x in catalog && x.category == category
  {
    var pool := LocalPool(catalog, category, area);
    var global := CategoryRows(catalog, category);
    if exists x :: x in catalog && x.category == category {
      var x :| x in catalog && x.category == category;
      assert x in global;
    } else {
      FilterNone(catalog, TypeAreaPred(category, area));
      FilterNone(catalog, CategoryPred(category));
    }
  }

  /** An area no row lies in (such as "Same", which this section passes on
      unresolved) makes every contribution the category's best rows across
      all areas. */
  lemma UnknownAreaGlobal(catalog: seq<Row>, area: string, category: string, diet: Diet)
    requires forall x :: x in catalog ==> x.area != area
    ensures Contribution(catalog, area, category, diet)
            == BestThree(CategoryRows(catalog, category), diet)
  {
    FilterNone(catalog, TypeAreaPred(category, area));
    var global := CategoryRows(catalog, category);
    if |global| == 0 {
      assert BestThree(global, diet) == [];
    }
  }

  /** Lines 179-198: the contributions of the following categories, in table
      order. */
  function Recommendations(catalog: seq<Row>, area: string, categories: seq<string>, diet: Diet): (r: seq<Row>)
    ensures |r| <= 3 * |categories|
    ensures forall x :: x in r ==> x in catalog && x.category in categories && DietOk(diet, x)
    decreases |categories|
  {
    if |categories| == 0 then []
    else
      var init := categories[..|categories| - 1];
      var last := categories[|categories| - 1];
      assert categories == init + [last];
      Recommendations(catalog, area, init, diet) + Contribution(catalog, area, last, diet)
  }

  /** The loop of lines 180-198 extends the list one category at a time, in
      table order: the recommendations for `a + b` are those for `a` followed
      by those for `b`, and a single category recommends its contribution. */
  lemma {:induction false} RecommendationsAppend(catalog: seq<Row>, area: string, a: seq<string>, b: seq<string>,
                                                 diet: Diet)
    ensures Recommendations(catalog, area, a + b, diet)
            == Recommendations(catalog, area, a, diet) + Recommendations(catalog, area, b, diet)
    ensures |b| == 1 ==> Recommendations(catalog, area, b, diet) == Contribution(catalog, area, b[0], diet)
    decreases |b|
  {
    if |b| == 0 {
      assert a + b == a;
    } else {
      var init := b[..|b| - 1];
      var ab := a + b;
      assert ab[..|ab| - 1] == a + init;
      assert ab[|ab| - 1] == b[|b| - 1];
      RecommendationsAppend(catalog, area, a, init, diet);
      RecommendationsSnoc(catalog, area, ab, diet);
      RecommendationsSnoc(catalog, area, b, diet);
      ConcatAssoc(Recommendations(catalog, area, a, diet), Recommendations(catalog, area, init, diet),
                  Contribution(catalog, area, b[|b| - 1], diet));
      if |b| == 1 {
        assert init == [];
      }
    }
  }

  /** One more category appends its contribution. */
  lemma RecommendationsSnoc(catalog: seq<Row>, area: string, categories: seq<string>, diet: Diet)
    requires |categories| > 0
    ensures Recommendations(catalog, area, categories, diet)
            == Recommendations(catalog, area, categories[..|categories| - 1], diet)
               + Contribution(catalog, area, categories[|categories| - 1], diet)
  {
  }

  /** Each following category adds at most three rows of its own: the rows of
      category `c` number at most three for every time `c` is listed. */
  lemma {:induction false} RecommendationsPerCategory(catalog: seq<Row>, area: string, categories: seq<string>,
                                                      diet: Diet, c: string)
    ensures |Filter(Recommendations(catalog, area, categories, diet), CategoryPred(c))|
            <= 3 * multiset(categories)[c]
    decreases |categories|
  {
    if |categories| > 0 {
      var init := categories[..|categories| - 1];
      var last := categories[|categories| - 1];
      assert categories == init + [last];
      RecommendationsPerCategory(catalog, area, init, diet, c);
      var before := Recommendations(catalog, area, init, diet);
      var added := Contribution(catalog, area, last, diet);
      FilterAppend(before, added, CategoryPred(c));
      if c != last {
        FilterNone(added, CategoryPred(c));
      }
    }
  }

  /** With no diet restriction there is something to recommend exactly when
      one of the following categories has a row somewhere. */
  lemma {:induction false} RecommendationsNonEmpty(catalog: seq<Row>, area: string, categories: seq<string>)
    ensures |Recommendations(catalog, area, categories, Both)| > 0 <==>
            exists x :: x in catalog && x.category in categories
    decreases |categories|
  {
    if |categories| > 0 {
      var init := categories[..|categories| - 1];
      var last := categories[|categories| - 1];
      assert categories == init + [last];
      RecommendationsNonEmpty(catalog, area, init);
      ContributionNonEmpty(catalog, area, last);
      CategorySplit(catalog, init, last);
    }
  }

  /** A row's category is among `init + [last]` exactly when it is among
      `init` or is `last`. */
  lemma CategorySplit(catalog: seq<Row>, init: seq<string>, last: string)
    ensures (exists x :: x in catalog && x.category in init + [last]) <==>
            (exists x :: x in catalog && x.category in init)
            || (exists x :: x in catalog && x.category == last)
  {
    if exists x :: x in catalog && x.category in init + [last] {
      var x :| x in catalog && x.category in init + [last];
      if x.category != last {
        assert x.category in init;
      }
    }
  }

  function ItemKey(r: Row): string
  {
    r.item
  }

  /** Lines 200-208: the first three rows with distinct item names among the
      first nine recommendations. */
  function UniquePicks(recs: seq<Row>): (picks: seq<Row>)
    ensures |picks| <= 3
    ensures |recs| > 0 ==> |picks| > 0
    ensures forall i, j :: 0 <= i < j < |picks| ==> picks[i].item != picks[j].item
    ensures IsSubseq(picks, Take(recs, 9))
    ensures forall i :: 0 <= i < |picks| ==> FirstOfKey(Take(recs, 9), ItemKey, picks[i])
    ensures |picks| < 3 ==>
              forall x :: x in Take(recs, 9) ==> exists i :: 0 <= i < |picks| && picks[i].item == x.item
  {
    var window := Take(recs, 9);
    PicksDistinct(window, FirstDistinct(window, ItemKey, 3));
    FirstDistinct(window, ItemKey, 3)
  }

  /** The picks keep the order in which their names first appear in the
      window. */
  lemma UniquePicksInOrder(recs: seq<Row>)
    ensures var picks := UniquePicks(recs);
            forall i, j :: 0 <= i < j < |picks| ==>
              KeyIndex(Take(recs, 9), ItemKey, picks[i].item) < KeyIndex(Take(recs, 9), ItemKey, picks[j].item)
  {
    var window := Take(recs, 9);
    var picks := FirstDistinct(window, ItemKey, 3);
    assert UniquePicks(recs) == picks;
    PicksInOrder(window, picks);
  }

  /** No name appearing in the window before the last pick's name is
      skipped: the picks are the FIRST distinct names of the window. */
  lemma UniquePicksNoneSkipped(recs: seq<Row>)
    ensures var picks := UniquePicks(recs);
            |picks| > 0 ==>
              forall x :: x in Take(recs, 9)
                          && KeyIndex(Take(recs, 9), ItemKey, x.item)
                             <= KeyIndex(Take(recs, 9), ItemKey, picks[|picks| - 1].item)
                          ==> exists i :: 0 <= i < |picks| && picks[i].item == x.item
  {
    var window := Take(recs, 9);
    var picks := FirstDistinct(window, ItemKey, 3);
    assert UniquePicks(recs) == picks;
    PicksNoneSkipped(window, picks);
  }

  /** Distinct item keys are distinct item names, and the coverage of
      `FirstDistinct` holds on names. */
  lemma PicksDistinct(window: seq<Row>, picks: seq<Row>)
    requires DistinctKeys(picks, ItemKey)
    requires |picks| < 3 ==>
               forall x :: x in window ==> exists i :: 0 <= i < |picks| && ItemKey(picks[i]) == ItemKey(x)
    ensures forall i, j :: 0 <= i < j < |picks| ==> picks[i].item != picks[j].item
    ensures |picks| < 3 ==>
              forall x :: x in window ==> exists i :: 0 <= i < |picks| && picks[i].item == x.item
  {
    forall i, j | 0 <= i < j < |picks|
      ensures picks[i].item != picks[j].item
    {
      assert ItemKey(picks[i]) != ItemKey(picks[j]);
    }
    if |picks| < 3 {
      forall x | x in window
        ensures exists i :: 0 <= i < |picks| && picks[i].item == x.item
      {
        var i :| 0 <= i < |picks| && ItemKey(picks[i]) == ItemKey(x);
        assert picks[i].item == x.item;
      }
    }
  }

  /** The first-occurrence order of `FirstDistinct`, stated on item names. */
  lemma PicksInOrder(window: seq<Row>, picks: seq<Row>)
    requires forall i, j :: 0 <= i < j < |picks| ==>
               KeyIndex(window, ItemKey, ItemKey(picks[i])) < KeyIndex(window, ItemKey, ItemKey(picks[j]))
    ensures forall i, j :: 0 <= i < j < |picks| ==>
              KeyIndex(window, ItemKey, picks[i].item) < KeyIndex(window, ItemKey, picks[j].item)
  {
    forall i, j | 0 <= i < j < |picks|
      ensures KeyIndex(window, ItemKey, picks[i].item) < KeyIndex(window, ItemKey, picks[j].item)
    {
      assert ItemKey(picks[i]) == picks[i].item && ItemKey(picks[j]) == picks[j].item;
    }
  }

  /** The no-skipped-name fact of `FirstDistinct`, stated on item names. */
  lemma PicksNoneSkipped(window: seq<Row>, picks: seq<Row>)
    requires |picks| > 0 ==>
               forall x :: x in window
                           && KeyIndex(window, ItemKey, ItemKey(x))
                              <= KeyIndex(window, ItemKey, ItemKey(picks[|picks| - 1]))
                           ==> exists i :: 0 <= i < |picks| && ItemKey(picks[i]) == ItemKey(x)
    ensures |picks| > 0 ==>
              forall x :: x in window
                          && KeyIndex(window, ItemKey, x.item)
                             <= KeyIndex(window, ItemKey, picks[|picks| - 1].item)
                          ==> exists i :: 0 <= i < |picks| && picks[i].item == x.item
  {
    if |picks| > 0 {
      forall x | x in window
                 && KeyIndex(window, ItemKey, x.item)
                    <= KeyIndex(window, ItemKey, picks[|picks| - 1].item)
        ensures exists i :: 0 <= i < |picks| && picks[i].item == x.item
      {
        assert ItemKey(x) == x.item && ItemKey(picks[|picks| - 1]) == picks[|picks| - 1].item;
        var i :| 0 <= i < |picks| && ItemKey(picks[i]) == ItemKey(x);
        assert picks[i].item == x.item;
      }
    }
  }

  /** The seen-set loop of lines 201-208 computes `UniquePicks`. */
  method UniquePicksLoop(recs: seq<Row>) returns (picks: seq<Row>)
    ensures picks == UniquePicks(recs)
  {
    picks := FirstDistinctLoop(Take(recs, 9), ItemKey, 3);
  }

  /** What the section shows. */
  datatype PlanResult =
    | NoTransition                                       // the category is not in the table
    | Picks(rows: seq<Row>)                              // lines 200-211
    | Nearby(alternatives: Result<seq<Row>, FallbackError>)  // lines 212-236

  /** Lines 165-236. `area` is the search area of line 175, which is passed on
      as chosen (including "Same"); `knn` is the nearest-neighbour index. */
  function Plan(catalog: seq<Row>, category: string, area: string, diet: Diet,
                knn: Row -> seq<Row>): (r: PlanResult)
    ensures r.NoTransition? <==> category !in TableCategories
    ensures r.Picks? ==> 1 <= |r.rows| <= 3
    ensures r.Picks? ==> forall i, j :: 0 <= i < j < |r.rows| ==> r.rows[i].item != r.rows[j].item
    ensures r.Picks? ==> forall x :: x in r.rows ==>
              x in catalog && x.category in NextTypes(category).value && DietOk(diet, x)
    ensures r.Picks? ==> forall x :: x in r.rows ==>
              x in Recommendations(catalog, area, NextTypes(category).value, diet)
    ensures r.Picks? ==> r.rows == UniquePicks(Recommendations(catalog, area, NextTypes(category).value, diet))
    ensures category in TableCategories ==>
              (r.Nearby? <==> |Recommendations(catalog, area, NextTypes(category).value, diet)| == 0)
    ensures r.Nearby? ==> (category in TableCategories
              && |Recommendations(catalog, area, NextTypes(category).value, diet)| == 0
              && r.alternatives == Alternatives(catalog, category, diet, knn, 3))
  {
    match NextTypes(category)
    case None => NoTransition
    case Some(types) =>
      var recs := Recommendations(catalog, area, types, diet);
      if |recs| > 0 then
        var picks := UniquePicks(recs);
        PicksFromRecommendations(recs, picks);
        Picks(picks)
      else Nearby(Alternatives(catalog, category, diet, knn, 3))
  }

  lemma PicksFromRecommendations(recs: seq<Row>, picks: seq<Row>)
    requires IsSubseq(picks, Take(recs, 9))
    ensures forall x :: x in picks ==> x in recs
  {
    SubseqMembers(picks, Take(recs, 9));
    assert forall x :: x in Take(recs, 9) ==> x in recs;
  }

  /** With no diet restriction the section falls back to similar items
      exactly when none of the following categories has a row anywhere. */
  lemma {:induction false} PlanFallsBack(catalog: seq<Row>, category: string, area: string, knn: Row -> seq<Row>)
    requires category in TableCategories
    ensures Plan(catalog, category, area, Both, knn).Nearby? <==>
            forall x :: x in catalog ==> x.category !in NextTypes(category).value
  {
    RecommendationsNonEmpty(catalog, area, NextTypes(category).value);
  }

  /** The nine-row window of line 203 never cuts anything: at most three
      categories follow any category and each adds at most three rows. */
  lemma WindowKeepsAll(catalog: seq<Row>, category: string, area: string, diet: Diet)
    requires category in TableCategories
    ensures var recs := Recommendations(catalog, area, NextTypes(category).value, diet);
            Take(recs, 9) == recs
  {
  }

  /** With no diet restriction, when every following category has a row in
      the area, every recommendation lies in the area. */
  lemma {:induction false} RecommendationsLocal(catalog: seq<Row>, area: string, categories: seq<string>)
    requires forall c :: c in categories ==>
               exists x :: x in catalog && x.category == c && x.area == area
    ensures forall x :: x in Recommendations(catalog, area, categories, Both) ==> x.area == area
    decreases |categories|
  {
    if |categories| > 0 {
      var init := categories[..|categories| - 1];
      var last := categories[|categories| - 1];
      assert categories == init + [last];
      assert forall c :: c in init ==> c in categories;
      RecommendationsLocal(catalog, area, init);
      assert last in categories;
      ContributionLocal(catalog, area, last);
    }
  }

  /** The section with its area resolved the way line 91 resolves it for the
      search: "Same" stands for the home area. */
  function PlanResolved(catalog: seq<Row>, category: string, homeArea: string, newArea: string,
                        diet: Diet, knn: Row -> seq<Row>): (r: PlanResult)
    ensures r.NoTransition? <==> category !in TableCategories
    ensures r.Picks? ==> forall x :: x in r.rows ==>
              x in catalog && x.category in NextTypes(category).value && DietOk(diet, x)
  {
    Plan(catalog, category, SearchArea(homeArea, newArea), diet, knn)
  }

  /** With no diet restriction and a row of every following category in the
      area, the section picks rows of that area only. */
  lemma {:induction false} PlanLocal(catalog: seq<Row>, category: string, area: string, knn: Row -> seq<Row>)
    requires category in TableCategories
    requires forall c :: c in NextTypes(category).value ==>
               exists x :: x in catalog && x.category == c && x.area == area
    ensures var r := Plan(catalog, category, area, Both, knn);
            r.Picks? && forall x :: x in r.rows ==> x.area == area
  {
    var types := NextTypes(category).value;
    RecommendationsNonEmpty(catalog, area, types);
    assert types[0] in types;
    RecommendationsLocal(catalog, area, types);
  }

  /** The corrected section keeps to the home area when "Same" is chosen and
      the home area has a row of every following category. */
  lemma {:induction false} ResolvedPicksLocal(catalog: seq<Row>, category: string, homeArea: string, newArea: string,
                           knn: Row -> seq<Row>)
    requires category in TableCategories
    requires forall c :: c in NextTypes(category).value ==>
               exists x :: x in catalog && x.category == c && x.area == SearchArea(homeArea, newArea)
    ensures var r := PlanResolved(catalog, category, homeArea, newArea, Both, knn);
            r.Picks? && forall x :: x in r.rows ==> x.area == SearchArea(homeArea, newArea)
  {
    PlanLocal(catalog, category, SearchArea(homeArea, newArea), knn);
  }

  /** With no row in the area, every recommendation is among the catalog-wide
      best rows of its own category. */
  lemma {:induction false} RecommendationsGlobal(catalog: seq<Row>, area: string, categories: seq<string>, diet: Diet)
    requires forall x :: x in catalog ==> x.area != area
    ensures forall x :: x in Recommendations(catalog, area, categories, diet) ==>
              x in BestThree(CategoryRows(catalog, x.category), diet)
    decreases |categories|
  {
    if |categories| > 0 {
      var init := categories[..|categories| - 1];
      var last := categories[|categories| - 1];
      assert categories == init + [last];
      RecommendationsGlobal(catalog, area, init, diet);
      UnknownAreaGlobal(catalog, area, last, diet);
    }
  }

  /** As written, line 175 hands the area selector's value to this section
      unresolved, so choosing "Same" (no row lies in an area of that name)
      makes every pick one of the catalog-wide best rows of its category,
      wherever the home area is. */
  lemma {:induction false} SamePicksGlobal(catalog: seq<Row>, category: string, diet: Diet, knn: Row -> seq<Row>)
    requires forall x :: x in catalog ==> x.area != "Same"
    ensures var r := Plan(catalog, category, "Same", diet, knn);
            r.Picks? ==> forall x :: x in r.rows ==>
              x in BestThree(CategoryRows(catalog, x.category), diet)
  {
    if category in TableCategories {
      RecommendationsGlobal(catalog, "Same", NextTypes(category).value, diet);
    }
  }
}
