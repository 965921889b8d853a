# Sha's Foodans — a Dafny model of the recommendation core

Sha's Foodans (`foodans.py`) is a one-page Streamlit app that recommends
food in Madurai from a catalog of menu rows. Each row has an area, a
category (`Type`), a diet tag (`Food_Type`), a vendor (`Name`), an item, a
price, an average rating and a total order count. The app computes a
desirability score for every row. It then serves five sections from the
catalog:

- the five best vendors of an area;
- a strict search by area, category, price band, rating band and diet;
- the best seller of the searched vendor;
- a "what's next" planner driven by a fixed category-transition table;
- vendor summaries for an area, and a close-up of one vendor.

This project models those sections as pure functions over an immutable
catalog (`seq<Row>`) and proves what each one returns.

Modules, in dependency order:

- `wrappers.dfy` — `Option` and `Result`.
- `seqs.dfy` — order-preserving filtering, subsequences, first occurrence
  per key (pandas `unique()` and the planner's seen-set loop), and
  distinctness.
- `ranking.dfy` — a descending sort and `TopK`, the model of
  `sort_values(ascending=False).head(k)`.
- `text.dfy` — digit strings, splitting at a separator, and the decimal
  parsing behind `map(int, …)` and `map(float, …)`.
- `catalog.dfy` — rows, diets, the selections every section uses, and the
  score.
- `bands.dfy` — the price and rating choices and the bands they parse to.
- `search.dfy` — "Find My Food!" and "More for You!".
- `topvendors.dfy` — "Show Top Foods!".
- `planner.dfy` — "What's Next?".
- `vendors.dfy` — "Know Your Vendors!" and the vendor close-up.

Two things the app takes from outside become parameters:

- The nearest-neighbour index is a parameter `knn: Row -> seq<Row>`: the
  rows it returns for an anchor row, nearest first.
- Widget choices (area, category, bands, diet) are arguments.

The score is a field of `Row`. `Catalog.WithScores` fills it in from line
12's formula.

## Model

| member | source | states |
|---|---|---|
| Catalog.ParseDiet | foodans.py:44 | the diet choice is Veg exactly for "Veg", NonVeg exactly for "Non-Veg", and no restriction otherwise |
| Catalog.DietFilter | foodans.py:52-55 | keeps exactly the rows the diet admits, every copy of each, in catalog order; with no restriction it keeps everything |
| Catalog.MaxOrders | foodans.py:12 | the largest order count: it bounds every row's orders and is reached by a row when there is one |
| Catalog.WithScores | foodans.py:12 | every row keeps its data; its score is 0.6·rating + 0.4·orders/max and lies between 0.6·rating and 0.6·rating + 0.4 |
| Catalog.PopularityTermBounds | foodans.py:12 | the popularity term lies in [0, 0.4], so the score exceeds 0.6·rating by at most 0.4 |
| Catalog.ScoreNonNegative | foodans.py:12 | a non-negative rating gives a non-negative score |
| Catalog.ScoreMonotonic | foodans.py:12 | the score never drops when the rating or the order count grows |
| Bands.ParsePriceBand | foodans.py:87-90 | "Any Price" is [0, ∞); a choice without '-' is [151, ∞); a choice with '-' that parses gives a bounded band |
| Bands.ParseRatingBand | foodans.py:92-96 | "4.5 and above" is [4.5, ∞); any other choice that parses gives a bounded band |
| Bands.PriceLabelRoundTrip | foodans.py:90 | printing two naturals as "a-b" and parsing the result gives back the inclusive band [a, b] |
| Bands.RatingLabelRoundTrip | foodans.py:96 | printing two tenths as "x.y-z.w" and parsing the result gives back the band of those tenths |
| Bands.ParseRatingPair | foodans.py:96 | two '-'-free decimal literals joined by '-' never equal "4.5 and above" and parse to the band from the first value to the second |
| Bands.PriceOptionsParse | foodans.py:71 | each of the five offered price choices parses to its band, and every band has lo ≤ hi |
| Bands.RatingOptionsParse | foodans.py:73 | each of the four offered rating choices parses to its band, and every band has lo ≤ hi |
| Text.ParseNatToString | foodans.py:90 | `int()` of the decimal printing of a natural gives back the natural |
| Text.ParseNat | foodans.py:90 | `int()` succeeds exactly on a non-empty string of decimal digits |
| Text.Split | foodans.py:90-96 | `split(sep)` gives at least one piece, no piece holds the separator, and joining the pieces with it gives the string back |
| Text.ParseDecimal | foodans.py:96 | `float()` of a non-empty digit string is its integer value, and every value it gives is non-negative |
| Text.ParseDecimalAccepts | foodans.py:96 | a literal `float()` accepts consists of digits and at most one '.', with at least one digit |
| Text.SplitJoin | foodans.py:90 | splitting the join of separator-free parts gives back exactly those parts |
| Text.ParseTenths | foodans.py:96 | `float()` of a one-decimal printing gives back its value in tenths |
| Seqs.Filter | foodans.py:50 | a boolean mask keeps exactly the rows that satisfy it, each as many times as it occurs, in their original order |
| Seqs.KeyIndex | foodans.py:128 | the position of the first element with the given key, or the length when there is none: every earlier element has another key |
| Seqs.FirstByKey | foodans.py:128 | keeps one element per key, the first of each, ordered by where each key first appears, and covers every key |
| Seqs.FirstDistinct | foodans.py:200-208 | at most n elements with pairwise distinct keys, each the first of its key, ordered by first appearance; no key appearing before the last kept one is skipped, so they are the FIRST n distinct keys; when fewer than n come back, every key of the input is among them |
| Seqs.FirstDistinctLoop | foodans.py:201-208 | the seen-set loop with its early stop returns exactly `FirstDistinct` |
| Ranking.SortDesc | foodans.py:56 | a permutation of the input in non-increasing key order |
| Ranking.TopK | foodans.py:56 | min(k, n) elements taken from the input, sorted; no element left behind has a larger key than one kept; the head is a maximum |
| Ranking.TopKRank | foodans.py:56 | an element is kept only when fewer than k elements have a strictly larger key, and it is kept whenever at most k elements (itself included) have a key at least as large |
| Search.BuildQuery | foodans.py:87-96 | a query exists exactly when both band choices parse, and then carries exactly those bands; "Same" resolves to the home area, any other area is used as given |
| Search.SearchRows | foodans.py:97-104 | exactly the catalog rows in the search area and category, inside both inclusive bands and admitted by the diet, in catalog order |
| Search.VendorNames | foodans.py:128 | each vendor of the result once, ordered by where each first appears; every vendor of the result appears; nothing else |
| Search.VendorTop | foodans.py:130 | a vendor's rows by descending score, as many as asked or all of them, with no better row of the vendor left out |
| Search.VendorsHaveRows | foodans.py:128-130 | every vendor drawn from the rows has a row, so its list of the best n rows is never empty for positive n |
| Search.VendorGroups | foodans.py:128-133 | one non-empty group of at most four rows per vendor of the result, in the order the vendors first appear, each holding that vendor's best-scored rows |
| Search.TopItem | foodans.py:136 | a row of the result with a score no other row exceeds |
| Search.Anchor | foodans.py:137 | the first row of the result with the top item's name |
| Search.SimilarPostFilter | foodans.py:117-122 | the first k neighbours; under Veg or Non-Veg, exactly those of the diet and the searched category, every copy kept, in neighbour order |
| Search.FallbackAnchor | foodans.py:108-115 | fails with CategoryNotFound exactly when the category has no row, and with NoAnchor exactly when none of its rows fits the diet; otherwise it is the first fitting row of the category |
| Search.Alternatives | foodans.py:214-230 | fails exactly when the anchor lookup does, with the same error (no row of the category, or no row of it under the diet); otherwise the post-filtered first k neighbours of that anchor |
| Search.FindMyFood | foodans.py:97-148 | finds something exactly when a catalog row matches; then the vendor groups, a best-scored matching top item, the first matching row with the top item's name as anchor and its three filtered neighbours; otherwise the two-neighbour fallback |
| Search.TopSeller | foodans.py:155-160 | none exactly when the vendor has no row of the category and diet; otherwise such a row with the most orders |
| Search.SellerRows | foodans.py:156-160 | exactly the catalog rows of the vendor and category that the diet admits |
| Search.TopSellerAfterFind | foodans.py:151-160 | after a successful search the top item's vendor always has a best seller, so `iloc[0]` never fails |
| TopVendors.AreaRows | foodans.py:50-55 | exactly the rows of the area that the diet admits, every copy of each, in catalog order |
| TopVendors.VendorCountPositive | foodans.py:56 | a vendor's row count is positive exactly when it has a row |
| TopVendors.MeanScoreBounds | foodans.py:56 | a vendor's mean score lies between the lowest and highest score of its rows |
| TopVendors.VendorRanking | foodans.py:56 | min(5, vendors) distinct vendors of the rows by non-increasing mean score; no vendor left out has a better mean than one kept |
| TopVendors.TopVendors | foodans.py:50-59 | one pick per ranked vendor, in ranking order, each with its three best-scored rows and never empty |
| Planner.NextTypes | foodans.py:168-174 | a transition exists exactly for the five table categories; each has two or three successors and none is the category itself |
| Planner.LocalPool | foodans.py:182 | exactly the catalog rows of the category in the search area |
| Planner.BestThree | foodans.py:182-187 | the diet-admitted rows of the pool's top three by score, every copy kept, in the top three's order (head(3) before the diet block); at most three rows, a sub-multiset of the pool; with no restriction, min(3, pool) rows and no row left behind scores higher |
| Planner.BestThreeRank | foodans.py:182-187 | the best three are taken before the diet filter: a kept row has fewer than three rows of the whole pool scoring above it, and an admitted row with at most three rows of the pool scoring at least as high is kept |
| Planner.Contribution | foodans.py:182-198 | the area's best three under the diet when that is non-empty, and the category's catalog-wide best three under the diet otherwise; at most three rows of the category and diet |
| Planner.ContributionLocal | foodans.py:182-189 | with no restriction and a row of the category in the area, the contribution is the area's best min(3, pool) rows |
| Planner.ContributionNonEmpty | foodans.py:188-198 | with no restriction a category contributes exactly when it has a row anywhere |
| Planner.Recommendations | foodans.py:179-198 | at most three rows per following category, each of a following category and of the diet, drawn from the catalog |
| Planner.RecommendationsAppend | foodans.py:179-198 | the recommendations are the categories' contributions concatenated in table order: those of a + b are those of a followed by those of b, and one category gives its contribution |
| Planner.RecommendationsPerCategory | foodans.py:182-198 | a category contributes at most three rows each time it is listed |
| Planner.RecommendationsNonEmpty | foodans.py:200 | with no restriction there are recommendations exactly when a following category has a row somewhere |
| Planner.UniquePicks | foodans.py:200-208 | at most three rows with distinct item names from the first nine recommendations, each the first of its name; when fewer than three come back, every name of the window is among them |
| Planner.UniquePicksInOrder | foodans.py:201-208 | the picks come in the order their names first appear in the first nine recommendations |
| Planner.UniquePicksNoneSkipped | foodans.py:201-208 | no name appearing before the last pick's name is skipped: the picks are the first distinct names of the window |
| Planner.UniquePicksLoop | foodans.py:201-208 | the loop over the first nine recommendations returns exactly `UniquePicks` |
| Planner.WindowKeepsAll | foodans.py:203 | the recommendations never exceed nine rows, so the `[:9]` cap keeps all of them |
| Planner.Plan | foodans.py:165-236 | no transition exactly off the table; otherwise the unique picks of the recommendations, one to three rows with distinct items of the following categories and diet; or, exactly when there is nothing to recommend, the three-neighbour fallback |
| Planner.PlanFallsBack | foodans.py:200-213 | with no restriction the section falls back exactly when no catalog row has a following category |
| Planner.RecommendationsLocal | foodans.py:182-189 | with no restriction and a row of every following category in the area, every recommendation lies in the area |
| Planner.PlanLocal | foodans.py:175-208 | under the same condition the section picks rows of the area only |
| Planner.UnknownAreaGlobal | foodans.py:175-198 | with no row in the area every contribution is the category's catalog-wide best three |
| Planner.SamePicksGlobal | foodans.py:175 | with "Same" passed through, every pick is among the catalog-wide best three of its category |
| Planner.PlanResolved | foodans.py:91 | the section with "Same" resolved to the home area: no transition exactly off the table, picks of the following categories and diet |
| Planner.ResolvedPicksLocal | foodans.py:91 | with "Same" resolved, the picks stay in the home area whenever it has a row of every following category |
| Vendors.MeanRatingBounds | foodans.py:255 | a mean rating lies between the lowest and highest rating averaged |
| Vendors.Summarize | foodans.py:254-258 | the vendor's total orders and mean rating over its rows; min(5, rows) of its rows by descending orders, a sub-multiset of them, with no row left behind ordered more than a kept one; the headline is the first of them and has the most orders |
| Vendors.SummaryRatingBounds | foodans.py:255 | the summary's average rating lies between the vendor's lowest and highest rating |
| Vendors.AreaVendors | foodans.py:245-268 | one summary per vendor of the area's rows, in the order vendors first appear, plus the area's five most ordered rows |
| Vendors.AreaSummaryTotals | foodans.py:252-256 | each area summary shows the total orders of its vendor's rows |
| Vendors.TotalOfSummaries | foodans.py:252-256 | summaries showing the listed vendors' totals add up to the per-vendor totals |
| Vendors.OrdersPartition | foodans.py:252-256 | over distinct vendors covering every row, the vendors' order totals add up to the rows' order total |
| Vendors.AreaOrdersAddUp | foodans.py:252-256 | the order totals the area's vendor summaries show add up to the area's total orders |
| Vendors.CloseUp | foodans.py:272-283 | none exactly when the vendor has no row; otherwise its order total and mean rating over all its rows, and the min(7, shown) most ordered of the rows `DisplayRows` shows, most ordered first, a sub-multiset of them, with no row left behind ordered more and the head a maximum |
| Vendors.CloseUpListed | foodans.py:281-283 | the close-up lists at least one row, each one of the vendor's, all of the searched category when the vendor sells it |
| Vendors.DisplayRows | foodans.py:282 | the vendor's rows of the searched category, every copy kept, when it sells that category; all its rows otherwise |
| Vendors.CloseUpShown | foodans.py:282-283 | the rows the close-up draws from are never empty, all belong to the vendor, and keep to the searched category when the vendor sells it |

## Left out

- The Streamlit page is not modelled: widgets, markdown, images, buttons, `st.error` and `st.success` messages, and the clock at line 25. Widget choices are arguments instead.
- Loading the CSV and `dropna` (lines 8-9) are not modelled. The catalog is given as complete rows.
- The nearest-neighbour search (lines 14-17) is foreign code. It becomes the parameter `knn`.
- Lines 115-116 and 137-138 look up an index label by position (`iloc` of a label); lines 221-223 use `loc` correctly. The model passes the anchor row itself to `knn`, that is, it models the lookup lines 221-223 perform.
- Floating point is modelled as exact reals. `:.1f` formatting is left out, and so is the order of rows with equal keys (pandas' default sort is not stable).
- The debug prints (lines 20-21), the emoji and area strings of the close-up (lines 275-280), the deep dive with plotly charts (lines 290-320), the rating form and the dashboard link are left out. They display data but compute nothing.
- Catalog.Score: requires a positive maximum order count. Line 12 divides by the maximum without a zero guard, so an all-zero catalog gives NaN scores in pandas; the model leaves that case out.
- Search.SearchRows: keeps catalog order, because lines 97-104 filter without sorting; only the per-vendor lists (line 130) and the top item (line 136) are ordered by score.
- Vendors.Summarize: requires the vendor to have a row. At line 253 every vendor comes from the rows themselves.
- Seqs.FirstDistinctLoop: returns straight away when at most zero picks are wanted. The script always asks for three.
- Text.ParseNat: accepts only plain digit strings. Python's `int()` also accepts surrounding whitespace, a sign and underscores between digits; no offered price choice uses those forms.
- Text.ParseDecimal: accepts only digits or digits.digits. Python's `float()` also accepts whitespace, a sign, underscores, exponents and words such as "inf"; no offered rating choice uses those forms.
- Python's `locals()` tests (lines 151, 165, 175, 282) become explicit arguments: `Option` for the close-up's category, and the search result for "More for You!".

## Findings

| source | as written | input that shows it | evidently intended | confidence | as-written member | corrected member |
|---|---|---|---|---|---|---|
| foodans.py:175 | the planner uses the area selector's raw value as its area. `new_area` always exists (lines 80-84 run on every rerun), so its default "Same" is passed through unresolved | leave "same area or new?" at "Same" with home area X. The planner's area "Same" matches no row, so every category falls back to its catalog-wide best three, even when X has rows of that category | resolve "Same" to the home area, as line 91 does for the search | high, not executed | Planner.SamePicksGlobal | Planner.ResolvedPicksLocal |
