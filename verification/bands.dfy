/** The price and rating dropdowns of "What's Your Vibe?" turned into
    inclusive ranges (foodans.py lines 71-73 and 87-96). */
module Bands {
  import opened Wrappers
  import opened Text

  /** An inclusive range `[lo, hi]`; `hi == None` is `float('inf')`. */
  datatype Band = Band(lo: real, hi: Option<real>)

  /** `Series.between(lo, hi)`: both ends included. */
  predicate Contains(b: Band, x: real)
  {
    b.lo <= x && (b.hi.None? || x <= b.hi.value)
  }

  /** The lower bound does not exceed the upper bound. */
  predicate WellFormed(b: Band)
  {
    b.hi.None? || b.lo <= b.hi.value
  }

  /** The price options offered at line 71. */
  const PriceOptions: seq<string> := ["0-50", "51-100", "101-150", "151+", "Any Price"]

  /** The rating options offered at line 73. */
  const RatingOptions: seq<string> := ["3.0-3.5", "3.5-4.0", "4.0-4.5", "4.5 and above"]

  /** Lines 87-90: "Any Price" is [0, inf); a choice holding '-' is split there
      and both pieces go through `int` (None models the ValueError raised when
      there are not exactly two integer pieces); any other choice is
      [151, inf). */
  function ParsePriceBand(choice: string): (r: Option<Band>)
    ensures choice == "Any Price" ==> r == Some(Band(0.0, None))
    ensures choice != "Any Price" && '-' !in choice ==> r == Some(Band(151.0, None))
    ensures r.Some? && '-' in choice ==> r.value.hi.Some?
  {
    if choice == "Any Price" then Some(Band(0.0, None))
    else if '-' in choice then
      var parts := Split(choice, '-');
      if |parts| != 2 then None
      else
        match (ParseNat(parts[0]), ParseNat(parts[1]))
        case (Some(a), Some(b)) => Some(Band(a as real, Some(b as real)))
        case _ => None
    else Some(Band(151.0, None))
  }

  /** Lines 92-96: "4.5 and above" is [4.5, inf); any other choice is split at
      '-' and both pieces go through `float` (None models the ValueError). */
  function ParseRatingBand(choice: string): (r: Option<Band>)
    ensures choice == "4.5 and above" ==> r == Some(Band(4.5, None))
    ensures r.Some? && choice != "4.5 and above" ==> r.value.hi.Some?
  {
    if choice == "4.5 and above" then Some(Band(4.5, None))
    else
      var parts := Split(choice, '-');
      if |parts| != 2 then None
      else
        match (ParseDecimal(parts[0]), ParseDecimal(parts[1]))
        case (Some(a), Some(b)) => Some(Band(a, Some(b)))
        case _ => None
  }

  /** The label "a-b" of a price band parses to exactly [a, b]. */
  lemma {:induction false} PriceLabelRoundTrip(a: nat, b: nat)
    ensures ParsePriceBand(NatToString(a) + "-" + NatToString(b))
            == Some(Band(a as real, Some(b as real)))
  {
    var x := NatToString(a);
    var y := NatToString(b);
    var s := x + "-" + y;
    assert '-' !in x && '-' !in y;
    assert s[|x|] == '-';
    SplitPair(x, y, '-');
    ParseNatToString(a);
    ParseNatToString(b);
  }

  /** The label "x.y-z.w" of a rating band, in tenths, parses to exactly
      [x.y, z.w]. */
  lemma RatingLabelRoundTrip(lo: nat, hi: nat)
    ensures ParseRatingBand(TenthsToString(lo) + "-" + TenthsToString(hi))
            == Some(Band(lo as real / 10.0, Some(hi as real / 10.0)))
  {
    var x, y := TenthsToString(lo), TenthsToString(hi);
    var a, b := lo as real / 10.0, hi as real / 10.0;
    TenthsBound(lo);
    TenthsBound(hi);
    ParseRatingPair(x, y, a, b);
    assert ParseRatingBand(x + "-" + y) == Some(Band(a, Some(b)));
  }

  /** A bound written in tenths holds no '-' and parses back to its value. */
  lemma TenthsBound(t: nat)
    ensures '-' !in TenthsToString(t)
    ensures ParseDecimal(TenthsToString(t)) == Some(t as real / 10.0)
  {
    TenthsNoDash(t);
    ParseTenths(t);
  }

  /** Two '-'-free decimal literals joined by '-' parse to the band between
      their values. */
  lemma ParseRatingPair(x: string, y: string, a: real, b: real)
    requires '-' !in x && '-' !in y
    requires ParseDecimal(x) == Some(a) && ParseDecimal(y) == Some(b)
    ensures ParseRatingBand(x + "-" + y) == Some(Band(a, Some(b)))
  {
    DashedNotOpenEnded(x, y);
    SplitPair(x, y, '-');
  }

  lemma TenthsNoDash(t: nat)
    ensures '-' !in TenthsToString(t)
  {
    assert '-' !in NatToString(t / 10);
  }

  /** A label with a '-' is never the open-ended rating choice. */
  lemma DashedNotOpenEnded(x: string, y: string)
    ensures x + "-" + y != "4.5 and above"
  {
    var s := x + "-" + y;
    assert s[|x|] == '-';
    assert '-' !in "4.5 and above";
  }

  /** The bands the price options stand for, position by position. */
  const PriceOptionBands: seq<Band> :=
    [Band(0.0, Some(50.0)), Band(51.0, Some(100.0)), Band(101.0, Some(150.0)),
     Band(151.0, None), Band(0.0, None)]

  /** The bands the rating options stand for, position by position. */
  const RatingOptionBands: seq<Band> :=
    [Band(3.0, Some(3.5)), Band(3.5, Some(4.0)), Band(4.0, Some(4.5)), Band(4.5, None)]

  /** Every offered price option parses to the band its text names, and that
      band is well formed. */
  lemma PriceOptionsParse(i: nat)
    requires i < |PriceOptions|
    ensures ParsePriceBand(PriceOptions[i]) == Some(PriceOptionBands[i])
    ensures WellFormed(PriceOptionBands[i])
  {
    if i == 0 {
      assert NatToString(0) == "0" && NatToString(50) == "50";
      PriceLabel(0, 50, "0-50");
    } else if i == 1 {
      assert NatToString(51) == "51" && NatToString(100) == "100";
      PriceLabel(51, 100, "51-100");
    } else if i == 2 {
      assert NatToString(101) == "101" && NatToString(150) == "150";
      PriceLabel(101, 150, "101-150");
    } else if i == 3 {
      assert '-' !in "151+";
    }
  }

  lemma PriceLabel(a: nat, b: nat, choice: string)
    requires choice == NatToString(a) + "-" + NatToString(b)
    ensures ParsePriceBand(choice) == Some(Band(a as real, Some(b as real)))
  {
    PriceLabelRoundTrip(a, b);
  }

  /** Every offered rating option parses to the band its text names, and that
      band is well formed. */
  lemma RatingOptionsParse(i: nat)
    requires i < |RatingOptions|
    ensures ParseRatingBand(RatingOptions[i]) == Some(RatingOptionBands[i])
    ensures WellFormed(RatingOptionBands[i])
  {
    DigitsLiteral();
    if i == 0 {
      assert TenthsToString(30) == "3.0" && TenthsToString(35) == "3.5";
      RatingLabel(30, 35, "3.0-3.5");
    } else if i == 1 {
      assert TenthsToString(35) == "3.5" && TenthsToString(40) == "4.0";
      RatingLabel(35, 40, "3.5-4.0");
    } else if i == 2 {
      assert TenthsToString(40) == "4.0" && TenthsToString(45) == "4.5";
      RatingLabel(40, 45, "4.0-4.5");
    }
  }

  /** The renderings of the digits the rating labels use. */
  lemma DigitsLiteral()
    ensures NatToString(3) == "3" && NatToString(4) == "4"
    ensures DigitChar(0) == '0' && DigitChar(5) == '5'
  {
  }

  lemma RatingLabel(lo: nat, hi: nat, choice: string)
    requires choice == TenthsToString(lo) + "-" + TenthsToString(hi)
    ensures ParseRatingBand(choice) == Some(Band(lo as real / 10.0, Some(hi as real / 10.0)))
  {
    RatingLabelRoundTrip(lo, hi);
  }

}
