/**
 * The fallback chooser (`choose_best_price`): when no rate control yields a price, one
 * of the amounts found on the page is picked, nearest to the last known price, else
 * nearest to the expected price, else the largest.
 */
module PriceChooser {
  import opened Wrappers
  import opened AmountSets

  /** `abs(x - anchor)`. */
  function Distance(x: real, anchor: real): (d: real)
    ensures d >= 0.0 && (d == x - anchor || d == anchor - x)
  {
    if x >= anchor then x - anchor else anchor - x
  }

  /**
   * The index `min(xs, key=lambda x: abs(x - anchor))` picks: Python's `min` scans left to
   * right and replaces its pick only on a strictly smaller key, so ties go to the earliest.
   */
  function NearestIndex(xs: seq<real>, anchor: real): (k: nat)
    requires xs != []
    ensures k < |xs|
    ensures forall j | 0 <= j < |xs| :: Distance(xs[k], anchor) <= Distance(xs[j], anchor)
    ensures forall j | 0 <= j < k :: Distance(xs[j], anchor) > Distance(xs[k], anchor)
  {
    if |xs| == 1 then 0
    else
      var k := NearestIndex(xs[..|xs| - 1], anchor);
      if Distance(xs[|xs| - 1], anchor) < Distance(xs[k], anchor) then |xs| - 1 else k
  }

  /** `v` is the earliest element of `xs` among those nearest to `anchor`. */
  ghost predicate IsFirstNearest(xs: seq<real>, anchor: real, v: real) {
    exists k | 0 <= k < |xs| ::
      && xs[k] == v
      && (forall j | 0 <= j < |xs| :: Distance(v, anchor) <= Distance(xs[j], anchor))
      && (forall j | 0 <= j < k :: Distance(xs[j], anchor) > Distance(v, anchor))
  }

  /** `choose_best_price(amounts, last_price, expected)`. */
  function ChooseBestPrice(amounts: seq<real>, lastPrice: Option<real>, expected: Option<real>): (r: Option<real>)
    ensures r.None? <==> amounts == []
    ensures r.Some? ==> r.value in amounts
    ensures r.Some? && lastPrice.Some? ==> IsFirstNearest(amounts, lastPrice.value, r.value)
    ensures r.Some? && lastPrice.None? && expected.Some? ==> IsFirstNearest(amounts, expected.value, r.value)
    ensures r.Some? && lastPrice.None? && expected.None? ==> forall x | x in amounts :: x <= r.value
  {
    if amounts == [] then None
    else if lastPrice.Some? then Some(amounts[NearestIndex(amounts, lastPrice.value)])
    else if expected.Some? then Some(amounts[NearestIndex(amounts, expected.value)])
    else Some(Max(amounts))
  }

  /** The earliest nearest element is unique: the rule leaves no choice open. */
  lemma FirstNearestUnique(xs: seq<real>, anchor: real, v: real, w: real)
    requires IsFirstNearest(xs, anchor, v) && IsFirstNearest(xs, anchor, w)
    ensures v == w
  {
    var k :| 0 <= k < |xs| && xs[k] == v
      && (forall j | 0 <= j < |xs| :: Distance(v, anchor) <= Distance(xs[j], anchor))
      && (forall j | 0 <= j < k :: Distance(xs[j], anchor) > Distance(v, anchor));
    var m :| 0 <= m < |xs| && xs[m] == w
      && (forall j | 0 <= j < |xs| :: Distance(w, anchor) <= Distance(xs[j], anchor))
      && (forall j | 0 <= j < m :: Distance(xs[j], anchor) > Distance(w, anchor));
    assert Distance(v, anchor) == Distance(w, anchor);
    assert !(k < m) && !(m < k);
  }

  /** With a last known price, the expected price plays no part. */
  lemma LastPriceOverridesExpected(amounts: seq<real>, last: real, e1: Option<real>, e2: Option<real>)
    ensures ChooseBestPrice(amounts, Some(last), e1) == ChooseBestPrice(amounts, Some(last), e2)
  {
  }

  /** Nearest to the last price: 95 is chosen from 80, 95 and 130 when the last price was 100. */
  lemma NearestToLastPrice()
    ensures ChooseBestPrice([80.0, 95.0, 130.0], Some(100.0), None) == Some(95.0)
  {
    var r := ChooseBestPrice([80.0, 95.0, 130.0], Some(100.0), None);
    FirstNearestUnique([80.0, 95.0, 130.0], 100.0, r.value, 95.0);
  }

  /** A tie goes to the earlier amount: 95 and 105 are both 5 from 100. */
  lemma TieGoesToEarlier()
    ensures ChooseBestPrice([95.0, 105.0], Some(100.0), Some(105.0)) == Some(95.0)
  {
    var r := ChooseBestPrice([95.0, 105.0], Some(100.0), Some(105.0));
    FirstNearestUnique([95.0, 105.0], 100.0, r.value, 95.0);
  }

  /** Without an anchor the largest amount is chosen. */
  lemma LargestWithoutAnchor()
    ensures ChooseBestPrice([59.99, 120.0, 45.0], None, None) == Some(120.0)
  {
  }
}
