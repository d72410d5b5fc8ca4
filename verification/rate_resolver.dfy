/**
 * The rate-control resolver (`extract_price_from_rate_button`, `find_saver_rate_price`).
 *
 * A page is seen through the selectors the resolver tries, in priority order: for each
 * selector, the first matching rate button, or `None` when no button matches or looking
 * it up raised. A button is seen through the four reads the resolver makes of it, each
 * `None` when the element is missing or the read raised (a timeout, a detached node).
 */
module RateResolver {
  import opened Wrappers
  import opened Text
  import opened AmountSets
  import opened AmountScanner

  datatype Button = Button(
    intSpan: Option<string>,      // inner text of the first `.rate-int` span
    decSpan: Option<string>,      // inner text of the first `.rate-dec` span
    innerText: Option<string>,    // the button's rendered text
    textContent: Option<string>)  // the button's raw `textContent`

  type Page = string -> Option<Button>

  /** The selectors tried, most specific first. */
  const Selectors: seq<string> := [
    "button[data-rate-plan-code=\"SAVER\"].selected",
    "button[data-rate-plan-code=\"SAVER\"][aria-pressed=\"true\"]",
    "button[data-rate-plan-code=\"SAVER\"]",
    "button[data-room-rate-type-name=\"Saver\"]",
    "button[data-ratename=\"Saver rate\"]",
    "button[data-ratename*=\"Saver\" i]"
  ]

  /** `str.isdigit` on ASCII text: non-empty and digits only. */
  predicate IsDigitString(s: string)
    ensures IsDigitString(s) ==> Strip(s) == s
  {
    assert s != [] && AllDigits(s) ==> !IsSpace(s[0]) && !IsSpace(s[|s| - 1]);
    s != [] && AllDigits(s)
  }

  /**
   * The number written `whole.frac` (`float(f"{whole}.{frac}")`), for any count of fraction
   * digits: the integer the digits of `whole` and `frac` spell together, divided by ten to
   * the count of fraction digits. It lies in the unit interval above `whole`.
   */
  function SplitValue(whole: string, frac: string): (v: real)
    requires AllDigits(whole) && AllDigits(frac)
    ensures AllDigits(whole + frac)
    ensures v == DigitsValue(whole + frac) as real / Pow10(|frac|) as real
    ensures DigitsValue(whole) as real <= v < DigitsValue(whole) as real + 1.0
  {
    var w, f, p := DigitsValue(whole), DigitsValue(frac), Pow10(|frac|);
    var v := w as real + f as real / p as real;
    FractionBelowOne(f, p);
    DigitsValueConcat(whole, frac);
    JoinedDigits(v, w, f, p, DigitsValue(whole + frac));
    v
  }

  lemma FractionBelowOne(d: nat, p: nat)
    requires d < p
    ensures 0.0 <= d as real / p as real < 1.0
  {
    var q := d as real / p as real;
    assert q * p as real == d as real;
  }

  /** `w + f / p` is the integer `w * p + f` divided by `p`. */
  lemma JoinedDigits(v: real, w: nat, f: nat, p: nat, n: nat)
    requires p > 0 && v == w as real + f as real / p as real && n == w * p + f
    ensures v == n as real / p as real
  {
    assert (w * p) as real == w as real * p as real;
    assert (w as real * p as real) / p as real == w as real;
  }

  /** Strategy 1: both split spans present and, once stripped, all digits. */
  function SplitPrice(b: Button): (r: Option<real>)
    ensures r.Some? <==>
      b.intSpan.Some? && b.decSpan.Some? &&
      IsDigitString(Strip(b.intSpan.value)) && IsDigitString(Strip(b.decSpan.value))
    ensures r.Some? ==> r.value == SplitValue(Strip(b.intSpan.value), Strip(b.decSpan.value))
  {
    if b.intSpan.Some? && b.decSpan.Some? then
      var whole := Strip(b.intSpan.value);
      var frac := Strip(b.decSpan.value);
      if IsDigitString(whole) && IsDigitString(frac) then Some(SplitValue(whole, frac)) else None
    else
      None
  }

  /** The amounts scanned from a read that may have failed. */
  function ReadAmounts(text: Option<string>): seq<real> {
    if text.Some? then Amounts(text.value) else []
  }

  /**
   * The price a button yields: the split spans first; otherwise the largest amount in its
   * rendered text; otherwise the largest amount in its raw text content; otherwise none.
   */
  function ButtonPrice(b: Button): (r: Option<real>)
    ensures SplitPrice(b).Some? ==> r == SplitPrice(b)
    ensures SplitPrice(b).None? && ReadAmounts(b.innerText) != [] ==>
      r.Some? && r.value in ReadAmounts(b.innerText) &&
      forall x | x in ReadAmounts(b.innerText) :: x <= r.value
    ensures SplitPrice(b).None? && ReadAmounts(b.innerText) == [] && ReadAmounts(b.textContent) != [] ==>
      r.Some? && r.value in ReadAmounts(b.textContent) &&
      forall x | x in ReadAmounts(b.textContent) :: x <= r.value
    ensures r.None? <==>
      SplitPrice(b).None? && ReadAmounts(b.innerText) == [] && ReadAmounts(b.textContent) == []
  {
    var split := SplitPrice(b);
    if split.Some? then split
    else if ReadAmounts(b.innerText) != [] then Some(Max(ReadAmounts(b.innerText)))
    else if ReadAmounts(b.textContent) != [] then Some(Max(ReadAmounts(b.textContent)))
    else None
  }

  /** `extract_price_from_rate_button(btn)`: the three strategies tried in turn. */
  method ExtractPriceFromRateButton(b: Button) returns (price: Option<real>)
    ensures price == ButtonPrice(b)
  {
    // 1) split spans
    if b.intSpan.Some? && b.decSpan.Some? {
      var intPart := Strip(b.intSpan.value);
      var decPart := Strip(b.decSpan.value);
      if IsDigitString(intPart) && IsDigitString(decPart) {
        return Some(SplitValue(intPart, decPart));
      }
    }
    // 2) rendered text
    if b.innerText.Some? {
      var amts := ExtractGbpAmounts(b.innerText);
      if amts != [] {
        return Some(Max(amts));
      }
    }
    // 3) raw text content
    if b.textContent.Some? {
      var amts := ExtractGbpAmounts(b.textContent);
      if amts != [] {
        return Some(Max(amts));
      }
    }
    return None;
  }

  /** What the selector at `k` yields: nothing without a button, else the button's price. */
  function SelectorPrice(page: Page, k: nat): (r: Option<real>)
    requires k < |Selectors|
    ensures r.Some? <==> page(Selectors[k]).Some? && ButtonPrice(page(Selectors[k]).value).Some?
    ensures r.Some? ==> r == ButtonPrice(page(Selectors[k]).value)
  {
    if page(Selectors[k]).Some? then ButtonPrice(page(Selectors[k]).value) else None
  }

  /** The selectors' prices as a function of the selector's position (none past the last). */
  function SelectorPrices(page: Page): nat -> Option<real> {
    (k: nat) => if k < |Selectors| then SelectorPrice(page, k) else None
  }

  /** The first present value among `f(k)`, ..., `f(n - 1)`, if any. */
  function FirstFrom(f: nat -> Option<real>, n: nat, k: nat): Option<real>
    requires k <= n
    decreases n - k
  {
    if k == n then None
    else if f(k).Some? then f(k)
    else FirstFrom(f, n, k + 1)
  }

  /** `FirstFrom` is absent iff every value is, and otherwise the first value present. */
  lemma {:induction false} FirstFromIsFirst(f: nat -> Option<real>, n: nat, k: nat)
    requires k <= n
    ensures FirstFrom(f, n, k).None? <==> forall j | k <= j < n :: f(j).None?
    ensures FirstFrom(f, n, k).Some? ==>
      exists j | k <= j < n :: FirstFrom(f, n, k) == f(j) && forall i | k <= i < j :: f(i).None?
    decreases n - k
  {
    if k < n && f(k).None? {
      FirstFromIsFirst(f, n, k + 1);
    }
  }

  /**
   * The saver-rate price of a page: none exactly when no selector yields one, and
   * otherwise the price of the first selector that does, with no combining of results
   * across selectors.
   */
  function RatePrice(page: Page): (r: Option<real>)
    ensures r.None? <==> forall j | 0 <= j < |Selectors| :: SelectorPrice(page, j).None?
    ensures r.Some? ==>
      exists j | 0 <= j < |Selectors| ::
        r == SelectorPrice(page, j) && forall i | 0 <= i < j :: SelectorPrice(page, i).None?
  {
    var f := SelectorPrices(page);
    FirstFromIsFirst(f, |Selectors|, 0);
    assert forall j | 0 <= j < |Selectors| :: f(j) == SelectorPrice(page, j);
    FirstFrom(f, |Selectors|, 0)
  }

  /** One turn of the selector loop: the first matching button, if any, and its price. */
  method TrySelector(page: Page, k: nat) returns (price: Option<real>)
    requires k < |Selectors|
    ensures price == SelectorPrice(page, k)
  {
    var btn := page(Selectors[k]);
    price := None;
    if btn.Some? {
      price := ExtractPriceFromRateButton(btn.value);
    }
  }

  /** `find_saver_rate_price(page)`: the selectors tried in order, returning at the first price. */
  method FindSaverRatePrice(page: Page) returns (price: Option<real>)
    ensures price == RatePrice(page)
  {
    for k := 0 to |Selectors|
      invariant FirstFrom(SelectorPrices(page), |Selectors|, k) == RatePrice(page)
    {
      var p := TrySelector(page, k);
      if p.Some? {
        return p;
      }
    }
    return None;
  }

  /** Split spans holding digits decide the price, whatever the button's text says. */
  lemma SplitDigitsDecide(b: Button)
    requires b.intSpan.Some? && IsDigitString(b.intSpan.value)
    requires b.decSpan.Some? && IsDigitString(b.decSpan.value)
    ensures ButtonPrice(b) == Some(SplitValue(b.intSpan.value, b.decSpan.value))
  {
  }

  /** The fraction span is only checked for digits, so one digit reads as tenths: `5` as `50`. */
  lemma OneDigitFractionSpan()
    ensures SplitValue("92", "5") == SplitValue("92", "50") == 92.5
  {
    assert "92" + "5" == "925";
    assert "92" + "50" == "9250";
    assert DigitsValue("925") == 925 by {
      assert "925"[..2] == "92" && "92"[..1] == "9";
    }
    assert DigitsValue("9250") == 9250 by {
      assert "9250"[..3] == "925" && "925"[..2] == "92" && "92"[..1] == "9";
    }
    assert Pow10(|"5"|) == 10 && Pow10(|"50"|) == 100;
  }

}
