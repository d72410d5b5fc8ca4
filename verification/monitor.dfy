/**
 * One check of one monitored item: the price and amounts a page load produced
 * (`fetch_price`), then the fallback choice, the alert decision and the state update
 * (`run_one_item`).
 */
module Monitor {
  import opened Wrappers
  import opened AmountSets
  import opened AmountScanner
  import opened RateResolver
  import opened PriceChooser

  /**
   * How loading and reading the page went. `Completed`: no exception. `TimedOut`: a
   * Playwright timeout escaped; the page's markup and body text are read again, each
   * `None` when that read failed too. `Failed`: any other exception. `ratesRead` says
   * whether the saver-rate lookup had already run when the exception was raised.
   */
  datatype PageLoad =
    | Completed(page: Page, markup: string, body: string)
    | TimedOut(ratesRead: bool, page: Page, markupRead: Option<string>, bodyRead: Option<string>)
    | Failed(ratesRead: bool, page: Page)

  /** What `fetch_price` returns: the rate-control price, the amounts found, a source tag. */
  datatype Fetched = Fetched(chosen: Option<real>, amounts: seq<real>, source: string)

  function TextOrEmpty(t: Option<string>): string {
    if t.Some? then t.value else ""
  }

  /** `fetch_price(page, url)` with the browser steps abstracted into a `PageLoad`. */
  function FetchPrice(load: PageLoad): (f: Fetched)
    ensures StrictlyAscending(f.amounts)
    ensures load.Completed? ==> forall x :: x in f.amounts <==>
      x in Amounts(load.body) || x in Amounts(load.markup)
    ensures load.TimedOut? ==> forall x :: x in f.amounts <==>
      x in Amounts(TextOrEmpty(load.bodyRead)) || x in Amounts(TextOrEmpty(load.markupRead))
    ensures load.Failed? ==> f.amounts == []
    ensures f.chosen.Some? ==> f.chosen == RatePrice(load.page)
    ensures load.Completed? ==> f.chosen == RatePrice(load.page)
    ensures f.source == "saver_button" <==> load.Completed? && f.chosen.Some?
  {
    match load
    case Completed(page, markup, body) =>
      var chosen := RatePrice(page);
      Fetched(chosen, MergeAmounts(Amounts(body), Amounts(markup)),
              if chosen.Some? then "saver_button" else "none")
    case TimedOut(ratesRead, page, markup, body) =>
      Fetched(if ratesRead then RatePrice(page) else None,
              MergeAmounts(Amounts(TextOrEmpty(body)), Amounts(TextOrEmpty(markup))), "timeout")
    case Failed(ratesRead, page) =>
      Fetched(if ratesRead then RatePrice(page) else None, [], "error")
  }

  /** The merged amounts are the canonical list of every match in the body text and markup. */
  lemma FetchedAmountsCanonical(page: Page, markup: string, body: string)
    ensures FetchPrice(Completed(page, markup, body)).amounts == SortedSet(ScanFrom(body, 0) + ScanFrom(markup, 0))
  {
    MergeOfSortedSets(ScanFrom(body, 0), ScanFrom(markup, 0));
  }

  // ---------------------------------------------------------------------------------
  // The decision of `run_one_item`.

  /** The JSON values a state file can hold. */
  datatype Json = JNull | JBool(b: bool) | JNum(n: real) | JStr(s: string) | JList(items: seq<Json>) | JObject(fields: map<string, Json>)

  type State = map<string, Json>

  const LastPriceKey: string := "last_price_gbp"
  const LastCheckedKey: string := "last_checked_utc"

  /** `state.get("last_price_gbp")`, read as a price. */
  function LastPrice(state: State): (r: Option<real>)
    ensures r.Some? <==> LastPriceKey in state && state[LastPriceKey].JNum?
    ensures r.Some? ==> state[LastPriceKey] == JNum(r.value)
  {
    if LastPriceKey in state && state[LastPriceKey].JNum? then Some(state[LastPriceKey].n) else None
  }

  /** One monitored item: display name, optional expected and target prices, drop threshold. */
  datatype Item = Item(name: Option<string>, expected: Option<real>, target: Option<real>, dropPct: Option<real>)

  datatype Alert =
    | NoPriceDetected(name: string)
    | AtOrBelowTarget(name: string, price: real, target: real)
    | Dropped(name: string, percent: real, lastPrice: real, price: real)

  /** What a check hands back: the price, its source tag, the alerts, and the state to save (`None`: nothing is saved). */
  datatype Outcome = Outcome(chosen: Option<real>, source: string, alerts: seq<Alert>, saved: Option<State>)

  /** `item.get("name") or "unnamed"`. */
  function DisplayName(item: Item): (r: string)
    ensures r != []
    ensures item.name == Some(r) || (r == "unnamed" && (item.name.None? || item.name.value == ""))
  {
    if item.name.Some? && item.name.value != "" then item.name.value else "unnamed"
  }

  /** `float(item.get("drop_pct", default_drop_pct))`. */
  function DropThreshold(item: Item, defaultDropPct: real): (r: real)
    ensures item.dropPct == Some(r) || (item.dropPct.None? && r == defaultDropPct)
  {
    if item.dropPct.Some? then item.dropPct.value else defaultDropPct
  }

  /** The percentage fall from `last` to `price`; negative for a rise. */
  function DropPercent(last: real, price: real): (r: real)
    requires last > 0.0
    ensures r > 0.0 <==> price < last
    ensures r == 0.0 <==> price == last
  {
    (last - price) / last * 100.0
  }

  /** The drop test without division: for a positive last price the two forms agree. */
  lemma DropPercentWithoutDivision(last: real, price: real, threshold: real)
    requires last > 0.0
    ensures DropPercent(last, price) >= threshold <==> (last - price) * 100.0 >= threshold * last
  {
    var q := (last - price) / last;
    assert q * last == last - price;
    assert DropPercent(last, price) * last == (last - price) * 100.0;
    if DropPercent(last, price) >= threshold {
      assert DropPercent(last, price) * last >= threshold * last;
    } else {
      assert DropPercent(last, price) * last < threshold * last;
    }
  }

  /** The state after a check that found `price` at time `ts`. */
  function Stamped(state: State, price: real, ts: string): (r: State)
    ensures LastPrice(r) == Some(price) && LastCheckedKey in r && r[LastCheckedKey] == JStr(ts)
    ensures r.Keys == state.Keys + {LastPriceKey, LastCheckedKey}
    ensures forall k | k in state && k != LastPriceKey && k != LastCheckedKey :: r[k] == state[k]
  {
    state[LastPriceKey := JNum(price)][LastCheckedKey := JStr(ts)]
  }

  /** The decision part of `run_one_item`, as a value. */
  function Decide(fetched: Fetched, item: Item, defaultDropPct: real, state: State, ts: string): (o: Outcome)
    ensures o.saved.Some? <==> o.chosen.Some?
    ensures o.chosen.Some? ==> o.saved == Some(Stamped(state, o.chosen.value, ts))
    ensures o.chosen.None? <==> fetched.chosen.None? && fetched.amounts == []
    ensures o.chosen.None? ==> o.alerts == [NoPriceDetected(DisplayName(item))]
    ensures o.chosen.Some? ==>
      o.alerts == PriceAlerts(DisplayName(item), o.chosen.value, item.target, LastPrice(state), DropThreshold(item, defaultDropPct))
  {
    var name := DisplayName(item);
    var last := LastPrice(state);
    var chosen := if fetched.chosen.Some? then fetched.chosen
                  else ChooseBestPrice(fetched.amounts, last, item.expected);
    var source := if fetched.chosen.None? && chosen.Some? then "fallback" else fetched.source;
    if chosen.None? then
      Outcome(None, source, [NoPriceDetected(name)], None)
    else
      Outcome(chosen, source, PriceAlerts(name, chosen.value, item.target, last, DropThreshold(item, defaultDropPct)),
              Some(Stamped(state, chosen.value, ts)))
  }

  /** The alerts for a check that found `price`: the target alert, then the drop alert. */
  function PriceAlerts(name: string, price: real, target: Option<real>, last: Option<real>, threshold: real): (alerts: seq<Alert>)
    ensures |alerts| <= 2
    ensures forall i | 0 <= i < |alerts| :: !alerts[i].NoPriceDetected?
    ensures |alerts| == 2 ==> alerts[0].AtOrBelowTarget? && alerts[1].Dropped?
    ensures forall i | 0 <= i < |alerts| ::
      && (alerts[i].AtOrBelowTarget? ==> target.Some? && alerts[i] == AtOrBelowTarget(name, price, target.value))
      && (alerts[i].Dropped? ==>
            last.Some? && last.value > 0.0 && alerts[i] == Dropped(name, DropPercent(last.value, price), last.value, price))
  {
    var targetAlerts :=
      if target.Some? && price <= target.value
      then [AtOrBelowTarget(name, price, target.value)] else [];
    var dropAlerts :=
      if last.Some? && last.value > 0.0 && DropPercent(last.value, price) >= threshold
      then [Dropped(name, DropPercent(last.value, price), last.value, price)] else [];
    targetAlerts + dropAlerts
  }

  /**
   * `run_one_item` from the fetched result on: the alerts list is built by appending and the
   * state dictionary is updated in place, then handed back for saving.
   */
  method RunOneItem(fetched: Fetched, item: Item, defaultDropPct: real, state: State, ts: string)
    returns (outcome: Outcome)
    ensures outcome == Decide(fetched, item, defaultDropPct, state, ts)
  {
    var name := DisplayName(item);
    var threshold := DropThreshold(item, defaultDropPct);
    var lastPrice := LastPrice(state);
    var chosen := fetched.chosen;
    var source := fetched.source;

    if chosen.None? {
      chosen := ChooseBestPrice(fetched.amounts, lastPrice, item.expected);
      if chosen.Some? {
        source := "fallback";
      }
    }

    var alerts: seq<Alert> := [];

    if chosen.None? {
      alerts := alerts + [NoPriceDetected(name)];
      return Outcome(chosen, source, alerts, None);
    }

    var price := chosen.value;
    if item.target.Some? && price <= item.target.value {
      alerts := alerts + [AtOrBelowTarget(name, price, item.target.value)];
    }

    if lastPrice.Some? && lastPrice.value > 0.0 {
      var dropPct := DropPercent(lastPrice.value, price);
      if dropPct >= threshold {
        alerts := alerts + [Dropped(name, dropPct, lastPrice.value, price)];
      }
    }

    var newState := state;
    newState := newState[LastPriceKey := JNum(price)];
    newState := newState[LastCheckedKey := JStr(ts)];
    return Outcome(chosen, source, alerts, Some(newState));
  }

  // ---------------------------------------------------------------------------------
  // Properties of the decision.

  predicate HasTargetAlert(alerts: seq<Alert>) {
    exists i | 0 <= i < |alerts| :: alerts[i].AtOrBelowTarget?
  }

  predicate HasDropAlert(alerts: seq<Alert>) {
    exists i | 0 <= i < |alerts| :: alerts[i].Dropped?
  }

  /**
   * No price is resolved exactly when neither the rate control nor any amount on the page
   * gives one; then the only alert is "no price detected" and no state is saved, so the
   * stored last price survives the failed check.
   */
  lemma NoPriceLeavesStateAlone(fetched: Fetched, item: Item, defaultDropPct: real, state: State, ts: string)
    ensures var o := Decide(fetched, item, defaultDropPct, state, ts);
      && (o.chosen.None? <==> fetched.chosen.None? && fetched.amounts == [])
      && (o.chosen.None? ==> o.alerts == [NoPriceDetected(DisplayName(item))] && o.saved.None? && o.source == fetched.source)
  {
  }

  /** The rate-control price is kept as it is; otherwise the fallback chooser decides and tags it. */
  lemma ChosenPriceAndSource(fetched: Fetched, item: Item, defaultDropPct: real, state: State, ts: string)
    ensures var o := Decide(fetched, item, defaultDropPct, state, ts);
      && (fetched.chosen.Some? ==> o.chosen == fetched.chosen && o.source == fetched.source)
      && (fetched.chosen.None? ==> o.chosen == ChooseBestPrice(fetched.amounts, LastPrice(state), item.expected))
      && (fetched.chosen.None? && o.chosen.Some? ==> o.source == "fallback")
  {
  }

  /** The target alert fires exactly when the price is at or below the target (inclusive). */
  lemma TargetAlertIff(fetched: Fetched, item: Item, defaultDropPct: real, state: State, ts: string)
    requires Decide(fetched, item, defaultDropPct, state, ts).chosen.Some?
    ensures var o := Decide(fetched, item, defaultDropPct, state, ts);
      HasTargetAlert(o.alerts) <==> item.target.Some? && o.chosen.value <= item.target.value
  {
    var o := Decide(fetched, item, defaultDropPct, state, ts);
    TargetAlertOf(DisplayName(item), o.chosen.value, item.target, LastPrice(state), DropThreshold(item, defaultDropPct));
  }

  lemma TargetAlertOf(name: string, price: real, target: Option<real>, last: Option<real>, threshold: real)
    ensures HasTargetAlert(PriceAlerts(name, price, target, last, threshold)) <==> target.Some? && price <= target.value
  {
    if target.Some? && price <= target.value {
      assert PriceAlerts(name, price, target, last, threshold)[0].AtOrBelowTarget?;
    }
  }

  /**
   * The drop alert fires exactly when there is a positive last price and the fall from it,
   * as a percentage of it, reaches the threshold.
   */
  lemma DropAlertIff(fetched: Fetched, item: Item, defaultDropPct: real, state: State, ts: string)
    requires Decide(fetched, item, defaultDropPct, state, ts).chosen.Some?
    ensures var o := Decide(fetched, item, defaultDropPct, state, ts);
      var last := LastPrice(state);
      HasDropAlert(o.alerts) <==>
        last.Some? && last.value > 0.0 &&
        (last.value - o.chosen.value) * 100.0 >= DropThreshold(item, defaultDropPct) * last.value
  {
    var o := Decide(fetched, item, defaultDropPct, state, ts);
    DropAlertOf(DisplayName(item), o.chosen.value, item.target, LastPrice(state), DropThreshold(item, defaultDropPct));
  }

  lemma DropAlertOf(name: string, price: real, target: Option<real>, last: Option<real>, threshold: real)
    ensures HasDropAlert(PriceAlerts(name, price, target, last, threshold)) <==>
      last.Some? && last.value > 0.0 && (last.value - price) * 100.0 >= threshold * last.value
  {
    var alerts := PriceAlerts(name, price, target, last, threshold);
    if last.Some? && last.value > 0.0 {
      DropPercentWithoutDivision(last.value, price, threshold);
      if DropPercent(last.value, price) >= threshold {
        assert alerts[|alerts| - 1].Dropped?;
      }
    }
  }

  /** With a non-negative threshold, a price that rose never raises a drop alert. */
  lemma RiseNeverAlertsDrop(fetched: Fetched, item: Item, defaultDropPct: real, state: State, ts: string)
    requires DropThreshold(item, defaultDropPct) >= 0.0
    requires LastPrice(state).Some?
    requires Decide(fetched, item, defaultDropPct, state, ts).chosen.Some?
    requires Decide(fetched, item, defaultDropPct, state, ts).chosen.value > LastPrice(state).value
    ensures !HasDropAlert(Decide(fetched, item, defaultDropPct, state, ts).alerts)
  {
    DropAlertIff(fetched, item, defaultDropPct, state, ts);
  }

  /** At most the two alerts, the target alert before the drop alert. */
  lemma AlertOrder(fetched: Fetched, item: Item, defaultDropPct: real, state: State, ts: string)
    requires Decide(fetched, item, defaultDropPct, state, ts).chosen.Some?
    ensures var o := Decide(fetched, item, defaultDropPct, state, ts);
      && |o.alerts| <= 2
      && (forall i | 0 <= i < |o.alerts| :: !o.alerts[i].NoPriceDetected?)
      && (|o.alerts| == 2 ==> o.alerts[0].AtOrBelowTarget? && o.alerts[1].Dropped?)
  {
  }

  /**
   * A check that found a price saves the state with that price as the last price and the
   * check's time as the last-checked time; every other key is kept as it was.
   */
  lemma StateUpdate(fetched: Fetched, item: Item, defaultDropPct: real, state: State, ts: string)
    requires Decide(fetched, item, defaultDropPct, state, ts).chosen.Some?
    ensures var o := Decide(fetched, item, defaultDropPct, state, ts);
      && o.saved.Some?
      && LastPrice(o.saved.value) == o.chosen
      && o.saved.value[LastCheckedKey] == JStr(ts)
      && o.saved.value.Keys == state.Keys + {LastPriceKey, LastCheckedKey}
      && forall k | k in state && k != LastPriceKey && k != LastCheckedKey :: o.saved.value[k] == state[k]
  {
  }

  /** A rate-control price on a fully loaded page is the check's price, and no fallback is used. */
  lemma RatePriceWins(page: Page, markup: string, body: string, item: Item, defaultDropPct: real, state: State, ts: string)
    requires RatePrice(page).Some?
    ensures var o := Decide(FetchPrice(Completed(page, markup, body)), item, defaultDropPct, state, ts);
      o.chosen == RatePrice(page) && o.source == "saver_button"
  {
  }

  // Worked cases.

  const Hotel: Item := Item(Some("hotel"), None, None, None)

  /** A fall from 100 to 92 is 8 percent and reaches a 5 percent threshold. */
  lemma EightPercentDropAlerts()
    ensures Decide(Fetched(Some(92.0), [], "saver_button"), Hotel, 5.0, map[LastPriceKey := JNum(100.0)], "t").alerts
      == [Dropped("hotel", 8.0, 100.0, 92.0)]
  {
  }

  /** A fall from 100 to 96 is 4 percent and stays below a 5 percent threshold. */
  lemma FourPercentDropIsQuiet()
    ensures Decide(Fetched(Some(96.0), [], "saver_button"), Hotel, 5.0, map[LastPriceKey := JNum(100.0)], "t").alerts == []
  {
  }

  /** The target is inclusive: 90 against a target of 90 alerts, 90.01 does not. */
  lemma TargetIsInclusive()
    ensures Decide(Fetched(Some(90.0), [], "saver_button"), Hotel.(target := Some(90.0)), 5.0, map[], "t").alerts
      == [AtOrBelowTarget("hotel", 90.0, 90.0)]
    ensures Decide(Fetched(Some(90.01), [], "saver_button"), Hotel.(target := Some(90.0)), 5.0, map[], "t").alerts == []
  {
  }

  /** A check that finds nothing leaves a stored last price of 50 untouched. */
  lemma UndetectedKeepsLastPrice()
    ensures Decide(Fetched(None, [], "none"), Hotel, 5.0, map[LastPriceKey := JNum(50.0)], "t")
      == Outcome(None, "none", [NoPriceDetected("hotel")], None)
  {
  }
}
