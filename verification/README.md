# Travelodge price monitor: a verified model of its price resolution and alert decision

This project models the decision-making core of `monitor_travelodge.py`, a script that
checks hotel room prices on Travelodge booking pages. For each monitored item it:

- loads the booking page;
- reads the saver-rate price from the page's rate buttons;
- collects every pound amount on the page;
- falls back to the amount nearest the last known (or expected) price when no rate button
  yields one;
- raises "at or below target" and "dropped by N percent" alerts;
- records the price and the check's time in a per-item state map.

The model covers the following pieces, one Dafny module each:

- `AmountScanner`: the pound-amount scanner (`extract_gbp_amounts` with `GBP_RE`). It is a
  left-to-right scanner with `finditer` semantics. At a `£` it skips whitespace, takes one to
  five digits greedily, and takes a `.dd` fraction only when a point and exactly two digits
  follow. The next search starts where the match ended. `ExtractGbpAmounts` is the loop that
  collects the matches. `Amounts` is the function that specifies it.
- `AmountSets`: the canonical amount lists that `sorted({round(v, 2) for v in ...})`
  produces, which are strictly ascending and so sorted and duplicate-free. It also holds the
  merge of text and markup amounts in `fetch_price`, and Python's `max`.
- `KeySanitizer`: the file-key sanitiser `safe_key`. It strips and lower-cases the name,
  turns each run of characters other than `[a-z0-9]` into one `_`, collapses `_` runs, and
  strips `_` from both ends. It then cuts the result to 80 characters and falls back to
  `item` when nothing is left.
  - In the `KeySanitizer` rows below, "letter or digit" always means an ASCII `[a-z0-9]`
    character.
  - The cut comes after the strip, so a key cut at 80 characters can end with `_`. The
    model keeps that behaviour.
  - The name `item` also gives the key `item`. So the "fallback exactly when the name has
    no letter or digit" property is stated about the key before the fallback.
- `RateResolver`: the rate-button resolver (`extract_price_from_rate_button`) and the
  selector loop (`find_saver_rate_price`).
  - A button is seen through its four reads: the `.rate-int` span, the `.rate-dec` span,
    the rendered text and the raw `textContent`. Each read is `None` when the element is
    missing or the read raised.
  - A page is seen through the first button that each of the six selectors finds.
- `PriceChooser`: the fallback chooser (`choose_best_price`). Python's `min` with a key
  keeps the earliest element among equally near ones, so ties go to the earlier amount.
- `Monitor`: covers two functions.
  - `fetch_price`: its three outcomes (completed, timed out, failed) are a `PageLoad` value.
  - `run_one_item`, from the fetched result on: `Decide` is the decision as a value.
    `RunOneItem` computes the same outcome the source's way, appending alerts one at a time
    and updating the state map key by key.

Prices are exact `real` numbers. Each scanner match is held as whole pence, and its amount
is pence / 100.

## Model

| member | source | states |
|---|---|---|
| Text.TrimSpacesStart | monitor_travelodge.py:40 | the leading-whitespace half of `str.strip()`: the result is a suffix of the input, every character cut is whitespace, and the result does not start with whitespace |
| Text.TrimSpacesEnd | monitor_travelodge.py:40 | the trailing-whitespace half of `str.strip()`: the result is a prefix of the input, every character cut is whitespace, and the result does not end with whitespace |
| Text.Strip | monitor_travelodge.py:40 | `str.strip()`: the result is a slice `s[i..j]` of the input with only whitespace before `i` and after `j`, and it neither starts nor ends with whitespace |
| Text.NumeralValue | monitor_travelodge.py:69 | the decimal numeral `str(n)` reads back as `n` |
| Text.DigitsValueConcat | monitor_travelodge.py:83 | the digits `a + b` are worth `a` shifted left by the length of `b`, plus `b` |
| AmountScanner.SkipSpaces | monitor_travelodge.py:13 | `\s*` after the pound sign: every skipped character is whitespace, and the run stops at the first character that is not |
| AmountScanner.DigitRun | monitor_travelodge.py:13 | `[0-9]{1,5}` taken greedily: at most five characters, all digits, ending at a non-digit, at the end of the text, or after five digits |
| AmountScanner.WholePounds | monitor_travelodge.py:13 | the integer digits of a match are worth the number they spell, which is below 100000 |
| AmountScanner.Pence | monitor_travelodge.py:13 | the two fraction digits are worth the number they spell, which is below 100 |
| AmountScanner.DigitsToken | monitor_travelodge.py:13 | the optional group `(?:\.[0-9]{2})?`: the match ends after the fraction exactly when a point and two digits follow the integer digits, and its pence are the integer digits times 100 plus those two digits |
| AmountScanner.MatchAt | monitor_travelodge.py:13 | a match starts at `i` exactly when `s[i]` is `£` and the first character after the whitespace run is a digit. It then captures the greedy digit run and the fraction as `DigitsToken` states, ends after its start, and is below 100000 pounds |
| AmountScanner.ScanFrom | monitor_travelodge.py:31-33 | every amount found is non-negative, below 100000 and a whole number of pence, so the `float()` conversion never fails |
| AmountScanner.PenceAreScanned | monitor_travelodge.py:31-33 | a match's amount, put in front of other scanned amounts, keeps every amount a whole number of pence below 100000 |
| AmountScanner.ScanTakes | monitor_travelodge.py:31 | `finditer`: a match at `i` contributes its amount, and the search resumes where the match ended |
| AmountScanner.ScanSkips | monitor_travelodge.py:31 | `finditer`: with no `£` at `i` the search moves on by one character |
| AmountScanner.Amounts | monitor_travelodge.py:29-36 | the result is strictly ascending (sorted, no duplicates), holds exactly the amounts the scan collects, and each is a whole number of pence below 100000; `AmountsExactly` ties those to the matches at every position, both ways |
| AmountScanner.ExtractGbpAmounts | monitor_travelodge.py:29-36 | the matches collected by the `finditer` loop give exactly `Amounts` of the text; `None` or empty text gives `[]` |
| AmountScanner.ScannedFromMatch | monitor_travelodge.py:31-33 | every amount found comes from a match of the pattern at some position of the text |
| AmountScanner.NoPoundInsideMatch | monitor_travelodge.py:13 | no `£` lies inside a match after its first character: the whitespace run, the digits and the fraction hold none |
| AmountScanner.MatchFound | monitor_travelodge.py:31 | `finditer` from position `i` finds every match that starts at or after `i`, because a match never covers a later `£` |
| AmountScanner.AmountsComplete | monitor_travelodge.py:29-36 | every match of the pattern anywhere in the text puts its amount into the result |
| AmountScanner.AmountsExactly | monitor_travelodge.py:29-36 | an amount is in the result exactly when some position of the text holds a match with that amount |
| AmountScanner.FormatAmount | monitor_travelodge.py:69 | `£` plus `f"{a:.2f}"`: the sign, then integer digits, a point and exactly two digits |
| AmountScanner.DigitRunStops | monitor_travelodge.py:13 | the greedy digit run ends exactly where the digits stop or the five-digit budget is used up |
| AmountScanner.FormatDigits | monitor_travelodge.py:69 | in an amount written as `£` plus `f"{a:.2f}"`, the integer digits form one run that the point ends |
| AmountScanner.FormatFraction | monitor_travelodge.py:69 | an amount written with `f"{a:.2f}"` ends with a point and two digits that spell its pence |
| AmountScanner.FormatMatches | monitor_travelodge.py:69 | an amount written as `£` plus `f"{a:.2f}"` is one match covering the whole text, with the same pence |
| AmountScanner.FormatThenScan | monitor_travelodge.py:29-36 | round trip: scanning an amount written with two decimals after a `£` gives back exactly that amount |
| AmountScanner.SixDigitsMatch | monitor_travelodge.py:13 | in `£123456` the match takes only the first five digits and ends before the sixth |
| AmountScanner.ScanSixDigits | monitor_travelodge.py:29-36 | `£123456` yields `[12345]` |
| AmountScanner.ScanOneFractionDigit | monitor_travelodge.py:29-36 | `£12.3` yields `[12]`: a point followed by one digit is not a fraction |
| AmountScanner.ScanThreeFractionDigits | monitor_travelodge.py:29-36 | `£12.345` yields `[12.34]`: only two fraction digits are taken |
| AmountScanner.SpacedMatch | monitor_travelodge.py:13 | in `£ 45/£45.00` the first match skips the space after the sign, reads 45 pounds and ends at the `/` |
| AmountScanner.PointTwoDigitsMatch | monitor_travelodge.py:13 | in `£ 45/£45.00` the second match reads 45 pounds and 0 pence and ends after the fraction, at the end of the text |
| AmountScanner.TwiceFortyFive | monitor_travelodge.py:31-36 | two matches of 45 pounds, separated by one character other than `£`, yield `[45]` |
| AmountScanner.ScanSpacedDuplicates | monitor_travelodge.py:29-36 | `£ 45/£45.00` yields `[45]`: equal amounts collapse to one |
| AmountSets.Insert | monitor_travelodge.py:36 | adding one value to a canonical list keeps it canonical, and its elements become the old ones plus the value |
| AmountSets.SortedSet | monitor_travelodge.py:36 | `sorted(set(vals))`: strictly ascending, with exactly the elements of `vals` |
| AmountSets.HeadIsLeast | monitor_travelodge.py:36 | the first element of a canonical list is its least element |
| AmountSets.TailMembers | monitor_travelodge.py:36 | the rest of a canonical list holds exactly the elements other than the first |
| AmountSets.AscendingUnique | monitor_travelodge.py:36 | two canonical lists with the same elements are equal: the canonical form is unique |
| AmountSets.SortedSetOfCanonical | monitor_travelodge.py:205 | making an already canonical list canonical changes nothing |
| AmountSets.MergeAmounts | monitor_travelodge.py:204-205 | the merge is strictly ascending and holds exactly the amounts of either source |
| AmountSets.MergeCommutes | monitor_travelodge.py:204-205 | the merge does not depend on which source an amount came from |
| AmountSets.MergeOfSortedSets | monitor_travelodge.py:204-205 | merging the two canonical lists equals making the concatenation of the raw matches canonical |
| AmountSets.Max | monitor_travelodge.py:92 | `max(amts)`: an element of the list and at least every element |
| AmountSets.MaxOfAscending | monitor_travelodge.py:91-92 | on a canonical list the maximum is the last element |
| KeySanitizer.LowerChar | monitor_travelodge.py:40 | one character of `str.lower()`: one or two characters, neither an ASCII capital; an ASCII capital becomes its small letter, and `[a-z0-9]` is kept |
| KeySanitizer.Lower | monitor_travelodge.py:40 | `str.lower()` never makes the text shorter |
| KeySanitizer.LowerLeavesNoCapital | monitor_travelodge.py:40 | no ASCII capital is left after lower-casing |
| KeySanitizer.LowerConcat | monitor_travelodge.py:40 | lower-casing works character by character: the lower case of a concatenation is the concatenation of the lower cases |
| KeySanitizer.LowerKeeps | monitor_travelodge.py:40 | text with no character that lower-cases to a different ASCII letter or digit (`[a-z0-9]`) is unchanged by lower-casing |
| KeySanitizer.LowerCharAlnums | monitor_travelodge.py:40 | a character's lower case holds an ASCII letter or digit (`[a-z0-9]`) exactly when it is one of `[a-z0-9A-Z]`, U+0130 or U+212A |
| KeySanitizer.AlnumOnlyConcat | monitor_travelodge.py:41 | the letters and digits of a concatenation are those of each part, in order |
| KeySanitizer.ReplaceOtherRuns | monitor_travelodge.py:41 | `re.sub(r"[^a-z0-9]+", "_", s)`: only `[a-z0-9_]`, never `__`, empty exactly when the input is, ending in `_` exactly when the input ends in a character outside `[a-z0-9]` |
| KeySanitizer.ReplaceConcat | monitor_travelodge.py:41 | the replacement works part by part when the cut between the parts is not inside a run of characters outside `[a-z0-9]` |
| KeySanitizer.ReplaceRun | monitor_travelodge.py:41 | a whole run of characters outside `[a-z0-9]` becomes exactly one `_` |
| KeySanitizer.ReplaceWord | monitor_travelodge.py:41 | text made only of `[a-z0-9]` is kept as it is |
| KeySanitizer.ReplaceSeparates | monitor_travelodge.py:41 | a run of other characters between two letters or digits is replaced by one `_` at exactly that place, with both sides replaced on their own |
| KeySanitizer.ReplaceKeepsAlnums | monitor_travelodge.py:41 | replacing runs keeps every letter and digit, in order, and adds none |
| KeySanitizer.SquashUnderscores | monitor_travelodge.py:42 | `re.sub(r"_+", "_", s)`: never `__`, keeps the character set, empty exactly when the input is, same last character |
| KeySanitizer.SquashConcat | monitor_travelodge.py:42 | collapsing `_` runs works part by part when the cut is not inside a run of `_` |
| KeySanitizer.SquashKeepsSingles | monitor_travelodge.py:42 | text without `__` is unchanged by collapsing `_` runs |
| KeySanitizer.SquashKeepsAlnums | monitor_travelodge.py:42 | collapsing `_` runs keeps every letter and digit, in order |
| KeySanitizer.TrimUnderscoresStart | monitor_travelodge.py:42 | the leading `_` run is removed and nothing else; the result does not start with `_` and keeps the key shape |
| KeySanitizer.TrimUnderscoresEnd | monitor_travelodge.py:42 | the trailing `_` run is removed and nothing else; the result does not end with `_` and keeps the key shape |
| KeySanitizer.TrimUnderscoresEndConcat | monitor_travelodge.py:42 | `strip("_")` at the end touches only the last part when that part does not start with `_` |
| KeySanitizer.TrimSpacesEndConcat | monitor_travelodge.py:40 | `strip()` at the end touches only the last part when that part does not start with whitespace |
| KeySanitizer.SliceKeepsKeyShape | monitor_travelodge.py:43 | any slice of a key-shaped string (only `[a-z0-9_]`, no `__`) is key-shaped |
| KeySanitizer.Normalize | monitor_travelodge.py:40-42 | the key before the cut: only `[a-z0-9_]`, never `__`, and no `_` at either end |
| KeySanitizer.NormalizeWord | monitor_travelodge.py:40-42 | a single word of `[a-z0-9]` is its own key |
| KeySanitizer.NormalizeWordThenRest | monitor_travelodge.py:40-42 | a word, then a run of characters that lower-case to no letter or digit, then text starting with a letter or digit: the key is the word, one `_`, and the key of the rest |
| KeySanitizer.FallbackIsKey | monitor_travelodge.py:43 | `item` itself is a well-formed key |
| KeySanitizer.SafeKey | monitor_travelodge.py:39-43 | `safe_key`: non-empty, at most 80 characters, only `[a-z0-9_]`, never `__`, never starting with `_`. It is `item` when the key before the cut is empty, and otherwise the first `min(len, 80)` characters of that key |
| KeySanitizer.CutKeepsKey | monitor_travelodge.py:43 | cutting a well-formed key longer than 80 characters to 80 keeps it well-formed and a prefix of the key |
| KeySanitizer.TwoWordsKey | monitor_travelodge.py:39-43 | two words of `[a-z0-9]` with a run of other characters between them give the key `word_word` when it fits in 80 characters |
| KeySanitizer.SpacesLowerToNoAlnums | monitor_travelodge.py:40 | whitespace has no letters or digits once lower-cased |
| KeySanitizer.DropNoAlnums | monitor_travelodge.py:40 | a part with no letters or digits once lower-cased can be dropped from either end |
| KeySanitizer.DropSpacesBefore | monitor_travelodge.py:40 | whitespace before the text leaves its lower-cased letters and digits alone |
| KeySanitizer.DropSpacesAfter | monitor_travelodge.py:40 | whitespace after the text leaves its lower-cased letters and digits alone |
| KeySanitizer.TrimSpacesStartKeepsAlnums | monitor_travelodge.py:40 | removing leading whitespace keeps the lower-cased letters and digits |
| KeySanitizer.TrimSpacesEndKeepsAlnums | monitor_travelodge.py:40 | removing trailing whitespace keeps the lower-cased letters and digits |
| KeySanitizer.StripKeepsAlnums | monitor_travelodge.py:40 | `strip()` keeps the lower-cased letters and digits |
| KeySanitizer.AlnumOnlyEmpty | monitor_travelodge.py:42 | a string has no letters or digits exactly when none of its characters is one |
| KeySanitizer.DropNonAlnums | monitor_travelodge.py:42 | characters that are not letters or digits can be dropped from either end without changing the letters and digits |
| KeySanitizer.TrimStartKeepsAlnums | monitor_travelodge.py:42 | stripping leading `_` keeps every letter and digit |
| KeySanitizer.TrimEndKeepsAlnums | monitor_travelodge.py:42 | stripping trailing `_` keeps every letter and digit |
| KeySanitizer.NormalizeKeepsAlnums | monitor_travelodge.py:40-42 | the key keeps every letter and digit of the lower-cased name, in order, and adds none |
| KeySanitizer.LowerAlnumsEmpty | monitor_travelodge.py:40 | the lower-cased name has no letter or digit exactly when no character of the name lower-cases to one |
| KeySanitizer.SafeKeyFallback | monitor_travelodge.py:42-43 | the key is empty before the fallback exactly when no character of the name lower-cases to a letter or digit, and then `safe_key` is `item`; otherwise the key starts with the first such letter or digit |
| KeySanitizer.LeadingAlnum | monitor_travelodge.py:42 | a string starting with a letter or digit has that character first among its letters and digits |
| RateResolver.IsDigitString | monitor_travelodge.py:80-82 | a span that passes `isdigit()` has no surrounding whitespace, so stripping it first changes nothing |
| RateResolver.SplitValue | monitor_travelodge.py:83 | `float(f"{int_part}.{dec_part}")`: the joined digits divided by ten to the fraction's length, so at least the integer part and below the next integer |
| RateResolver.FractionBelowOne | monitor_travelodge.py:83 | a fraction of digits divided by its power of ten lies in [0, 1) |
| RateResolver.JoinedDigits | monitor_travelodge.py:83 | reading `int.dec` as a whole plus a fraction equals reading the joined digits and dividing by ten to the fraction's length |
| RateResolver.SplitPrice | monitor_travelodge.py:76-83 | the split-span strategy gives a price exactly when both spans were read and both are all digits once stripped, and the price is `SplitValue` of the two stripped spans |
| RateResolver.ButtonPrice | monitor_travelodge.py:74-105 | precedence: the split spans win; otherwise the largest rendered-text amount; otherwise the largest `textContent` amount; `None` exactly when all three strategies fail |
| RateResolver.ExtractPriceFromRateButton | monitor_travelodge.py:74-105 | the try-and-return cascade returns exactly `ButtonPrice` of the button and never fails |
| RateResolver.SelectorPrice | monitor_travelodge.py:119-129 | one selector yields a price exactly when it finds a button and that button yields one, and then it is that button's price |
| RateResolver.FirstFromIsFirst | monitor_travelodge.py:118-133 | the first present value is absent exactly when every value is; otherwise it is the value at the earliest position that has one |
| RateResolver.RatePrice | monitor_travelodge.py:107-133 | a page yields no saver price exactly when no selector does; otherwise it yields the price of the first selector that yields one, with no combining across selectors |
| RateResolver.TrySelector | monitor_travelodge.py:119-129 | one turn of the loop: no price without a button, else that button's price |
| RateResolver.FindSaverRatePrice | monitor_travelodge.py:107-133 | the selector loop with its early return gives exactly `RatePrice` of the page |
| RateResolver.SplitDigitsDecide | monitor_travelodge.py:79-83 | when both spans are digit strings, the button's price is `int.dec`, whatever its text says |
| RateResolver.OneDigitFractionSpan | monitor_travelodge.py:82-83 | spans `92` and `5` read as 92.5, the same as `92` and `50`: a one-digit fraction span means tenths |
| PriceChooser.Distance | monitor_travelodge.py:141 | `abs(x - anchor)`: non-negative, and one of the two differences |
| PriceChooser.NearestIndex | monitor_travelodge.py:141 | `min(..., key=abs(x - anchor))`: the pick is no farther than any element, and every earlier element is strictly farther |
| PriceChooser.ChooseBestPrice | monitor_travelodge.py:137-144 | `None` exactly when there are no amounts; otherwise an element of them. It is the earliest nearest to the last price when there is one, else the earliest nearest to the expected price, else the largest |
| PriceChooser.FirstNearestUnique | monitor_travelodge.py:141 | the earliest nearest element is unique, so the rule leaves no choice open |
| PriceChooser.LastPriceOverridesExpected | monitor_travelodge.py:140-141 | with a last price the expected price plays no part |
| PriceChooser.NearestToLastPrice | monitor_travelodge.py:140-141 | from 80, 95 and 130 with last price 100 the choice is 95 |
| PriceChooser.TieGoesToEarlier | monitor_travelodge.py:141 | 95 and 105 are both 5 from 100, and the earlier 95 is chosen |
| PriceChooser.LargestWithoutAnchor | monitor_travelodge.py:144 | without last or expected price the largest amount is chosen |
| Monitor.FetchPrice | monitor_travelodge.py:160-224 | the amounts are canonical: the union of body and markup amounts (either read may be missing after a timeout), and none after another error. A price is only ever the page's saver-rate price. The source is `saver_button` exactly when the load completed with a price |
| Monitor.FetchedAmountsCanonical | monitor_travelodge.py:202-205 | the merged amounts are the canonical list of every match in the body text and the markup together |
| Monitor.LastPrice | monitor_travelodge.py:240 | a last price is read exactly when the state holds a number under `last_price_gbp`, and it is that number |
| Monitor.DisplayName | monitor_travelodge.py:229 | `item.get("name") or "unnamed"`: never empty; the item's name when it has a non-empty one, else `unnamed` |
| Monitor.DropThreshold | monitor_travelodge.py:233 | the item's `drop_pct` when it has one, else the default threshold |
| Monitor.DropPercent | monitor_travelodge.py:262 | the percentage drop is positive exactly when the price fell, and zero exactly when it is unchanged |
| Monitor.DropPercentWithoutDivision | monitor_travelodge.py:261-263 | for a positive last price, the percentage drop reaches the threshold exactly when `(last - price) * 100 >= threshold * last` |
| Monitor.Stamped | monitor_travelodge.py:266-267 | the updated state holds the price under `last_price_gbp` and the time under `last_checked_utc`; it gains only those two keys, and every other key keeps its value |
| Monitor.PriceAlerts | monitor_travelodge.py:252-264 | with a price there are at most two alerts, never "no price", and the target alert comes before the drop alert. A target alert carries the name, the price and the target; a drop alert carries the name, the percentage drop, the positive last price and the price |
| Monitor.TargetAlertOf | monitor_travelodge.py:258-259 | the target alert is raised exactly when a target is set and the price is at or below it |
| Monitor.DropAlertOf | monitor_travelodge.py:261-264 | the drop alert is raised exactly when the last price is positive and `(last - price) * 100 >= threshold * last` |
| Monitor.Decide | monitor_travelodge.py:244-268 | a state is saved exactly when a price was resolved, and it is the stamped state. No price exactly when the rate control gave none and no amounts were found, and then the only alert is "no price detected". With a price the alerts are the target and drop alerts for it |
| Monitor.RunOneItem | monitor_travelodge.py:244-268 | appending alerts and updating the state map key by key gives exactly the outcome `Decide` specifies |
| Monitor.NoPriceLeavesStateAlone | monitor_travelodge.py:244-256 | no price exactly when neither the rate control nor any amount gives one. Then the only alert is "no price detected", nothing is saved, and the source tag is unchanged |
| Monitor.ChosenPriceAndSource | monitor_travelodge.py:244-247 | a rate-control price is kept with its source; otherwise the fallback chooser decides, and a fallback price is tagged `fallback` |
| Monitor.TargetAlertIff | monitor_travelodge.py:258-259 | the target alert fires exactly when a target is set and the price is at or below it |
| Monitor.DropAlertIff | monitor_travelodge.py:261-264 | the drop alert fires exactly when the last price is positive and `(last - price) * 100 >= threshold * last` |
| Monitor.RiseNeverAlertsDrop | monitor_travelodge.py:261-264 | with a non-negative threshold a price above the last price never raises a drop alert |
| Monitor.AlertOrder | monitor_travelodge.py:252-264 | a check with a price raises at most two alerts, never "no price", and the target alert comes before the drop alert |
| Monitor.StateUpdate | monitor_travelodge.py:266-268 | the saved state has the price as last price, the check's time as last-checked time, and every other key unchanged |
| Monitor.RatePriceWins | monitor_travelodge.py:195-197 | a saver-rate price on a fully loaded page is the check's price, tagged `saver_button` |
| Monitor.EightPercentDropAlerts | monitor_travelodge.py:261-264 | a fall from 100 to 92 is 8 percent and raises a drop alert at a 5 percent threshold |
| Monitor.FourPercentDropIsQuiet | monitor_travelodge.py:261-264 | a fall from 100 to 96 is 4 percent and raises nothing at a 5 percent threshold |
| Monitor.TargetIsInclusive | monitor_travelodge.py:258-259 | a price of 90 against a target of 90 alerts; 90.01 does not |
| Monitor.UndetectedKeepsLastPrice | monitor_travelodge.py:254-256 | a check that finds nothing leaves the stored last price untouched |

## Left out

- `telegram_send` (lines 16-26) is a network call driven by environment variables. It is not part of this model.
- `load_state`, `save_state` and `append_history` (lines 46-71) are JSON and CSV file I/O. The state is a parameter, the state to save is returned, and the history row is not produced.
- `try_accept_cookies` and the navigation, scrolling, waiting and debug printing in `fetch_price` (lines 147-224, including the `WARN` print at line 221) are browser automation. They are replaced by the `PageLoad`, `Page` and `Button` values, whose `None` reads stand for elements that were missing or reads that raised.
- `main` (lines 274-319) is not modelled: argument parsing, the browser's lifetime, the loop over items and the alert message.
- The clock (line 249) is a parameter: the check's timestamp is passed in.
- The alert texts (lines 255, 259, 264) and the summary print (line 270) become `Alert` values carrying the same numbers. Number formatting is not modelled.
- Floating point is not modelled. Prices, `round(v, 2)`, the `float()` conversions and the division at line 262 are exact real arithmetic. `round(v, 2)` is the identity on the whole-pence amounts the scanner yields.
- `SplitPrice`: treats only ASCII digits as digits. Python's `str.isdigit` also accepts other Unicode digits, and on those `float()` either raises (so the next strategy runs) or reads them as their values.
- `LowerChar`: models `str.lower` only as far as it can change a key. The ASCII capitals, U+0130 and U+212A become their lower case; every other character is kept, because its lower case has no `[a-z0-9]` in it either.
- `LastPrice`: a stored last price that is not a JSON number is read as absent. The source would compare with it or raise.
- `Item`: the expected and target prices are reals. The source's `float(target)` also accepts a numeric string, and a `drop_pct` key holding `null` makes the source raise. The model reads an absent threshold as the default.
- `SafeKey`'s result names the state and history files (lines 235-237). Those paths are not modelled.
