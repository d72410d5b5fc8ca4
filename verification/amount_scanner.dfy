/**
 * The amount scanner: every pound amount in a text, as the regular expression
 * `£\s*([0-9]{1,5}(?:\.[0-9]{2})?)` finds them left to right without overlap
 * (`finditer`), returned as a canonical list (sorted ascending, no duplicates).
 *
 * A match is scanned as the regex engine does it: at a `£`, the whitespace run is
 * skipped, then one to five digits are taken greedily, then `.dd` is taken only when a
 * point and exactly two digits follow; the next search starts where the match ended.
 * Because whitespace, digits and `.` are disjoint classes, the greedy choices are never
 * undone by backtracking. Each match is held as whole pence, and its amount is
 * pence / 100, so every match converts to a number.
 */
module AmountScanner {
  import opened Wrappers
  import opened Text
  import opened AmountSets

  const Pound: char := '\U{A3}'
  const MaxIntegerDigits: nat := 5
  /** Every scanned amount is below this many pence (five integer digits). */
  const PenceBound: nat := 10_000_000

  datatype Token = Token(pence: nat, end: nat)

  function Amount(pence: nat): real {
    pence as real / 100.0
  }

  /** A whole number of pence, non-negative and below 100000 pounds. */
  ghost predicate IsScannedAmount(x: real) {
    0.0 <= x < 100000.0 && (x * 100.0).Floor as real == x * 100.0
  }

  /** The end of the whitespace run starting at `i` (`\s*`). */
  function SkipSpaces(s: string, i: nat): (j: nat)
    requires i <= |s|
    ensures i <= j <= |s|
    ensures forall k | i <= k < j :: IsSpace(s[k])
    ensures j == |s| || !IsSpace(s[j])
    decreases |s| - i
  {
    if i < |s| && IsSpace(s[i]) then SkipSpaces(s, i + 1) else i
  }

  /** The end of the longest run of at most `n` digits starting at `i` (`[0-9]{0,n}`). */
  function DigitRun(s: string, i: nat, n: nat): (j: nat)
    requires i <= |s|
    ensures i <= j <= |s| && j - i <= n
    ensures forall k | i <= k < j :: IsDigit(s[k])
    ensures j - i == n || j == |s| || !IsDigit(s[j])
    decreases n
  {
    if n > 0 && i < |s| && IsDigit(s[i]) then DigitRun(s, i + 1, n - 1) else i
  }

  /** Whether a point and exactly two digits (`\.[0-9]{2}`) start at `e`. */
  predicate FractionAt(s: string, e: nat) {
    e + 3 <= |s| && s[e] == '.' && IsDigit(s[e + 1]) && IsDigit(s[e + 2])
  }

  /**
   * What a match with integer digits `s[j..e]` captures: it ends after the fraction when a
   * point and two digits follow the digits, and at `e` otherwise, and its pence are the
   * number those digits spell.
   */
  predicate Captures(s: string, j: nat, e: nat, t: Token)
    requires j <= e <= |s| && forall k | j <= k < e :: IsDigit(s[k])
  {
    && t.end == (if FractionAt(s, e) then e + 3 else e)
    && t.pence == DigitsValue(s[j..e]) * 100 + (if FractionAt(s, e) then DigitsValue(s[e + 1..e + 3]) else 0)
  }

  /**
   * The match of the amount pattern that starts exactly at `i`, if there is one: after the
   * `£` and the whitespace run, the greedy run of at most five digits and the fraction that
   * may follow it.
   */
  function MatchAt(s: string, i: nat): (m: Option<Token>)
    requires i <= |s|
    ensures m.Some? <==>
      i < |s| && s[i] == Pound && SkipSpaces(s, i + 1) < |s| && IsDigit(s[SkipSpaces(s, i + 1)])
    ensures m.Some? ==> i < m.value.end <= |s| && m.value.pence < PenceBound
    ensures m.Some? ==> Captures(s, SkipSpaces(s, i + 1), DigitRun(s, SkipSpaces(s, i + 1), MaxIntegerDigits), m.value)
  {
    if i < |s| && s[i] == Pound then
      var j := SkipSpaces(s, i + 1);
      var e := DigitRun(s, j, MaxIntegerDigits);
      if e == j then None else Some(DigitsToken(s, j, e))
    else
      None
  }

  /** The token for the integer digits `s[j..e]` and the fraction that may follow them. */
  function DigitsToken(s: string, j: nat, e: nat): (t: Token)
    requires j < e <= |s| && e - j <= MaxIntegerDigits
    requires forall k | j <= k < e :: IsDigit(s[k])
    ensures Captures(s, j, e, t)
    ensures t.end <= |s| && t.pence < PenceBound
  {
    var whole := WholePounds(s[j..e]);
    if FractionAt(s, e) then
      assert s[e + 1..e + 3] == [s[e + 1], s[e + 2]];
      Token(whole * 100 + Pence(s[e + 1], s[e + 2]), e + 3)
    else
      Token(whole * 100, e)
  }

  /** The value of the integer digits of a match. */
  function WholePounds(ds: string): (v: nat)
    requires AllDigits(ds) && |ds| <= MaxIntegerDigits
    ensures v == DigitsValue(ds) && v < 100000
  {
    Pow10Monotone(|ds|, MaxIntegerDigits);
    DigitsValue(ds)
  }

  /** The value of the two fraction digits of a match. */
  function Pence(tens: char, units: char): (v: nat)
    requires IsDigit(tens) && IsDigit(units)
    ensures v < 100
    ensures v == DigitsValue([tens, units])
  {
    assert [tens, units][..1] == [tens];
    DigitValue(tens) * 10 + DigitValue(units)
  }

  /** The amounts of all matches found searching from `i`, in text order (`finditer`). */
  function ScanFrom(s: string, i: nat): (vals: seq<real>)
    requires i <= |s|
    ensures forall k | 0 <= k < |vals| :: IsScannedAmount(vals[k])
    decreases |s| - i
  {
    if i == |s| then []
    else
      match MatchAt(s, i)
      case Some(t) =>
        PenceAreScanned(t.pence, ScanFrom(s, t.end));
        [Amount(t.pence)] + ScanFrom(s, t.end)
      case None => ScanFrom(s, i + 1)
  }

  /** A match's amount is a whole number of pence below the bound, and so is every amount after it. */
  lemma PenceAreScanned(pence: nat, rest: seq<real>)
    requires pence < PenceBound
    requires forall k | 0 <= k < |rest| :: IsScannedAmount(rest[k])
    ensures forall k | 0 <= k < |rest| + 1 :: IsScannedAmount(([Amount(pence)] + rest)[k])
  {
    var x := Amount(pence);
    assert x * 100.0 == pence as real;
    assert (x * 100.0).Floor == pence;
    assert IsScannedAmount(x);
    forall k | 0 <= k < |rest| + 1
      ensures IsScannedAmount(([x] + rest)[k])
    {
      if k > 0 {
        assert ([x] + rest)[k] == rest[k - 1];
      }
    }
  }

  /** `extract_gbp_amounts` as a value: the canonical list of the amounts in `s`. */
  function Amounts(s: string): (r: seq<real>)
    ensures StrictlyAscending(r)
    ensures forall x :: x in r <==> x in ScanFrom(s, 0)
    ensures forall x | x in r :: IsScannedAmount(x)
  {
    SortedSet(ScanFrom(s, 0))
  }

  /** `extract_gbp_amounts(text)`: the matches collected in a loop, then made canonical. */
  method ExtractGbpAmounts(text: Option<string>) returns (amounts: seq<real>)
    ensures amounts == Amounts(if text.Some? then text.value else "")
    ensures text.None? || text == Some("") ==> amounts == []
  {
    var s := if text.Some? then text.value else "";
    var vals: seq<real> := [];
    var i := 0;
    NothingBefore(ScanFrom(s, 0));
    while i < |s|
      invariant i <= |s|
      invariant vals + ScanFrom(s, i) == ScanFrom(s, 0)
      decreases |s| - i
    {
      match MatchAt(s, i)
      case Some(t) =>
        ScanTakes(s, i, t);
        MoveFound(vals, Amount(t.pence), ScanFrom(s, t.end));
        vals := vals + [Amount(t.pence)];
        i := t.end;
      case None =>
        assert ScanFrom(s, i) == ScanFrom(s, i + 1);
        i := i + 1;
    }
    NothingAfter(vals);
    amounts := SortedSet(vals);
    assert amounts == Amounts(s);
  }

  // Sequence facts for the loop in `ExtractGbpAmounts`, stated apart only to keep its proof small.

  /** Nothing collected yet: the collected list and the rest of the scan are the whole scan. */
  lemma NothingBefore(rest: seq<real>)
    ensures [] + rest == rest
  {
  }

  /** One found amount moves from the rest of the scan to the collected list. */
  lemma MoveFound(vals: seq<real>, x: real, rest: seq<real>)
    ensures vals + [x] + rest == vals + ([x] + rest)
  {
  }

  /** Nothing left to scan: the collected list is the whole scan. */
  lemma NothingAfter(vals: seq<real>)
    ensures vals + [] == vals
  {
  }

  /** Every amount found comes from a match of the pattern at some position of the text. */
  lemma {:induction false} ScannedFromMatch(s: string, i: nat, x: real)
    requires i <= |s| && x in ScanFrom(s, i)
    ensures exists k | i <= k < |s| :: MatchAt(s, k).Some? && Amount(MatchAt(s, k).value.pence) == x
    decreases |s| - i
  {
    if i < |s| {
      match MatchAt(s, i)
      case Some(t) =>
        if x != Amount(t.pence) {
          ScannedFromMatch(s, t.end, x);
        }
      case None =>
        ScannedFromMatch(s, i + 1, x);
    }
  }

  /** No `£` lies inside a match after its own: the whitespace, digits and fraction hold none. */
  lemma NoPoundInsideMatch(s: string, i: nat, k: nat)
    requires i <= |s| && MatchAt(s, i).Some? && i < k < MatchAt(s, i).value.end
    ensures s[k] != Pound
  {
    var j := SkipSpaces(s, i + 1);
    var e := DigitRun(s, j, MaxIntegerDigits);
    if k < j {
      assert IsSpace(s[k]);
    } else if k < e {
      assert IsDigit(s[k]);
    } else {
      assert FractionAt(s, e);
      assert s[k] == '.' || IsDigit(s[k]);
    }
  }

  /** The search from `i` finds every match at or after `i`: matches never overlap a later `£`. */
  lemma {:induction false} MatchFound(s: string, i: nat, k: nat)
    requires i <= k < |s| && MatchAt(s, k).Some?
    ensures Amount(MatchAt(s, k).value.pence) in ScanFrom(s, i)
    decreases k - i
  {
    match MatchAt(s, i)
    case Some(t) =>
      ScanTakes(s, i, t);
      if k != i {
        if k < t.end {
          NoPoundInsideMatch(s, i, k);
          assert false;
        }
        MatchFound(s, t.end, k);
      }
    case None =>
      assert ScanFrom(s, i) == ScanFrom(s, i + 1);
      MatchFound(s, i + 1, k);
  }

  /** Every match of the pattern anywhere in the text puts its amount into the result. */
  lemma AmountsComplete(s: string, k: nat)
    requires k < |s| && MatchAt(s, k).Some?
    ensures Amount(MatchAt(s, k).value.pence) in Amounts(s)
  {
    MatchFound(s, 0, k);
  }

  /** The result holds exactly the amounts of the matches at the positions of the text. */
  lemma AmountsExactly(s: string, x: real)
    ensures x in Amounts(s) <==> exists k | 0 <= k < |s| :: MatchAt(s, k).Some? && Amount(MatchAt(s, k).value.pence) == x
  {
    if x in Amounts(s) {
      ScannedFromMatch(s, 0, x);
    }
    if exists k | 0 <= k < |s| :: MatchAt(s, k).Some? && Amount(MatchAt(s, k).value.pence) == x {
      var k :| 0 <= k < |s| && MatchAt(s, k).Some? && Amount(MatchAt(s, k).value.pence) == x;
      AmountsComplete(s, k);
    }
  }

  /** An amount written as the history file writes it (`f"{a:.2f}"`), after a pound sign. */
  function FormatAmount(pence: nat): (s: string)
    ensures |s| >= 5 && s[0] == Pound && s[|s| - 3] == '.'
    ensures AllDigits(s[1..|s| - 3]) && AllDigits(s[|s| - 2..])
  {
    var s := [Pound] + Numeral(pence / 100) + ['.', DigitChar(pence % 100 / 10), DigitChar(pence % 100 % 10)];
    assert s[1..|s| - 3] == Numeral(pence / 100);
    assert s[|s| - 2..] == [DigitChar(pence % 100 / 10), DigitChar(pence % 100 % 10)];
    s
  }

  /** A digit run stops where the digits stop or the count is used up. */
  lemma {:induction false} DigitRunStops(s: string, i: nat, n: nat, k: nat)
    requires i <= k <= |s| && k - i <= n
    requires forall t | i <= t < k :: IsDigit(s[t])
    requires k - i == n || k == |s| || !IsDigit(s[k])
    ensures DigitRun(s, i, n) == k
    decreases n
  {
    if i < k {
      DigitRunStops(s, i + 1, n - 1, k);
    }
  }

  /** The integer digits of a formatted amount are one digit run, ended by the point. */
  lemma FormatDigits(pence: nat)
    requires pence < PenceBound
    ensures var n := |Numeral(pence / 100)|;
      n <= MaxIntegerDigits && |FormatAmount(pence)| == n + 4 &&
      FormatAmount(pence)[1..1 + n] == Numeral(pence / 100) &&
      SkipSpaces(FormatAmount(pence), 1) == 1 &&
      DigitRun(FormatAmount(pence), 1, MaxIntegerDigits) == 1 + n
  {
    var s := FormatAmount(pence);
    var ds := Numeral(pence / 100);
    var n := |ds|;
    NumeralLength(pence / 100, MaxIntegerDigits);
    assert s[1..1 + n] == ds;
    assert forall t | 1 <= t < 1 + n :: s[t] == ds[t - 1];
    assert s[1 + n] == '.';
    DigitRunStops(s, 1, MaxIntegerDigits, 1 + n);
    assert IsDigit(s[1]);
  }

  /** A formatted amount is one match covering the whole text. */
  lemma FormatMatches(pence: nat)
    requires pence < PenceBound
    ensures MatchAt(FormatAmount(pence), 0) == Some(Token(pence, |FormatAmount(pence)|))
  {
    var s := FormatAmount(pence);
    var n := |Numeral(pence / 100)|;
    FormatDigits(pence);
    assert DigitsToken(s, 1, 1 + n) == Token(pence, n + 4) by {
      NumeralValue(pence / 100);
      assert WholePounds(s[1..1 + n]) == pence / 100;
      FormatFraction(pence);
      assert DigitsToken(s, 1, 1 + n) == Token(pence / 100 * 100 + pence % 100, n + 4);
      PoundsAndPence(pence);
    }
    assert MatchAt(s, 0) == Some(DigitsToken(s, 1, 1 + n));
  }

  /** A formatted amount ends with a point and the two digits of its pence. */
  lemma FormatFraction(pence: nat)
    ensures var s := FormatAmount(pence); var n := |Numeral(pence / 100)|;
      |s| == n + 4 && FractionAt(s, 1 + n) && Pence(s[n + 2], s[n + 3]) == pence % 100
  {
    var s := FormatAmount(pence);
    var n := |Numeral(pence / 100)|;
    assert s[n + 2] == DigitChar(pence % 100 / 10) && s[n + 3] == DigitChar(pence % 100 % 10);
    PenceDigits(pence % 100);
  }

  /** The two fraction digits written for `p` pence read back as `p`. */
  lemma PenceDigits(p: nat)
    requires p < 100
    ensures Pence(DigitChar(p / 10), DigitChar(p % 10)) == p
  {
    assert DigitValue(DigitChar(p / 10)) * 10 + DigitValue(DigitChar(p % 10)) == p / 10 * 10 + p % 10;
  }

  /** Whole pounds and the pence left over make up the amount again. */
  lemma PoundsAndPence(pence: nat)
    ensures pence / 100 * 100 + pence % 100 == pence
  {
  }

  /** Scanning a formatted amount gives back exactly that amount. */
  lemma FormatThenScan(pence: nat)
    requires pence < PenceBound
    ensures Amounts(FormatAmount(pence)) == [Amount(pence)]
  {
    var s := FormatAmount(pence);
    FormatMatches(pence);
    assert ScanFrom(s, |s|) == [];
    assert ScanFrom(s, 0) == [Amount(pence)];
    assert SortedSet([Amount(pence)]) == [Amount(pence)];
  }

  /** Six digits after the sign: the match takes the first five. */
  lemma SixDigitsMatch()
    ensures MatchAt("\U{A3}123456", 0) == Some(Token(1234500, 6))
  {
    var s := "\U{A3}123456";
    assert SkipSpaces(s, 1) == 1;
    assert forall t | 1 <= t < 6 :: IsDigit(s[t]);
    DigitRunStops(s, 1, MaxIntegerDigits, 6);
    assert s[1..6] == "12345";
    FiveDigitsValue();
    assert !FractionAt(s, 6);
  }

  lemma FiveDigitsValue()
    ensures DigitsValue("12345") == 12345
  {
    assert DigitsValue("12") == 12 by { assert "12"[..1] == "1"; }
    assert DigitsValue("123") == 123 by { assert "123"[..2] == "12"; }
    assert DigitsValue("1234") == 1234 by { assert "1234"[..3] == "123"; }
    assert "12345"[..4] == "1234";
  }

  /** Six digits after the sign: only the first five belong to the amount. */
  lemma ScanSixDigits()
    ensures Amounts("\U{A3}123456") == [12345.0]
  {
    var s := "\U{A3}123456";
    SixDigitsMatch();
    assert MatchAt(s, 6) == None;
    assert ScanFrom(s, 0) == [12345.0];
  }

  /** A point followed by one digit is not a fraction: `£12.3` is twelve pounds. */
  lemma ScanOneFractionDigit()
    ensures Amounts("\U{A3}12.3") == [12.0]
  {
    var s := "\U{A3}12.3";
    assert SkipSpaces(s, 1) == 1;
    assert DigitRun(s, 1, MaxIntegerDigits) == 3;
    assert s[1..3] == "12";
    assert DigitsValue("12") == 12 by { assert "12"[..1] == "1"; }
    assert MatchAt(s, 0) == Some(Token(1200, 3));
    assert MatchAt(s, 3) == None && MatchAt(s, 4) == None;
    assert ScanFrom(s, 0) == [12.0];
  }

  /** Only two fraction digits are taken: `£12.345` is 12.34. */
  lemma ScanThreeFractionDigits()
    ensures Amounts("\U{A3}12.345") == [12.34]
  {
    var s := "\U{A3}12.345";
    assert SkipSpaces(s, 1) == 1;
    assert DigitRun(s, 1, MaxIntegerDigits) == 3;
    assert s[1..3] == "12" && s[4..6] == "34";
    assert DigitsValue("12") == 12 by { assert "12"[..1] == "1"; }
    assert DigitsValue("34") == 34 by { assert "34"[..1] == "3"; }
    assert MatchAt(s, 0) == Some(Token(1234, 6));
    assert MatchAt(s, 6) == None;
    assert ScanFrom(s, 0) == [12.34];
  }

  /** Two spellings of the same amount, the first with whitespace after the sign. */
  const SpacedPair: string := "\U{A3} 45/\U{A3}45.00"

  /** Whitespace after the sign is skipped before the digits. */
  lemma SpacedMatch()
    ensures MatchAt(SpacedPair, 0) == Some(Token(4500, 4))
  {
    var s := SpacedPair;
    assert SkipSpaces(s, 2) == 2;
    assert SkipSpaces(s, 1) == 2;
    assert forall t | 2 <= t < 4 :: IsDigit(s[t]);
    DigitRunStops(s, 2, MaxIntegerDigits, 4);
    assert s[2..4] == "45";
    assert DigitsValue("45") == 45 by { assert "45"[..1] == "4"; }
  }

  lemma PointTwoDigitsMatch()
    ensures MatchAt(SpacedPair, 5) == Some(Token(4500, 11))
  {
    var s := SpacedPair;
    assert SkipSpaces(s, 6) == 6;
    assert forall t | 6 <= t < 8 :: IsDigit(s[t]);
    DigitRunStops(s, 6, MaxIntegerDigits, 8);
    assert s[6..8] == "45";
    assert DigitsValue("45") == 45 by { assert "45"[..1] == "4"; }
  }

  /** A match at `i` contributes its amount, and the search resumes where it ended. */
  lemma ScanTakes(s: string, i: nat, t: Token)
    requires i < |s| && MatchAt(s, i) == Some(t)
    ensures ScanFrom(s, i) == [Amount(t.pence)] + ScanFrom(s, t.end)
  {
  }

  /** Without a match at `i`, the search moves on by one character. */
  lemma ScanSkips(s: string, i: nat)
    requires i < |s| && s[i] != Pound
    ensures ScanFrom(s, i) == ScanFrom(s, i + 1)
  {
  }

  /** Two matches of 45 pounds with one other character between them scan as `[45]`. */
  lemma TwiceFortyFive(s: string)
    requires |s| == 11 && s[4] != Pound
    requires MatchAt(s, 0) == Some(Token(4500, 4)) && MatchAt(s, 5) == Some(Token(4500, 11))
    ensures Amounts(s) == [45.0]
  {
    ScanTakes(s, 5, Token(4500, 11));
    assert ScanFrom(s, 11) == [];
    ScanSkips(s, 4);
    ScanTakes(s, 0, Token(4500, 4));
    assert ScanFrom(s, 0) == [45.0, 45.0];
    AscendingUnique(Amounts(s), [45.0]);
  }

  /** Whitespace after the sign is allowed, and equal amounts collapse to one. */
  lemma ScanSpacedDuplicates()
    ensures Amounts(SpacedPair) == [45.0]
  {
    SpacedMatch();
    PointTwoDigitsMatch();
    TwiceFortyFive(SpacedPair);
  }
}
