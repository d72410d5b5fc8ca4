/**
 * Lists of amounts in the canonical form the monitor keeps them in: sorted ascending
 * with no duplicates (Python's `sorted({round(v, 2) for v in vals})`). Amounts are exact
 * reals; the two-decimal rounding is the identity on the values the scanner produces.
 */
module AmountSets {

  predicate StrictlyAscending(xs: seq<real>) {
    forall i, j | 0 <= i < j < |xs| :: xs[i] < xs[j]
  }

  /** Adds `v` to a canonical list, keeping it canonical. */
  function Insert(xs: seq<real>, v: real): (r: seq<real>)
    requires StrictlyAscending(xs)
    ensures StrictlyAscending(r)
    ensures forall x :: x in r <==> x in xs || x == v
  {
    if xs == [] then [v]
    else if v < xs[0] then [v] + xs
    else if v == xs[0] then xs
    else
      var rest := Insert(xs[1..], v);
      assert forall x | x in xs[1..] :: xs[0] < x by {
        forall x | x in xs[1..] ensures xs[0] < x {
          var k :| 0 <= k < |xs| - 1 && xs[1..][k] == x;
          assert xs[k + 1] == x;
        }
      }
      assert forall k | 0 <= k < |rest| :: xs[0] < rest[k] by {
        forall k | 0 <= k < |rest| ensures xs[0] < rest[k] {
          assert rest[k] in rest;
        }
      }
      [xs[0]] + rest
  }

  /** `sorted(set(vals))`: the canonical list holding exactly the values of `vals`. */
  function SortedSet(vals: seq<real>): (r: seq<real>)
    ensures StrictlyAscending(r)
    ensures forall x :: x in r <==> x in vals
  {
    if vals == [] then []
    else Insert(SortedSet(vals[..|vals| - 1]), vals[|vals| - 1])
  }

  /** The head of a canonical list is its least element. */
  lemma HeadIsLeast(a: seq<real>, x: real)
    requires StrictlyAscending(a) && x in a
    ensures a[0] <= x
  {
    var i :| 0 <= i < |a| && a[i] == x;
  }

  /** The tail of a canonical list holds exactly the elements other than the head. */
  lemma TailMembers(a: seq<real>, x: real)
    requires StrictlyAscending(a) && a != []
    ensures x in a[1..] <==> x in a && x != a[0]
  {
    if x in a && x != a[0] {
      var i :| 0 <= i < |a| && a[i] == x;
      assert a[1..][i - 1] == x;
    }
  }

  /** A canonical list is determined by its elements. */
  lemma {:induction false} AscendingUnique(a: seq<real>, b: seq<real>)
    requires StrictlyAscending(a) && StrictlyAscending(b)
    requires forall x :: x in a <==> x in b
    ensures a == b
  {
    if a != [] {
      assert a[0] in a;
    }
    if b != [] {
      assert b[0] in b;
    }
    if a != [] && b != [] {
      HeadIsLeast(a, b[0]);
      HeadIsLeast(b, a[0]);
      forall x ensures x in a[1..] <==> x in b[1..] {
        TailMembers(a, x);
        TailMembers(b, x);
      }
      AscendingUnique(a[1..], b[1..]);
      assert a == [a[0]] + a[1..] && b == [b[0]] + b[1..];
    }
  }

  /** Canonicalising a canonical list changes nothing. */
  lemma SortedSetOfCanonical(xs: seq<real>)
    requires StrictlyAscending(xs)
    ensures SortedSet(xs) == xs
  {
    AscendingUnique(SortedSet(xs), xs);
  }

  /**
   * The merge of the amounts found in the page's text and in its markup
   * (`sorted({round(v, 2) for v in text_amounts + markup_amounts})`).
   */
  function MergeAmounts(fromText: seq<real>, fromMarkup: seq<real>): (r: seq<real>)
    ensures StrictlyAscending(r)
    ensures forall x :: x in r <==> x in fromText || x in fromMarkup
  {
    SortedSet(fromText + fromMarkup)
  }

  /** The merge does not depend on which source an amount came from. */
  lemma MergeCommutes(a: seq<real>, b: seq<real>)
    ensures MergeAmounts(a, b) == MergeAmounts(b, a)
  {
    AscendingUnique(MergeAmounts(a, b), MergeAmounts(b, a));
  }

  /** Canonicalising the inputs first does not change the merge. */
  lemma MergeOfSortedSets(a: seq<real>, b: seq<real>)
    ensures MergeAmounts(SortedSet(a), SortedSet(b)) == SortedSet(a + b)
  {
    AscendingUnique(MergeAmounts(SortedSet(a), SortedSet(b)), SortedSet(a + b));
  }

  /** Python's `max` on a non-empty list. */
  function Max(xs: seq<real>): (m: real)
    requires xs != []
    ensures m in xs
    ensures forall i | 0 <= i < |xs| :: xs[i] <= m
  {
    if |xs| == 1 then xs[0]
    else
      var rest := Max(xs[1..]);
      if xs[0] >= rest then xs[0] else rest
  }

  /** On a canonical list the maximum is the last element. */
  lemma MaxOfAscending(xs: seq<real>)
    requires xs != [] && StrictlyAscending(xs)
    ensures Max(xs) == xs[|xs| - 1]
  {
  }
}
