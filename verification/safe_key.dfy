/**
 * The key sanitiser (`safe_key`): turns an item's display name into the key that names
 * its state and history files. The name is stripped and lower-cased, every run of
 * characters other than `a`-`z` and `0`-`9` becomes one `_`, runs of `_` are collapsed,
 * `_` is stripped from both ends, the result is cut to 80 characters, and an empty
 * result becomes `item`.
 */
module KeySanitizer {
  import opened Wrappers
  import opened Text

  const MaxKeyLength: nat := 80
  const Fallback: string := "item"

  /** The characters a key keeps as they are (`[a-z0-9]`). */
  predicate IsKeyAlnum(c: char) {
    ('a' <= c <= 'z') || IsDigit(c)
  }

  /** `s` holds a letter, a digit or `_` at `i`. */
  predicate KeyCharAt(s: string, i: nat)
    requires i < |s|
  {
    IsKeyAlnum(s[i]) || s[i] == '_'
  }

  predicate KeyChars(s: string) {
    forall i: nat | i < |s| :: KeyCharAt(s, i)
  }

  /** `s` has `__` at `i`. */
  predicate DoubleUnderscoreAt(s: string, i: nat)
    requires i + 1 < |s|
  {
    s[i] == '_' && s[i + 1] == '_'
  }

  predicate NoDoubleUnderscore(s: string) {
    forall i: nat | i + 1 < |s| :: !DoubleUnderscoreAt(s, i)
  }

  /**
   * `str.lower` on one character, as far as it can matter for a key: `A`-`Z`, and the two
   * characters outside ASCII whose lower case holds an ASCII letter (U+0130, whose lower
   * case is `i` followed by U+0307, and the Kelvin sign U+212A, whose lower case is `k`).
   * Every other character is kept: its lower case is again outside `[a-z0-9]`.
   */
  function LowerChar(c: char): (r: string)
    ensures 1 <= |r| <= 2 && !IsUpper(r[0]) && !IsUpper(r[|r| - 1])
    ensures IsUpper(c) ==> r == [(c as int - 'A' as int + 'a' as int) as char]
    ensures IsKeyAlnum(c) ==> r == [c]
  {
    if 'A' <= c <= 'Z' then [(c as int + 32) as char]
    else if c == '\U{130}' then ['i', '\U{307}']
    else if c == '\U{212A}' then ['k']
    else [c]
  }

  predicate IsUpper(c: char) {
    'A' <= c <= 'Z'
  }

  /** `str.lower`, character by character: nothing gets shorter. */
  function Lower(s: string): (r: string)
    ensures |r| >= |s|
  {
    if s == [] then [] else Lower(s[..|s| - 1]) + LowerChar(s[|s| - 1])
  }

  /** No capital letter is left after lower-casing. */
  lemma {:induction false} LowerLeavesNoCapital(s: string)
    ensures forall i | 0 <= i < |Lower(s)| :: !IsUpper(Lower(s)[i])
  {
    if s != [] {
      var p, c := s[..|s| - 1], s[|s| - 1];
      LowerLeavesNoCapital(p);
      var l, m := Lower(p), LowerChar(c);
      assert Lower(s) == l + m;
      forall i | 0 <= i < |l + m|
        ensures !IsUpper((l + m)[i])
      {
        if i >= |l| {
          assert (l + m)[i] == m[i - |l|];
          assert i - |l| == 0 || i - |l| == |m| - 1;
        }
      }
    }
  }

  /** The letters and digits of `s`, in order. */
  function AlnumOnly(s: string): string {
    if s == [] then []
    else AlnumOnly(s[..|s| - 1]) + (if IsKeyAlnum(s[|s| - 1]) then [s[|s| - 1]] else [])
  }

  lemma {:induction false} AlnumOnlyConcat(a: string, b: string)
    ensures AlnumOnly(a + b) == AlnumOnly(a) + AlnumOnly(b)
    decreases |b|
  {
    if b != [] {
      assert (a + b)[..|a + b| - 1] == a + b[..|b| - 1];
      AlnumOnlyConcat(a, b[..|b| - 1]);
    } else {
      assert a + b == a;
    }
  }

  lemma {:induction false} LowerConcat(a: string, b: string)
    ensures Lower(a + b) == Lower(a) + Lower(b)
    decreases |b|
  {
    if b != [] {
      var b', c := b[..|b| - 1], b[|b| - 1];
      SplitLast(b);
      LowerConcat(a, b');
      Regroup(a, b', [c]);
      LowerStep(a + b', c);
      LowerStep(b', c);
      Regroup(Lower(a), Lower(b'), LowerChar(c));
    } else {
      EmptyParts(a);
      EmptyParts(Lower(a));
    }
  }

  lemma LowerStep(p: string, c: char)
    ensures Lower(p + [c]) == Lower(p) + LowerChar(c)
  {
    var s := p + [c];
    assert s[..|s| - 1] == p && s[|s| - 1] == c;
  }

  /** `re.sub(r"[^a-z0-9]+", "_", s)`: each maximal run of other characters becomes one `_`. */
  function ReplaceOtherRuns(s: string): (r: string)
    ensures KeyChars(r) && NoDoubleUnderscore(r)
    ensures (r == []) == (s == [])
    ensures r != [] ==> (r[|r| - 1] == '_' <==> !IsKeyAlnum(s[|s| - 1]))
  {
    if s == [] then []
    else
      var p := s[..|s| - 1];
      var c := s[|s| - 1];
      NoDoubleAppend(ReplaceOtherRuns(p), ReplacedLast(p, c));
      KeyCharsAppend(ReplaceOtherRuns(p), ReplacedLast(p, c));
      ReplaceOtherRuns(p) + ReplacedLast(p, c)
  }

  /** What the last character `c` after `p` adds: itself, nothing inside a run, or the run's `_`. */
  function ReplacedLast(p: string, c: char): string {
    if IsKeyAlnum(c) then [c]
    else if p != [] && !IsKeyAlnum(p[|p| - 1]) then []
    else ['_']
  }

  /** `re.sub(r"_+", "_", s)`: each run of `_` becomes one `_`. */
  function SquashUnderscores(s: string): (r: string)
    ensures NoDoubleUnderscore(r)
    ensures KeyChars(s) ==> KeyChars(r)
    ensures (r == []) == (s == [])
    ensures r != [] ==> r[|r| - 1] == s[|s| - 1]
  {
    if s == [] then []
    else
      var p := s[..|s| - 1];
      var c := s[|s| - 1];
      NoDoubleAppend(SquashUnderscores(p), SquashedLast(p, c));
      KeyCharsExtend(s, SquashUnderscores(p), SquashedLast(p, c));
      SquashUnderscores(p) + SquashedLast(p, c)
  }

  /** What the last character `c` after `p` adds: nothing when it repeats a `_`, else itself. */
  function SquashedLast(p: string, c: char): string {
    if c == '_' && p != [] && p[|p| - 1] == '_' then [] else [c]
  }

  function TrimUnderscoresStart(s: string): (r: string)
    ensures |r| <= |s| && r == s[|s| - |r|..]
    ensures forall i | 0 <= i < |s| - |r| :: s[i] == '_'
    ensures r == [] || r[0] != '_'
    ensures KeyChars(s) ==> KeyChars(r)
    ensures NoDoubleUnderscore(s) ==> NoDoubleUnderscore(r)
  {
    if s != [] && s[0] == '_' then
      SliceKeepsKeyShape(s, 1, |s|);
      assert s[1..|s|] == s[1..];
      var r := TrimUnderscoresStart(s[1..]);
      UnderscoresBefore(s, r);
      r
    else s
  }

  /** One more leading `_` before a suffix of `s[1..]` with only `_` before it. */
  lemma UnderscoresBefore(s: string, r: string)
    requires s != [] && s[0] == '_'
    requires |r| <= |s| - 1 && r == s[1..][|s| - 1 - |r|..]
    requires forall i | 0 <= i < |s| - 1 - |r| :: s[1..][i] == '_'
    ensures r == s[|s| - |r|..]
    ensures forall i | 0 <= i < |s| - |r| :: s[i] == '_'
  {
    forall i | 0 <= i < |s| - |r|
      ensures s[i] == '_'
    {
      if i > 0 {
        assert s[i] == s[1..][i - 1];
      }
    }
  }

  function TrimUnderscoresEnd(s: string): (r: string)
    ensures |r| <= |s| && r == s[..|r|]
    ensures forall i | |r| <= i < |s| :: s[i] == '_'
    ensures r == [] || r[|r| - 1] != '_'
    ensures s != [] && s[0] != '_' && r != [] ==> r[0] != '_'
    ensures KeyChars(s) ==> KeyChars(r)
    ensures NoDoubleUnderscore(s) ==> NoDoubleUnderscore(r)
  {
    if s != [] && s[|s| - 1] == '_' then
      SliceKeepsKeyShape(s, 0, |s| - 1);
      TrimUnderscoresEnd(s[..|s| - 1])
    else s
  }

  lemma SliceKeepsKeyShape(s: string, i: nat, j: nat)
    requires i <= j <= |s|
    ensures KeyChars(s) ==> KeyChars(s[i..j])
    ensures NoDoubleUnderscore(s) ==> NoDoubleUnderscore(s[i..j])
  {
    var t := s[i..j];
    assert forall k | 0 <= k < |t| :: t[k] == s[i + k];
    assert forall k: nat | k + 1 < |t| :: DoubleUnderscoreAt(t, k) == DoubleUnderscoreAt(s, i + k);
    assert forall k: nat | k < |t| :: KeyCharAt(t, k) == KeyCharAt(s, i + k);
  }

  /** Appending nothing or the last character of `s` keeps what the rest of `s` gave. */
  lemma KeyCharsExtend(s: string, r: string, last: string)
    requires s != [] && (KeyChars(s[..|s| - 1]) ==> KeyChars(r))
    requires last == [] || last == [s[|s| - 1]]
    ensures KeyChars(s) ==> KeyChars(r + last)
  {
    if KeyChars(s) {
      SliceKeepsKeyShape(s, 0, |s| - 1);
      assert s[0..|s| - 1] == s[..|s| - 1];
      assert KeyCharAt(s, |s| - 1);
      if last != [] {
        assert KeyCharAt(last, 0);
      }
      KeyCharsAppend(r, last);
    }
  }

  /** Joining two parts of letters, digits and `_` gives letters, digits and `_`. */
  lemma KeyCharsAppend(p: string, q: string)
    requires KeyChars(p) && KeyChars(q)
    ensures KeyChars(p + q)
  {
    var s := p + q;
    forall i: nat | i < |s|
      ensures KeyCharAt(s, i)
    {
      if i < |p| {
        assert KeyCharAt(p, i);
      } else {
        assert KeyCharAt(q, i - |p|);
      }
    }
  }

  /** Joining two parts without `__` gives none unless the join itself is `__`. */
  lemma NoDoubleAppend(p: string, q: string)
    requires NoDoubleUnderscore(p) && (|q| <= 1 || NoDoubleUnderscore(q))
    requires p == [] || q == [] || p[|p| - 1] != '_' || q[0] != '_'
    ensures NoDoubleUnderscore(p + q)
  {
    var s := p + q;
    forall i: nat | i + 1 < |s|
      ensures !DoubleUnderscoreAt(s, i)
    {
      if i + 1 < |p| {
        assert !DoubleUnderscoreAt(p, i);
      } else if i >= |p| {
        assert !DoubleUnderscoreAt(q, i - |p|);
      }
    }
  }

  /** The key before the length cut and the fallback. */
  function Normalize(s: string): (r: string)
    ensures KeyChars(r) && NoDoubleUnderscore(r)
    ensures r == [] || (r[0] != '_' && r[|r| - 1] != '_')
  {
    var squashed := SquashUnderscores(ReplaceOtherRuns(Lower(Strip(s))));
    TrimUnderscoresEnd(TrimUnderscoresStart(squashed))
  }

  lemma FallbackIsKey()
    ensures KeyChars(Fallback) && NoDoubleUnderscore(Fallback)
  {
    assert forall i: nat | i < |Fallback| :: KeyCharAt(Fallback, i);
  }

  /** `key` is `k` cut to its first 80 characters, or `item` when `k` is empty. */
  predicate CutOrFallback(k: string, key: string) {
    && (k == [] ==> key == Fallback)
    && (k != [] ==> key <= k && |key| == (if |k| < MaxKeyLength then |k| else MaxKeyLength))
  }

  /** `safe_key(s)`, with `None` read as the empty name. */
  function SafeKey(name: Option<string>): (key: string)
    ensures 0 < |key| <= MaxKeyLength
    ensures KeyChars(key) && NoDoubleUnderscore(key) && key[0] != '_'
    ensures CutOrFallback(Normalize(if name.Some? then name.value else ""), key)
  {
    var k := Normalize(if name.Some? then name.value else "");
    if k == [] then
      FallbackIsKey();
      Fallback
    else if |k| <= MaxKeyLength then k
    else
      CutKeepsKey(k);
      k[..MaxKeyLength]
  }

  lemma CutKeepsKey(k: string)
    requires |k| > MaxKeyLength && KeyChars(k) && NoDoubleUnderscore(k) && k[0] != '_'
    ensures var key := k[..MaxKeyLength];
      KeyChars(key) && NoDoubleUnderscore(key) && key[0] != '_' && CutOrFallback(k, key)
  {
    SliceKeepsKeyShape(k, 0, MaxKeyLength);
  }

  /** Characters whose lower case holds a letter or digit a key keeps. */
  predicate LowersToKeyAlnum(c: char) {
    IsKeyAlnum(c) || ('A' <= c <= 'Z') || c == '\U{130}' || c == '\U{212A}'
  }

  lemma {:induction false} LowerCharAlnums(c: char)
    ensures AlnumOnly(LowerChar(c)) != [] <==> LowersToKeyAlnum(c)
  {
    var l := LowerChar(c);
    if |l| == 2 {
      assert l[..1] == ['i'];
      assert AlnumOnly(['i']) == ['i'] by { assert ['i'][..0] == []; }
    } else {
      assert l[..0] == [];
    }
  }

  lemma {:induction false} ReplaceKeepsAlnums(s: string)
    ensures AlnumOnly(ReplaceOtherRuns(s)) == AlnumOnly(s)
  {
    if s != [] {
      var p := s[..|s| - 1];
      var c := s[|s| - 1];
      ReplaceKeepsAlnums(p);
      AlnumOnlyConcat(ReplaceOtherRuns(p), ReplacedLast(p, c));
      if IsKeyAlnum(c) {
        assert AlnumOnly([c]) == [c] by { assert [c][..0] == []; }
      } else if !(p != [] && !IsKeyAlnum(p[|p| - 1])) {
        assert AlnumOnly(['_']) == [] by { assert ['_'][..0] == []; }
      }
    }
  }

  lemma {:induction false} SquashKeepsAlnums(s: string)
    ensures AlnumOnly(SquashUnderscores(s)) == AlnumOnly(s)
  {
    if s != [] {
      var p := s[..|s| - 1];
      var c := s[|s| - 1];
      SquashKeepsAlnums(p);
      AlnumOnlyConcat(SquashUnderscores(p), SquashedLast(p, c));
      if !(c == '_' && p != [] && p[|p| - 1] == '_') {
        assert [c][..0] == [];
      }
    }
  }

  lemma SpacesLowerToNoAlnums(q: string)
    requires AllSpaces(q)
    ensures AlnumOnly(Lower(q)) == []
  {
    assert forall i | 0 <= i < |q| :: !LowersToKeyAlnum(q[i]);
    LowerAlnumsEmpty(q);
  }

  /** A part with no letters or digits once lower-cased can be dropped from either side. */
  lemma DropNoAlnums(p: string, q: string)
    ensures AlnumOnly(Lower(p)) == [] ==> AlnumOnly(Lower(p + q)) == AlnumOnly(Lower(q))
    ensures AlnumOnly(Lower(q)) == [] ==> AlnumOnly(Lower(p + q)) == AlnumOnly(Lower(p))
  {
    LowerConcat(p, q);
    AlnumOnlyConcat(Lower(p), Lower(q));
  }

  /** Whitespace before the text leaves its letters and digits alone. */
  lemma DropSpacesBefore(p: string, q: string)
    requires AllSpaces(p)
    ensures AlnumOnly(Lower(p + q)) == AlnumOnly(Lower(q))
  {
    SpacesLowerToNoAlnums(p);
    DropNoAlnums(p, q);
  }

  /** Whitespace after the text leaves its letters and digits alone. */
  lemma DropSpacesAfter(p: string, q: string)
    requires AllSpaces(q)
    ensures AlnumOnly(Lower(p + q)) == AlnumOnly(Lower(p))
  {
    SpacesLowerToNoAlnums(q);
    DropNoAlnums(p, q);
  }

  lemma TrimSpacesStartKeepsAlnums(s: string)
    ensures AlnumOnly(Lower(TrimSpacesStart(s))) == AlnumOnly(Lower(s))
  {
    var t := TrimSpacesStart(s);
    var pre := s[..|s| - |t|];
    assert AllSpaces(pre);
    assert s == pre + t;
    DropSpacesBefore(pre, t);
  }

  lemma TrimSpacesEndKeepsAlnums(s: string)
    ensures AlnumOnly(Lower(TrimSpacesEnd(s))) == AlnumOnly(Lower(s))
  {
    var t := TrimSpacesEnd(s);
    var post := s[|t|..];
    assert AllSpaces(post) by {
      assert forall i | 0 <= i < |post| :: post[i] == s[|t| + i];
    }
    assert s == t + post;
    DropSpacesAfter(t, post);
  }

  lemma StripKeepsAlnums(s: string)
    ensures AlnumOnly(Lower(Strip(s))) == AlnumOnly(Lower(s))
  {
    TrimSpacesStartKeepsAlnums(s);
    TrimSpacesEndKeepsAlnums(TrimSpacesStart(s));
  }

  lemma {:induction false} AlnumOnlyEmpty(q: string)
    ensures AlnumOnly(q) == [] <==> forall i | 0 <= i < |q| :: !IsKeyAlnum(q[i])
  {
    if q != [] {
      var p := q[..|q| - 1];
      AlnumOnlyEmpty(p);
      assert forall i | 0 <= i < |p| :: p[i] == q[i];
    }
  }

  /** Characters that are not letters or digits can be dropped from either end. */
  lemma DropNonAlnums(p: string, q: string)
    ensures (forall i | 0 <= i < |p| :: !IsKeyAlnum(p[i])) ==> AlnumOnly(p + q) == AlnumOnly(q)
    ensures (forall i | 0 <= i < |q| :: !IsKeyAlnum(q[i])) ==> AlnumOnly(p + q) == AlnumOnly(p)
  {
    AlnumOnlyEmpty(p);
    AlnumOnlyEmpty(q);
    AlnumOnlyConcat(p, q);
  }

  lemma TrimStartKeepsAlnums(x: string)
    ensures AlnumOnly(TrimUnderscoresStart(x)) == AlnumOnly(x)
  {
    var t := TrimUnderscoresStart(x);
    var pre := x[..|x| - |t|];
    assert x == pre + t;
    assert forall i | 0 <= i < |pre| :: !IsKeyAlnum(pre[i]) by {
      assert forall i | 0 <= i < |pre| :: pre[i] == '_';
    }
    DropNonAlnums(pre, t);
    assert AlnumOnly(pre + t) == AlnumOnly(t);
  }

  lemma TrimEndKeepsAlnums(x: string)
    ensures AlnumOnly(TrimUnderscoresEnd(x)) == AlnumOnly(x)
  {
    var t := TrimUnderscoresEnd(x);
    var post := x[|t|..];
    assert x == t + post;
    assert forall i | 0 <= i < |post| :: !IsKeyAlnum(post[i]) by {
      assert forall i | 0 <= i < |post| :: post[i] == '_';
    }
    DropNonAlnums(t, post);
    assert AlnumOnly(t + post) == AlnumOnly(t);
  }

  /** The key keeps every letter and digit of the lower-cased name, in order, and adds none. */
  lemma {:induction false} NormalizeKeepsAlnums(s: string)
    ensures AlnumOnly(Normalize(s)) == AlnumOnly(Lower(s))
  {
    var replaced := ReplaceOtherRuns(Lower(Strip(s)));
    var squashed := SquashUnderscores(replaced);
    StripKeepsAlnums(s);
    ReplaceKeepsAlnums(Lower(Strip(s)));
    SquashKeepsAlnums(replaced);
    TrimStartKeepsAlnums(squashed);
    TrimEndKeepsAlnums(TrimUnderscoresStart(squashed));
  }

  lemma {:induction false} LowerAlnumsEmpty(s: string)
    ensures AlnumOnly(Lower(s)) == [] <==> forall i | 0 <= i < |s| :: !LowersToKeyAlnum(s[i])
  {
    if s != [] {
      var p := s[..|s| - 1];
      var c := s[|s| - 1];
      LowerAlnumsEmpty(p);
      assert Lower(s) == Lower(p) + LowerChar(c);
      AlnumOnlyConcat(Lower(p), LowerChar(c));
      LowerCharAlnums(c);
      assert forall i | 0 <= i < |p| :: p[i] == s[i];
    }
  }

  /**
   * The key falls back to `item` exactly when no character of the name lower-cases to a
   * letter or digit; otherwise it starts with the first such letter or digit.
   */
  lemma {:induction false} SafeKeyFallback(s: string)
    ensures Normalize(s) == [] <==> forall i | 0 <= i < |s| :: !LowersToKeyAlnum(s[i])
    ensures Normalize(s) == [] ==> SafeKey(Some(s)) == Fallback
    ensures Normalize(s) != [] ==> [SafeKey(Some(s))[0]] <= AlnumOnly(Lower(s))
  {
    var r := Normalize(s);
    NormalizeKeepsAlnums(s);
    LowerAlnumsEmpty(s);
    if r != [] {
      assert KeyCharAt(r, 0);
    }
    LeadingAlnum(r);
  }

  /** A string that starts with a letter or digit has that letter or digit first among them. */
  lemma {:induction false} LeadingAlnum(r: string)
    requires r == [] || IsKeyAlnum(r[0])
    ensures r == [] <==> AlnumOnly(r) == []
    ensures r != [] ==> [r[0]] <= AlnumOnly(r)
  {
    if r != [] {
      AlnumOnlyConcat([r[0]], r[1..]);
      assert [r[0]] + r[1..] == r;
      assert AlnumOnly([r[0]]) == [r[0]] by { assert [r[0]][..0] == []; }
    }
  }

  // ---------------------------------------------------------------------------------
  // Where the `_` go: each run of other characters between two words becomes one `_`.

  /** A non-empty run of characters a key keeps as they are. */
  predicate IsWord(w: string) {
    w != [] && forall i | 0 <= i < |w| :: IsKeyAlnum(w[i])
  }

  /** A non-empty run of characters none of which lower-cases to a letter or digit. */
  predicate IsSeparator(o: string) {
    o != [] && forall i | 0 <= i < |o| :: !LowersToKeyAlnum(o[i])
  }

  // Sequence algebra, stated apart so that proofs about the key functions need not redo it.
  // These lemmas model nothing of the sanitiser; they only keep those proofs small.

  lemma Regroup(a: string, b: string, c: string)
    ensures (a + b) + c == a + (b + c)
  {
  }

  lemma EmptyParts(a: string)
    ensures [] + a == a && a + [] == a
  {
  }

  lemma SplitLast(y: string)
    requires y != []
    ensures y == y[..|y| - 1] + [y[|y| - 1]]
  {
  }

  /** The last character of `x + y` is that of `y`, so the last step does not see `x`. */
  lemma LastAfter(x: string, y: string)
    requires y != []
    ensures (x + y)[|x + y| - 1] == y[|y| - 1]
    ensures forall c :: ReplacedLast(x + y, c) == ReplacedLast(y, c)
    ensures forall c :: SquashedLast(x + y, c) == SquashedLast(y, c)
  {
  }

  lemma ReplaceStep(p: string, c: char)
    ensures ReplaceOtherRuns(p + [c]) == ReplaceOtherRuns(p) + ReplacedLast(p, c)
  {
    var s := p + [c];
    assert s[..|s| - 1] == p && s[|s| - 1] == c;
  }

  /** The replacement works part by part when the cut is not inside a run of other characters. */
  lemma {:induction false} ReplaceConcat(x: string, y: string)
    requires x == [] || y == [] || IsKeyAlnum(x[|x| - 1]) || IsKeyAlnum(y[0])
    ensures ReplaceOtherRuns(x + y) == ReplaceOtherRuns(x) + ReplaceOtherRuns(y)
    decreases |y|
  {
    if y == [] {
      EmptyParts(x);
    } else {
      var y', c := y[..|y| - 1], y[|y| - 1];
      SplitLast(y);
      if y' == [] {
        EmptyParts([c]);
        ReplaceConcatOne(x, c);
      } else {
        assert y'[0] == y[0];
        ReplaceConcat(x, y');
        ReplaceConcatLast(x, y', c);
      }
    }
  }

  lemma ReplaceConcatOne(x: string, c: char)
    requires x == [] || IsKeyAlnum(x[|x| - 1]) || IsKeyAlnum(c)
    ensures ReplaceOtherRuns(x + [c]) == ReplaceOtherRuns(x) + ReplaceOtherRuns([c])
  {
    ReplacedLastAtStart(x, c);
    ReplaceStep(x, c);
    ReplaceStep([], c);
    EmptyParts([c]);
    EmptyParts(ReplacedLast([], c));
  }

  /** After a letter or digit, the last step acts as at the start of the text. */
  lemma ReplacedLastAtStart(x: string, c: char)
    requires x == [] || IsKeyAlnum(x[|x| - 1]) || IsKeyAlnum(c)
    ensures ReplacedLast(x, c) == ReplacedLast([], c)
  {
  }

  lemma ReplaceConcatLast(x: string, y: string, c: char)
    requires y != [] && ReplaceOtherRuns(x + y) == ReplaceOtherRuns(x) + ReplaceOtherRuns(y)
    ensures ReplaceOtherRuns(x + (y + [c])) == ReplaceOtherRuns(x) + ReplaceOtherRuns(y + [c])
  {
    Regroup(x, y, [c]);
    ReplaceStep(x + y, c);
    ReplaceStep(y, c);
    LastAfter(x, y);
    Regroup(ReplaceOtherRuns(x), ReplaceOtherRuns(y), ReplacedLast(y, c));
  }

  /** A run of characters other than `[a-z0-9]` becomes a single `_`. */
  lemma {:induction false} ReplaceRun(o: string)
    requires o != [] && forall i | 0 <= i < |o| :: !IsKeyAlnum(o[i])
    ensures ReplaceOtherRuns(o) == "_"
  {
    var p := o[..|o| - 1];
    if p != [] {
      assert forall i | 0 <= i < |p| :: p[i] == o[i];
      ReplaceRun(p);
    }
  }

  /** A word is kept as it is. */
  lemma {:induction false} ReplaceWord(w: string)
    requires forall i | 0 <= i < |w| :: IsKeyAlnum(w[i])
    ensures ReplaceOtherRuns(w) == w
  {
    if w != [] {
      var p := w[..|w| - 1];
      assert forall i | 0 <= i < |p| :: p[i] == w[i];
      ReplaceWord(p);
    }
  }

  /**
   * `re.sub(r"[^a-z0-9]+", "_", ...)` on word, separator run, rest: the run between a
   * letter or digit and a letter or digit becomes exactly one `_`, and both sides are
   * replaced on their own.
   */
  lemma ReplaceSeparates(a: string, o: string, b: string)
    requires a != [] && IsKeyAlnum(a[|a| - 1])
    requires o != [] && forall i | 0 <= i < |o| :: !IsKeyAlnum(o[i])
    requires b != [] && IsKeyAlnum(b[0])
    ensures ReplaceOtherRuns(a + o + b) == ReplaceOtherRuns(a) + "_" + ReplaceOtherRuns(b)
  {
    ReplaceConcat(o, b);
    assert (o + b)[0] == o[0];
    ReplaceConcat(a, o + b);
    Regroup(a, o, b);
    ReplaceRun(o);
    Regroup(ReplaceOtherRuns(a), "_", ReplaceOtherRuns(b));
  }

  lemma SquashStep(p: string, c: char)
    ensures SquashUnderscores(p + [c]) == SquashUnderscores(p) + SquashedLast(p, c)
  {
    var s := p + [c];
    assert s[..|s| - 1] == p && s[|s| - 1] == c;
  }

  /** Collapsing `_` runs works part by part when the cut is not inside a run of `_`. */
  lemma {:induction false} SquashConcat(x: string, y: string)
    requires x == [] || y == [] || x[|x| - 1] != '_' || y[0] != '_'
    ensures SquashUnderscores(x + y) == SquashUnderscores(x) + SquashUnderscores(y)
    decreases |y|
  {
    if y == [] {
      EmptyParts(x);
    } else {
      var y', c := y[..|y| - 1], y[|y| - 1];
      SplitLast(y);
      if y' == [] {
        EmptyParts([c]);
        SquashConcatOne(x, c);
      } else {
        assert y'[0] == y[0];
        SquashConcat(x, y');
        SquashConcatLast(x, y', c);
      }
    }
  }

  lemma SquashConcatOne(x: string, c: char)
    requires x == [] || x[|x| - 1] != '_' || c != '_'
    ensures SquashUnderscores(x + [c]) == SquashUnderscores(x) + SquashUnderscores([c])
  {
    SquashedLastAtStart(x, c);
    SquashStep(x, c);
    SquashStep([], c);
    EmptyParts([c]);
    EmptyParts(SquashedLast([], c));
  }

  /** After anything but `_`, the last step acts as at the start of the text. */
  lemma SquashedLastAtStart(x: string, c: char)
    requires x == [] || x[|x| - 1] != '_' || c != '_'
    ensures SquashedLast(x, c) == SquashedLast([], c)
  {
  }

  lemma SquashConcatLast(x: string, y: string, c: char)
    requires y != [] && SquashUnderscores(x + y) == SquashUnderscores(x) + SquashUnderscores(y)
    ensures SquashUnderscores(x + (y + [c])) == SquashUnderscores(x) + SquashUnderscores(y + [c])
  {
    Regroup(x, y, [c]);
    SquashStep(x + y, c);
    SquashStep(y, c);
    LastAfter(x, y);
    Regroup(SquashUnderscores(x), SquashUnderscores(y), SquashedLast(y, c));
  }

  /** Text without `__` comes back unchanged from collapsing `_` runs. */
  lemma {:induction false} SquashKeepsSingles(s: string)
    requires NoDoubleUnderscore(s)
    ensures SquashUnderscores(s) == s
  {
    if s != [] {
      var p := s[..|s| - 1];
      SliceKeepsKeyShape(s, 0, |s| - 1);
      SquashKeepsSingles(p);
      if p != [] {
        assert s[|s| - 2] == p[|p| - 1];
        assert !DoubleUnderscoreAt(s, |s| - 2);
      }
    }
  }

  /** Lower-casing keeps text that has no capital and neither U+0130 nor U+212A. */
  lemma {:induction false} LowerKeeps(s: string)
    requires forall i | 0 <= i < |s| :: IsKeyAlnum(s[i]) || !LowersToKeyAlnum(s[i])
    ensures Lower(s) == s
  {
    if s != [] {
      var p, c := s[..|s| - 1], s[|s| - 1];
      assert forall i | 0 <= i < |p| :: p[i] == s[i];
      LowerKeeps(p);
      assert LowerChar(c) == [c] by { assert IsKeyAlnum(c) || !LowersToKeyAlnum(c); }
      assert s == p + [c];
    }
  }

  /** Trailing whitespace is cut from the second part only when that part has a non-space. */
  lemma {:induction false} TrimSpacesEndConcat(x: string, y: string)
    requires y != [] && !IsSpace(y[0])
    ensures TrimSpacesEnd(x + y) == x + TrimSpacesEnd(y)
    decreases |y|
  {
    assert (x + y)[|x + y| - 1] == y[|y| - 1];
    if IsSpace(y[|y| - 1]) {
      var y' := y[..|y| - 1];
      assert (x + y)[..|x + y| - 1] == x + y';
      TrimSpacesEndConcat(x, y');
    }
  }

  /** Trailing `_` are cut from the second part only when it does not start with `_`. */
  lemma {:induction false} TrimUnderscoresEndConcat(x: string, y: string)
    requires y != [] && y[0] != '_'
    ensures TrimUnderscoresEnd(x + y) == x + TrimUnderscoresEnd(y)
    decreases |y|
  {
    assert (x + y)[|x + y| - 1] == y[|y| - 1];
    if y[|y| - 1] == '_' {
      var y' := y[..|y| - 1];
      assert (x + y)[..|x + y| - 1] == x + y';
      TrimUnderscoresEndConcat(x, y');
    }
  }

  /** Text that starts on a letter or digit loses only its trailing whitespace to `strip`. */
  lemma StripFromWord(x: string)
    requires x != [] && IsKeyAlnum(x[0])
    ensures Strip(x) == TrimSpacesEnd(x)
    ensures Strip(x) != [] && Strip(x)[0] == x[0]
  {
    assert TrimSpacesStart(x) == x;
  }

  lemma LowerFirst(t: string)
    requires t != [] && IsKeyAlnum(t[0])
    ensures Lower(t) != [] && Lower(t)[0] == t[0]
  {
    assert t == [t[0]] + t[1..];
    LowerConcat([t[0]], t[1..]);
    LowerKeeps([t[0]]);
  }

  lemma ReplaceFirst(t: string)
    requires t != [] && IsKeyAlnum(t[0])
    ensures ReplaceOtherRuns(t) != [] && ReplaceOtherRuns(t)[0] == t[0]
  {
    assert t == [t[0]] + t[1..];
    ReplaceConcat([t[0]], t[1..]);
    ReplaceWord([t[0]]);
  }

  lemma SquashFirst(t: string)
    requires t != [] && t[0] != '_'
    ensures SquashUnderscores(t) != [] && SquashUnderscores(t)[0] == t[0]
  {
    assert t == [t[0]] + t[1..];
    SquashConcat([t[0]], t[1..]);
    assert SquashUnderscores([t[0]]) == [t[0]] by { assert [t[0]][..0] == []; }
  }

  /** `strip` on word, separator, rest keeps the word and the separator. */
  lemma StripWordThenRest(w: string, o: string, s: string)
    requires IsWord(w) && s != [] && IsKeyAlnum(s[0])
    ensures Strip(w + o + s) == w + o + Strip(s)
    ensures Strip(s) != [] && Strip(s)[0] == s[0]
  {
    StripFromWord(w + o + s);
    TrimSpacesEndConcat(w + o, s);
    StripFromWord(s);
  }

  /** Lower-casing and replacing runs on word, separator, rest puts one `_` between them. */
  lemma ReplaceWordThenRest(w: string, o: string, t: string)
    requires IsWord(w) && IsSeparator(o) && t != [] && IsKeyAlnum(t[0])
    ensures ReplaceOtherRuns(Lower(w + o + t)) == w + "_" + ReplaceOtherRuns(Lower(t))
    ensures ReplaceOtherRuns(Lower(t)) != [] && IsKeyAlnum(ReplaceOtherRuns(Lower(t))[0])
  {
    LowerConcat(w + o, t);
    LowerConcat(w, o);
    LowerKeeps(w);
    LowerKeeps(o);
    LowerFirst(t);
    var l := Lower(t);
    assert Lower(w + o + t) == w + o + l;
    ReplaceSeparates(w, o, l);
    ReplaceWord(w);
    ReplaceFirst(l);
  }

  lemma SquashWordThenRest(w: string, q: string)
    requires IsWord(w) && q != [] && IsKeyAlnum(q[0])
    ensures SquashUnderscores(w + "_" + q) == w + "_" + SquashUnderscores(q)
  {
    SquashConcat(w + "_", q);
    SquashConcat(w, "_");
    assert SquashUnderscores("_") == "_" by { assert "_"[..0] == []; }
    SquashKeepsSingles(w);
  }

  /** Trimming `_` from both ends of word, `_`, rest touches the rest only. */
  lemma TrimWordThenRest(w: string, y: string)
    requires IsWord(w) && y != [] && y[0] != '_'
    ensures TrimUnderscoresEnd(TrimUnderscoresStart(w + "_" + y))
         == w + "_" + TrimUnderscoresEnd(TrimUnderscoresStart(y))
  {
    assert TrimUnderscoresStart(w + "_" + y) == w + "_" + y;
    assert TrimUnderscoresStart(y) == y;
    TrimUnderscoresEndConcat(w + "_", y);
  }

  /** Collapsing and trimming `_` on word, `_`, rest keeps the word and its `_`. */
  lemma TidyWordThenRest(w: string, q: string)
    requires IsWord(w) && q != [] && IsKeyAlnum(q[0])
    ensures TrimUnderscoresEnd(TrimUnderscoresStart(SquashUnderscores(w + "_" + q)))
         == w + "_" + TrimUnderscoresEnd(TrimUnderscoresStart(SquashUnderscores(q)))
  {
    SquashWordThenRest(w, q);
    SquashFirst(q);
    TrimWordThenRest(w, SquashUnderscores(q));
  }

  /**
   * A word, a run of other characters, then more text starting on a letter or digit:
   * the key is the word, one `_`, and the key of the rest.
   */
  lemma NormalizeWordThenRest(w: string, o: string, s: string)
    requires IsWord(w) && IsSeparator(o) && s != [] && IsKeyAlnum(s[0])
    ensures Normalize(w + o + s) == w + "_" + Normalize(s)
  {
    StripWordThenRest(w, o, s);
    ReplaceWordThenRest(w, o, Strip(s));
    TidyWordThenRest(w, ReplaceOtherRuns(Lower(Strip(s))));
  }

  /** A single word is its own key. */
  lemma NormalizeWord(w: string)
    requires IsWord(w)
    ensures Normalize(w) == w
  {
    StripFromWord(w);
    assert TrimSpacesEnd(w) == w;
    LowerKeeps(w);
    ReplaceWord(w);
    SquashKeepsSingles(w);
    TrimWord(w);
  }

  lemma TrimWord(w: string)
    requires IsWord(w)
    ensures TrimUnderscoresEnd(TrimUnderscoresStart(w)) == w
  {
    assert w[0] != '_' && w[|w| - 1] != '_';
    assert TrimUnderscoresStart(w) == w;
    assert TrimUnderscoresEnd(w) == w;
  }

  /** Two words with a run of other characters between them are joined by one `_`. */
  lemma TwoWordsKey(w: string, o: string, v: string)
    requires IsWord(w) && IsSeparator(o) && IsWord(v) && |w| + 1 + |v| <= MaxKeyLength
    ensures SafeKey(Some(w + o + v)) == w + "_" + v
  {
    NormalizeWordThenRest(w, o, v);
    NormalizeWord(v);
  }
}
