/** The two regexes of the generic extractor that are not tag patterns: the salary
    pattern `\$[\d,]+(?:\s*-\s*\$[\d,]+)?(?:\s*\/?\s*(?:year|yr|annual|hour|hr))?`
    run over the whole page, and the split of the page title by
    `(.*?)(?:\s*-\s*|\s*at\s*|\s*\|\s*)([^-|]+)`. Both use the `/i` flag. */
module GenericRules {
  import opened Strings
  import opened Patterns

  predicate IsDigitOrComma(c: char) { '0' <= c <= '9' || c == ',' }

  // ---------------------------------------------------------------------------
  // Salary

  /** The optional range `\s*-\s*\$[\d,]+` at `p`: where it ends, if it is there.
      Neither `\s*` can give anything back usefully (a shorter run stops at white
      space, not at `-` or `$`), and the greedy `[\d,]+` keeps its longest run since
      nothing after it is required. */
  function RangeAt(s: seq<char>, p: nat): (r: Option<nat>)
    requires p <= |s|
    ensures r.Some? ==> p < r.value <= |s| && IsDigitOrComma(s[r.value - 1])
  {
    var w := SpanWhile(s, p, IsSpace);
    if w < |s| && s[w] == '-' then
      var w2 := SpanWhile(s, w + 1, IsSpace);
      if w2 + 1 < |s| && s[w2] == '$' && IsDigitOrComma(s[w2 + 1])
      then Some(SpanWhile(s, w2 + 1, IsDigitOrComma))
      else None
    else None
  }

  /** `\s*-\s*\$[\d,]+` matches `s[p..f]`. */
  ghost predicate RangeMatches(s: seq<char>, p: nat, f: nat) {
    exists w: nat, w2: nat ::
      p <= w < w2 && w2 + 1 < f <= |s| && All(s, p, w, IsSpace) && s[w] == '-' &&
      All(s, w + 1, w2, IsSpace) && s[w2] == '$' && All(s, w2 + 1, f, IsDigitOrComma)
  }

  /** The range scanner reports the longest end the range regex can match to, and
      finds one whenever the regex can match at all. */
  lemma RangeAtCorrect(s: seq<char>, p: nat, f: nat)
    requires p <= |s|
    ensures RangeAt(s, p) == Some(f) ==> RangeMatches(s, p, f) && (f == |s| || !IsDigitOrComma(s[f]))
    ensures RangeMatches(s, p, f) ==> RangeAt(s, p).Some? && f <= RangeAt(s, p).value
  {
    var w := SpanWhile(s, p, IsSpace);
    if RangeAt(s, p) == Some(f) {
      var w2 := SpanWhile(s, w + 1, IsSpace);
      assert p <= w < w2;
    }
    if RangeMatches(s, p, f) {
      var w', w2' := RangeParts(s, p, f);
      SpanWhileUnique(s, p, w', IsSpace);
      SpanWhileUnique(s, w + 1, w2', IsSpace);
    }
  }

  /** Where the `-` and the `$` of a range match are. */
  lemma RangeParts(s: seq<char>, p: nat, f: nat) returns (w: nat, w2: nat)
    requires RangeMatches(s, p, f)
    ensures p <= w < w2 && w2 + 1 < f <= |s| && All(s, p, w, IsSpace) && s[w] == '-'
    ensures All(s, w + 1, w2, IsSpace) && s[w2] == '$' && All(s, w2 + 1, f, IsDigitOrComma)
  {
    w, w2 :| p <= w < w2 && w2 + 1 < f <= |s| && All(s, p, w, IsSpace) && s[w] == '-' &&
      All(s, w + 1, w2, IsSpace) && s[w2] == '$' && All(s, w2 + 1, f, IsDigitOrComma);
  }

  /** The pay-period words in the order the alternation tries them. */
  const PayPeriods: seq<string> := ["year", "yr", "annual", "hour", "hr"]

  /** The first of `words` that occurs at `u` (an alternation tried in order). */
  function FirstWordAt(s: seq<char>, u: nat, words: seq<string>): (r: Option<nat>)
    ensures r.Some? ==> exists k | 0 <= k < |words| :: LiteralAt(s, u, words[k]) && r.value == u + |words[k]|
    ensures r.None? ==> forall k | 0 <= k < |words| :: !LiteralAt(s, u, words[k])
    decreases |words|
  {
    if words == [] then None
    else if LiteralAt(s, u, words[0]) then Some(u + |words[0]|)
    else
      var r := FirstWordAt(s, u, words[1..]);
      assert forall k | 1 <= k < |words| :: words[k] == words[1..][k - 1];
      r
  }

  /** The alternation `words[0]|words[1]|...` tried at `u` ends at `f`: `words[k]`
      occurs there and no earlier alternative does. */
  ghost predicate FirstWordMatches(s: seq<char>, u: nat, words: seq<string>, f: nat) {
    exists k | 0 <= k < |words| ::
      LiteralAt(s, u, words[k]) && f == u + |words[k]| &&
      forall k' | 0 <= k' < k :: !LiteralAt(s, u, words[k'])
  }

  /** The alternation scanner picks the first alternative, in order, that occurs. */
  lemma {:induction false} FirstWordAtFirst(s: seq<char>, u: nat, words: seq<string>, f: nat)
    ensures FirstWordAt(s, u, words) == Some(f) <==> FirstWordMatches(s, u, words, f)
    decreases |words|
  {
    if words != [] && !LiteralAt(s, u, words[0]) {
      var rest := words[1..];
      FirstWordAtFirst(s, u, rest, f);
      if FirstWordMatches(s, u, rest, f) {
        var k := FirstWordParts(s, u, rest, f);
        assert forall k' | 0 <= k' < k + 1 :: !LiteralAt(s, u, words[k']) by {
          assert forall k' | 1 <= k' < k + 1 :: words[k'] == rest[k' - 1];
        }
        assert words[k + 1] == rest[k];
      }
      if FirstWordMatches(s, u, words, f) {
        var k := FirstWordParts(s, u, words, f);
        assert forall k' | 0 <= k' < k - 1 :: !LiteralAt(s, u, rest[k']) by {
          assert forall k' | 0 <= k' < k - 1 :: rest[k'] == words[k' + 1];
        }
        assert rest[k - 1] == words[k];
      }
    } else if words != [] {
      if FirstWordMatches(s, u, words, f) {
        var k := FirstWordParts(s, u, words, f);
        assert k == 0;
      }
      assert FirstWordMatches(s, u, words, u + |words[0]|);
    }
  }

  /** The alternative a match of the alternation took. */
  lemma FirstWordParts(s: seq<char>, u: nat, words: seq<string>, f: nat) returns (k: nat)
    requires FirstWordMatches(s, u, words, f)
    ensures k < |words| && LiteralAt(s, u, words[k]) && f == u + |words[k]|
    ensures forall k' | 0 <= k' < k :: !LiteralAt(s, u, words[k'])
  {
    k :| 0 <= k < |words| && LiteralAt(s, u, words[k]) && f == u + |words[k]| &&
      forall k' | 0 <= k' < k :: !LiteralAt(s, u, words[k']);
  }

  /** A pay-period word matched at `u` ends in a letter, never in white space. */
  lemma PeriodEndsInLetter(s: seq<char>, u: nat, k: nat)
    requires k < |PayPeriods| && LiteralAt(s, u, PayPeriods[k])
    ensures u < u + |PayPeriods[k]| <= |s| && !IsSpace(s[u + |PayPeriods[k]| - 1])
  {
    var w := PayPeriods[k];
    assert Lower(s[u + (|w| - 1)]) == Lower(w[|w| - 1]);
  }

  /** The pay-period word the alternation finds at `u` ends in a letter. */
  lemma FoundPeriodEndsInLetter(s: seq<char>, u: nat)
    requires FirstWordAt(s, u, PayPeriods).Some?
    ensures var f := FirstWordAt(s, u, PayPeriods).value; u < f <= |s| && !IsSpace(s[f - 1])
  {
    var k :| 0 <= k < |PayPeriods| && LiteralAt(s, u, PayPeriods[k]) &&
      FirstWordAt(s, u, PayPeriods).value == u + |PayPeriods[k]|;
    PeriodEndsInLetter(s, u, k);
  }

  /** Where `\s*\/?\s*` started at `p` leaves the pay-period word to be tried. */
  function PeriodStart(s: seq<char>, p: nat): (u: nat)
    requires p <= |s|
    ensures p <= u <= |s|
  {
    var w := SpanWhile(s, p, IsSpace);
    if w < |s| && s[w] == '/' then SpanWhile(s, w + 1, IsSpace) else w
  }

  /** The optional pay period `\s*\/?\s*(?:year|yr|annual|hour|hr)` at `p`. */
  function PeriodAt(s: seq<char>, p: nat): (r: Option<nat>)
    requires p <= |s|
    ensures r.Some? ==> p < r.value <= |s| && !IsSpace(s[r.value - 1])
  {
    var u := PeriodStart(s, p);
    var r := FirstWordAt(s, u, PayPeriods);
    if r.Some? then FoundPeriodEndsInLetter(s, u); r else r
  }

  /** `\s*\/?\s*(?:year|yr|annual|hour|hr)` matches `s[p..f]`. */
  ghost predicate PeriodMatches(s: seq<char>, p: nat, f: nat) {
    exists w: nat, u: nat, k: nat ::
      p <= w <= u && All(s, p, w, IsSpace) &&
      (u == w || (w < |s| && s[w] == '/' && All(s, w + 1, u, IsSpace))) &&
      k < |PayPeriods| && LiteralAt(s, u, PayPeriods[k]) && f == u + |PayPeriods[k]|
  }

  /** A literal of two or more characters that occurs at `u` fixes the first two
      characters there, up to case. */
  lemma LiteralHead(s: seq<char>, u: nat, lit: string)
    requires |lit| >= 2 && LiteralAt(s, u, lit)
    ensures u + 1 < |s| && Lower(s[u]) == Lower(lit[0]) && Lower(s[u + 1]) == Lower(lit[1])
  {
    assert Lower(s[u + 0]) == Lower(lit[0]) && Lower(s[u + 1]) == Lower(lit[1]);
  }

  /** No two pay-period words match at the same place. */
  lemma PeriodWordsExclusive(s: seq<char>, u: nat, k: nat, k': nat)
    requires k < |PayPeriods| && k' < |PayPeriods| && k != k'
    ensures !(LiteralAt(s, u, PayPeriods[k]) && LiteralAt(s, u, PayPeriods[k']))
  {
    if LiteralAt(s, u, PayPeriods[k]) && LiteralAt(s, u, PayPeriods[k']) {
      LiteralHead(s, u, PayPeriods[k]);
      LiteralHead(s, u, PayPeriods[k']);
    }
  }

  /** The pay-period scanner finds exactly the end the pay-period regex matches to:
      the regex can match to only one end. */
  lemma PeriodAtCorrect(s: seq<char>, p: nat, f: nat)
    requires p <= |s|
    ensures PeriodAt(s, p) == Some(f) <==> PeriodMatches(s, p, f)
  {
    if PeriodAt(s, p) == Some(f) {
      PeriodAtSound(s, p, f);
    }
    if PeriodMatches(s, p, f) {
      var w, u, k := PeriodParts(s, p, f);
      PeriodAtComplete(s, p, w, u, k);
    }
  }

  /** The white space, the start of the word and the word of a pay-period match. */
  lemma PeriodParts(s: seq<char>, p: nat, f: nat) returns (w: nat, u: nat, k: nat)
    requires PeriodMatches(s, p, f)
    ensures p <= w <= u && All(s, p, w, IsSpace)
    ensures u == w || (w < |s| && s[w] == '/' && All(s, w + 1, u, IsSpace))
    ensures k < |PayPeriods| && LiteralAt(s, u, PayPeriods[k]) && f == u + |PayPeriods[k]|
  {
    w, u, k :| p <= w <= u && All(s, p, w, IsSpace) &&
      (u == w || (w < |s| && s[w] == '/' && All(s, w + 1, u, IsSpace))) &&
      k < |PayPeriods| && LiteralAt(s, u, PayPeriods[k]) && f == u + |PayPeriods[k]|;
  }

  /** A pay period the regex matches from `p`, given by its parts: the scanner
      finds it. */
  lemma PeriodAtComplete(s: seq<char>, p: nat, w: nat, u: nat, k: nat)
    requires p <= w <= u && All(s, p, w, IsSpace)
    requires u == w || (w < |s| && s[w] == '/' && All(s, w + 1, u, IsSpace))
    requires k < |PayPeriods| && LiteralAt(s, u, PayPeriods[k])
    ensures PeriodAt(s, p) == Some(u + |PayPeriods[k]|)
  {
    PeriodWordStart(s, p, w, u, k);
    PeriodWordFirst(s, u, k);
  }

  lemma PeriodAtSound(s: seq<char>, p: nat, f: nat)
    requires p <= |s| && PeriodAt(s, p) == Some(f)
    ensures PeriodMatches(s, p, f)
  {
    var w := SpanWhile(s, p, IsSpace);
    var u := PeriodStart(s, p);
    var k :| 0 <= k < |PayPeriods| && LiteralAt(s, u, PayPeriods[k]) && f == u + |PayPeriods[k]|;
    assert p <= w <= u && All(s, p, w, IsSpace);
  }

  /** A pay-period word the regex can reach from `p` starts where the scanner
      looks for it. */
  lemma PeriodWordStart(s: seq<char>, p: nat, w: nat, u: nat, k: nat)
    requires p <= w <= u && All(s, p, w, IsSpace)
    requires u == w || (w < |s| && s[w] == '/' && All(s, w + 1, u, IsSpace))
    requires k < |PayPeriods| && LiteralAt(s, u, PayPeriods[k])
    ensures p <= |s| && u == PeriodStart(s, p)
  {
    PeriodWordStartsWithLetter(s, u, k);
    SpanWhileUnique(s, p, w, IsSpace);
    if u != w {
      SpanWhileUnique(s, w + 1, u, IsSpace);
    }
  }

  /** A pay-period word starts with a letter: neither white space nor `/`. */
  lemma PeriodWordStartsWithLetter(s: seq<char>, u: nat, k: nat)
    requires k < |PayPeriods| && LiteralAt(s, u, PayPeriods[k])
    ensures u < |s| && !IsSpace(s[u]) && s[u] != '/'
  {
    LiteralHead(s, u, PayPeriods[k]);
  }

  /** Only one pay-period word occurs at `u`, so the alternation picks it. */
  lemma PeriodWordFirst(s: seq<char>, u: nat, k: nat)
    requires k < |PayPeriods| && LiteralAt(s, u, PayPeriods[k])
    ensures FirstWordAt(s, u, PayPeriods) == Some(u + |PayPeriods[k]|)
  {
    forall k' | 0 <= k' < k ensures !LiteralAt(s, u, PayPeriods[k']) {
      PeriodWordsExclusive(s, u, k', k);
    }
    assert FirstWordMatches(s, u, PayPeriods, u + |PayPeriods[k]|);
    FirstWordAtFirst(s, u, PayPeriods, u + |PayPeriods[k]|);
  }

  /** Where the match ends after the optional range that may follow the digit run
      ending at `d`. */
  function RangeEnd(s: seq<char>, d: nat): (e: nat)
    requires 0 < d <= |s| && IsDigitOrComma(s[d - 1])
    ensures d <= e <= |s| && IsDigitOrComma(s[e - 1])
    ensures RangeAt(s, d).Some? ==> e == RangeAt(s, d).value
    ensures RangeAt(s, d).None? ==> e == d
  {
    var range := RangeAt(s, d);
    if range.Some? then range.value else d
  }

  /** The optional range and pay period after the digit run that ends at `d`: where
      the match ends. Each optional part is taken when it is there. */
  function SalaryEnd(s: seq<char>, d: nat): (e: nat)
    requires 0 < d <= |s| && IsDigitOrComma(s[d - 1])
    ensures d <= e <= |s| && !IsSpace(s[e - 1])
    ensures PeriodAt(s, RangeEnd(s, d)).Some? ==> e == PeriodAt(s, RangeEnd(s, d)).value
    ensures PeriodAt(s, RangeEnd(s, d)).None? ==> e == RangeEnd(s, d)
  {
    var e1 := RangeEnd(s, d);
    assert !IsSpace(s[e1 - 1]);
    var period := PeriodAt(s, e1);
    if period.Some? then
      assert !IsSpace(s[period.value - 1]);
      period.value
    else e1
  }

  /** The salary regex tried at `i`: the end of `match[0]`, which starts at `i`. It
      matches exactly when a `$` is followed by a digit or comma (everything after is
      optional); then the digit run, the range and the pay period are each taken as
      long as they go, since the regex's greedy parts succeed at their longest. */
  function SalaryAt(s: seq<char>, i: nat): (r: Option<nat>)
    ensures r.Some? <==> i + 1 < |s| && s[i] == '$' && IsDigitOrComma(s[i + 1])
    ensures r.Some? ==> SpanWhile(s, i + 1, IsDigitOrComma) <= r.value <= |s|
    ensures r.Some? ==> !IsSpace(s[r.value - 1])
  {
    if i + 1 < |s| && s[i] == '$' && IsDigitOrComma(s[i + 1]) then
      var d := SpanWhile(s, i + 1, IsDigitOrComma);
      assert IsDigitOrComma(s[d - 1]);
      Some(SalaryEnd(s, d))
    else None
  }

  /** The optional range after a digit run ending at `d` is taken when it can match,
      to its longest end `e` (then no digit or comma follows); `e` is `d` when it
      cannot match at all. */
  ghost predicate RangeTaken(s: seq<char>, d: nat, e: nat) {
    (e <= |s| && RangeMatches(s, d, e) && (e == |s| || !IsDigitOrComma(s[e]))) ||
    (e == d && forall f: nat :: !RangeMatches(s, d, f))
  }

  /** The optional pay period at `p` is taken when it can match; `e` is `p` when it
      cannot. */
  ghost predicate PeriodTaken(s: seq<char>, p: nat, e: nat) {
    PeriodMatches(s, p, e) || (e == p && forall f: nat :: !PeriodMatches(s, p, f))
  }

  /** What the salary regex matches at `i` under the engine's choice: `$`, the longest
      run of digits and commas, then the range and the pay period, each taken when it
      can match. */
  ghost predicate SalaryMatches(s: seq<char>, i: nat, e: nat) {
    exists d: nat, e1: nat ::
      i + 1 < d <= |s| && s[i] == '$' && All(s, i + 1, d, IsDigitOrComma) &&
      (d == |s| || !IsDigitOrComma(s[d])) && RangeTaken(s, d, e1) && PeriodTaken(s, e1, e)
  }

  /** The range scanner's answer is the range taken. */
  lemma RangeAtTaken(s: seq<char>, d: nat)
    requires d <= |s|
    ensures RangeTaken(s, d, if RangeAt(s, d).Some? then RangeAt(s, d).value else d)
  {
    if RangeAt(s, d).Some? {
      RangeAtCorrect(s, d, RangeAt(s, d).value);
    } else {
      forall f: nat
        ensures !RangeMatches(s, d, f)
      {
        RangeAtCorrect(s, d, f);
      }
    }
  }

  /** Only the scanner's answer is the range taken. */
  lemma RangeTakenUnique(s: seq<char>, d: nat, e: nat)
    requires d <= |s| && RangeTaken(s, d, e)
    ensures e == if RangeAt(s, d).Some? then RangeAt(s, d).value else d
  {
    if e <= |s| && RangeMatches(s, d, e) && (e == |s| || !IsDigitOrComma(s[e])) {
      var w, w2 := RangeParts(s, d, e);
      SpanWhileUnique(s, d, w, IsSpace);
      SpanWhileUnique(s, w + 1, w2, IsSpace);
      SpanWhileUnique(s, w2 + 1, e, IsDigitOrComma);
    } else if RangeAt(s, d).Some? {
      RangeAtCorrect(s, d, RangeAt(s, d).value);
    }
  }

  /** The period scanner's answer is the period taken. */
  lemma PeriodAtTaken(s: seq<char>, p: nat)
    requires p <= |s|
    ensures PeriodTaken(s, p, if PeriodAt(s, p).Some? then PeriodAt(s, p).value else p)
  {
    if PeriodAt(s, p).Some? {
      PeriodAtCorrect(s, p, PeriodAt(s, p).value);
    } else {
      forall f: nat
        ensures !PeriodMatches(s, p, f)
      {
        PeriodAtCorrect(s, p, f);
      }
    }
  }

  /** Only the scanner's answer is the period taken. */
  lemma PeriodTakenUnique(s: seq<char>, p: nat, e: nat)
    requires p <= |s| && PeriodTaken(s, p, e)
    ensures e == if PeriodAt(s, p).Some? then PeriodAt(s, p).value else p
  {
    PeriodAtCorrect(s, p, e);
    if PeriodAt(s, p).Some? {
      PeriodAtCorrect(s, p, PeriodAt(s, p).value);
    }
  }

  /** Where the digit run and the range of a salary match end. */
  lemma SalaryParts(s: seq<char>, i: nat, e: nat) returns (d: nat, e1: nat)
    requires SalaryMatches(s, i, e)
    ensures i + 1 < d <= |s| && s[i] == '$' && All(s, i + 1, d, IsDigitOrComma)
    ensures (d == |s| || !IsDigitOrComma(s[d])) && RangeTaken(s, d, e1) && PeriodTaken(s, e1, e)
    ensures d == SpanWhile(s, i + 1, IsDigitOrComma) && IsDigitOrComma(s[d - 1])
  {
    d, e1 :| i + 1 < d <= |s| && s[i] == '$' && All(s, i + 1, d, IsDigitOrComma) &&
      (d == |s| || !IsDigitOrComma(s[d])) && RangeTaken(s, d, e1) && PeriodTaken(s, e1, e);
    SpanWhileUnique(s, i + 1, d, IsDigitOrComma);
  }

  /** The salary scanner at `i` ends exactly where the regex's match under the
      engine's choice ends: the range and the pay period are taken when present. */
  lemma SalaryAtCorrect(s: seq<char>, i: nat, e: nat)
    ensures SalaryAt(s, i) == Some(e) <==> SalaryMatches(s, i, e)
  {
    if SalaryAt(s, i) == Some(e) {
      SalaryAtSound(s, i, e);
    }
    if SalaryMatches(s, i, e) {
      SalaryAtComplete(s, i, e);
    }
  }

  lemma SalaryAtComplete(s: seq<char>, i: nat, e: nat)
    requires SalaryMatches(s, i, e)
    ensures SalaryAt(s, i) == Some(e)
  {
    var d, e1 := SalaryParts(s, i, e);
    SalaryEndTaken(s, d, e1, e);
    SalaryAtRun(s, i);
  }

  /** A salary match runs over the longest digit run after `$`, then on to
      `SalaryEnd`. */
  lemma SalaryAtRun(s: seq<char>, i: nat)
    requires i + 1 < |s| && s[i] == '$' && IsDigitOrComma(s[i + 1])
    ensures SalaryAt(s, i) == Some(SalaryEnd(s, SpanWhile(s, i + 1, IsDigitOrComma)))
  {
  }

  lemma SalaryAtSound(s: seq<char>, i: nat, e: nat)
    requires SalaryAt(s, i) == Some(e)
    ensures SalaryMatches(s, i, e)
  {
    var d := SpanWhile(s, i + 1, IsDigitOrComma);
    assert IsDigitOrComma(s[d - 1]);
    var e1 := RangeEnd(s, d);
    assert e == SalaryEnd(s, d);
    RangeAtTaken(s, d);
    SalaryEndPeriod(s, d);
    assert RangeTaken(s, d, e1) && PeriodTaken(s, e1, e);
  }

  /** Only the scanners' answers are the range and the period taken. */
  lemma SalaryEndTaken(s: seq<char>, d: nat, e1: nat, e: nat)
    requires 0 < d <= |s| && IsDigitOrComma(s[d - 1])
    requires RangeTaken(s, d, e1) && PeriodTaken(s, e1, e)
    ensures e == SalaryEnd(s, d)
  {
    RangeTakenUnique(s, d, e1);
    assert e1 == RangeEnd(s, d);
    PeriodTakenUnique(s, e1, e);
  }

  /** After the range taken, the pay period is taken exactly where `SalaryEnd` ends. */
  lemma SalaryEndPeriod(s: seq<char>, d: nat)
    requires 0 < d <= |s| && IsDigitOrComma(s[d - 1])
    ensures PeriodTaken(s, RangeEnd(s, d), SalaryEnd(s, d))
  {
    PeriodAtTaken(s, RangeEnd(s, d));
  }

  /** `html.match(salaryRegex)`: where the leftmost match starts and ends. */
  function FirstSalary(s: seq<char>): (r: Option<Found<nat>>)
    ensures r.Some? ==> r.value.at + 2 <= r.value.value <= |s|
    ensures r.Some? ==> SalaryAt(s, r.value.at) == Some(r.value.value)
    ensures r.Some? ==> forall j: nat | j < r.value.at :: SalaryAt(s, j).None?
    ensures r.None? ==> forall j: nat :: SalaryAt(s, j).None?
  {
    var m := (i: nat) => SalaryAt(s, i);
    assert forall i: nat :: m(i) == SalaryAt(s, i);
    FirstFrom(m, 0, |s|)
  }

  /** The salary match found is the regex's leftmost match under the engine's
      choice. */
  lemma FirstSalaryFound(s: seq<char>)
    requires FirstSalary(s).Some?
    ensures SalaryMatches(s, FirstSalary(s).value.at, FirstSalary(s).value.value)
    ensures forall j: nat, e: nat | j < FirstSalary(s).value.at :: !SalaryMatches(s, j, e)
  {
    var m := FirstSalary(s).value;
    SalaryAtCorrect(s, m.at, m.value);
    forall j: nat, e: nat | j < m.at
      ensures !SalaryMatches(s, j, e)
    {
      SalaryAtCorrect(s, j, e);
    }
  }

  /** When no salary match is found, the salary regex matches nowhere. */
  lemma FirstSalaryNone(s: seq<char>)
    requires FirstSalary(s).None?
    ensures forall j: nat, e: nat :: !SalaryMatches(s, j, e)
  {
    forall j: nat, e: nat
      ensures !SalaryMatches(s, j, e)
    {
      SalaryAtCorrect(s, j, e);
    }
  }

  /** A salary match starts with `$` and a digit or comma, and, beginning and ending
      with non-space characters, is already trimmed. */
  lemma SalaryMatchShape(s: seq<char>, j: nat, e: nat)
    requires SalaryAt(s, j) == Some(e)
    ensures j + 2 <= e <= |s|
    ensures s[j..e][0] == '$' && IsDigitOrComma(s[j..e][1]) && IsTrimmed(s[j..e])
  {
    var m := s[j..e];
    assert m[0] == s[j] && m[1] == s[j + 1] && m[|m| - 1] == s[e - 1];
  }

  // ---------------------------------------------------------------------------
  // Title split

  predicate NotDashPipe(c: char) { c != '-' && c != '|' }

  /** `\s*-`, `\s*at` or `\s*\|` matches `t[e..d]`. */
  ghost predicate SeparatorMatches(t: seq<char>, e: nat, d: nat) {
    exists w: nat :: e <= w && All(t, e, w, IsSpace) &&
      ((w < |t| && (t[w] == '-' || t[w] == '|') && d == w + 1) || (LiteralAt(t, w, "at") && d == w + 2))
  }

  /** The separator scanner finds exactly the separator token the regex can match
      at `e`; it is unique. */
  lemma SeparatorAtCorrect(t: seq<char>, e: nat, d: nat)
    requires e <= |t|
    ensures SeparatorAt(t, e) == Some(d) <==> SeparatorMatches(t, e, d)
  {
    var w := SpanWhile(t, e, IsSpace);
    if SeparatorAt(t, e) == Some(d) {
      assert e <= w && All(t, e, w, IsSpace);
    }
    if SeparatorMatches(t, e, d) {
      var w': nat :| e <= w' && All(t, e, w', IsSpace) &&
        ((w' < |t| && (t[w'] == '-' || t[w'] == '|') && d == w' + 1) || (LiteralAt(t, w', "at") && d == w' + 2));
      assert w' < |t| && !IsSpace(t[w']) by {
        if LiteralAt(t, w', "at") { assert Lower(t[w']) == Lower("at"[0]); }
      }
      SpanWhileUnique(t, e, w', IsSpace);
      if LiteralAt(t, w, "at") {
        LiteralHead(t, w, "at");
      }
    }
  }

  /** The separator `\s*-\s*`, `\s*at\s*` or `\s*\|\s*` starting at `e`: where the
      separator token ends (the trailing `\s*` belongs with the company group). The
      leading `\s*` can only succeed at its longest, and at most one alternative can
      match there, so the order of the alternatives does not matter. */
  function SeparatorAt(t: seq<char>, e: nat): (r: Option<nat>)
    requires e <= |t|
    ensures r.Some? ==> e < r.value <= |t| && All(t, e, SpanWhile(t, e, IsSpace), IsSpace)
  {
    var w := SpanWhile(t, e, IsSpace);
    if w < |t| && t[w] == '-' then Some(w + 1)
    else if LiteralAt(t, w, "at") then Some(w + 2)
    else if w < |t| && t[w] == '|' then Some(w + 1)
    else None
  }

  /** `\s*([^-|]+)` from `d`: the company group. The greedy `\s*` keeps all the white
      space unless nothing but `-`, `|` or the end follows it; then it gives back one
      white-space character, which becomes the whole group. */
  function CompanyAt(t: seq<char>, d: nat): (r: Option<Span>)
    requires d <= |t|
    ensures r.Some? <==> d < |t| && NotDashPipe(t[d])
    ensures r.Some? ==> d <= r.value.lo < r.value.hi <= |t|
    ensures r.Some? ==> All(t, d, r.value.lo, IsSpace) && All(t, r.value.lo, r.value.hi, NotDashPipe)
    ensures r.Some? ==> r.value.hi == |t| || !NotDashPipe(t[r.value.hi])
  {
    if d < |t| && NotDashPipe(t[d]) then
      var w := SpanWhile(t, d, IsSpace);
      var lo := if w < |t| && NotDashPipe(t[w]) then w else w - 1;
      Some(Span(lo, SpanWhile(t, lo, NotDashPipe)))
    else None
  }

  /** Everything after the lazy group 1, tried with group 1 ending at `e`. */
  function TailAt(t: seq<char>, e: nat): (r: Option<Span>)
    ensures r.Some? ==> e < r.value.lo < r.value.hi <= |t|
  {
    if e > |t| then None
    else match SeparatorAt(t, e)
      case Some(d) => CompanyAt(t, d)
      case None => None
  }

  /** The tail of the title regex matches after `e` exactly when a separator token
      `\s*-`, `\s*at` or `\s*\|` matches from `e` and the company group matches
      after it. */
  lemma TailAtCorrect(t: seq<char>, e: nat, c: Span)
    ensures TailAt(t, e) == Some(c) <==>
      e <= |t| && exists d: nat :: SeparatorMatches(t, e, d) && CompanyAt(t, d) == Some(c)
  {
    if e <= |t| {
      if TailAt(t, e) == Some(c) {
        var d := SeparatorAt(t, e).value;
        SeparatorAtCorrect(t, e, d);
      }
      forall d: nat | SeparatorMatches(t, e, d) && CompanyAt(t, d) == Some(c)
        ensures TailAt(t, e) == Some(c)
      {
        SeparatorAtCorrect(t, e, d);
      }
    }
  }

  /** No separator can follow any position before `n` when `t[..n]` holds no `-`,
      `|` or `a`/`A` and ends in a non-space character. */
  lemma NoSeparatorBefore(t: seq<char>, n: nat)
    requires 0 < n <= |t| && !IsSpace(t[n - 1])
    requires forall k | 0 <= k < n :: NotDashPipe(t[k]) && Lower(t[k]) != 'a'
    ensures forall e: nat | e < n :: TailAt(t, e).None?
  {
    forall e: nat | e < n
      ensures TailAt(t, e).None?
    {
      var w := SpanWhile(t, e, IsSpace);
      assert w < n;
      assert Lower(t[w]) != Lower("at"[0]);
    }
  }

  /** Where the line holding position `e` starts: `.` does not cross a line terminator. */
  function LineStart(t: seq<char>, e: nat): (r: nat)
    requires e <= |t|
    ensures r <= e && All(t, r, e, NotLineTerminator)
    ensures r > 0 ==> IsLineTerminator(t[r - 1])
    decreases e
  {
    if e == 0 || IsLineTerminator(t[e - 1]) then e else LineStart(t, e - 1)
  }

  /** A line with no line terminator before `e` starts at 0. */
  lemma {:induction false} LineStartNoTerminator(t: seq<char>, e: nat)
    requires e <= |t| && All(t, 0, e, NotLineTerminator)
    ensures LineStart(t, e) == 0
    decreases e
  {
    if e > 0 {
      assert NotLineTerminator(t[e - 1]);
      LineStartNoTerminator(t, e - 1);
    }
  }

  /** Groups 1 and 2 of a title split, and where group 1 ends. */
  datatype TitleSplit = TitleSplit(at: nat, position: Span, company: Span)

  /** `title.match(/(.*?)(?:\s*-\s*|\s*at\s*|\s*\|\s*)([^-|]+)/i)`. The lazy group 1
      grows one character at a time, so the match ends group 1 at the earliest
      position `at` where the rest can match; the engine reaches that position from
      the start of its line, since `.` stops at line terminators and any earlier
      start sees only positions that fail. */
  function SplitTitle(t: seq<char>): (r: Option<TitleSplit>)
    ensures r.Some? ==> r.value.at <= |t| && TailAt(t, r.value.at) == Some(r.value.company)
    ensures r.Some? ==> r.value.position == Span(LineStart(t, r.value.at), r.value.at)
    ensures r.Some? ==> forall e: nat | e < r.value.at :: TailAt(t, e).None?
    ensures r.None? ==> forall e: nat :: TailAt(t, e).None?
  {
    var m := (e: nat) => TailAt(t, e);
    assert forall e: nat :: m(e) == TailAt(t, e);
    var found := FirstFrom(m, 0, |t|);
    if found.None? then None
    else
      var at := found.value.at;
      Some(TitleSplit(at, Span(LineStart(t, at), at), found.value.value))
  }
}
