/** The tag and attribute regexes the site extractors run with `html.match(...)`
    (flag `/i`, no `/g`), each written as a hand-made scanner rather than a general
    regex engine.

    Every one of them has the shape OPENING `(` GROUP `)` FOLLOWER:
      - OPENING is `<tag[^>]*class="[^"]*CLS[^"]*"[^>]*>` (a tag carrying a class),
        `LIT[^>]*>` (a literal such as `<h1` or `data-testid="..."`, up to the next
        `>`), or an exact literal (`<title>`);
      - the group and what follows it is `([^<]+)CLOSE`, `([\s\S]*?)CLOSE`,
        `([^<]*(?:W1|...|Wn)[^<]*)CLOSE` or `([^<]*\$[^<]+)`.

    For each shape, `...Matches` states when the regex can match (on some
    backtracking path), and the scanner computes the match a backtracking engine
    returns; the lemmas prove the two agree. */
module Patterns {
  import opened Strings

  /** Indices of a capture group: `s[lo..hi]`. */
  datatype Span = Span(lo: nat, hi: nat)

  /** What precedes the capture group. */
  datatype Opening =
    | ClassedTag(open: string, cls: string)  // open[^>]*class="[^"]*cls[^"]*"[^>]*>
    | Prefix(lit: string)                    // lit[^>]*>
    | Exact(lit: string)                     // lit

  /** The capture group and what must follow it. */
  datatype Body =
    | Text(close: string)                         // ([^<]+)close
    | Until(close: string)                        // ([\s\S]*?)close
    | Keyword(words: seq<string>, close: string)  // ([^<]*(?:w1|...|wn)[^<]*)close
    | Dollar                                      // ([^<]*\$[^<]+)

  datatype Pattern = Pattern(opening: Opening, body: Body)

  const ClassAttr: string := "class=\""

  /** Every pattern of the scraper closes a `[^<]` run with a tag: the run then
      necessarily ends at the first `<`, so its capture is unique. */
  predicate WellFormedBody(b: Body) {
    (b.Text? || b.Keyword?) ==> |b.close| > 0 && b.close[0] == '<'
  }

  predicate WellFormed(p: Pattern) {
    WellFormedBody(p.body)
  }

  // ---------------------------------------------------------------------------
  // What each regex matches, read off the regex itself.

  /** The group-and-follower regex can match from `e` with capture `sp`. */
  ghost predicate BodyMatches(b: Body, s: seq<char>, e: nat, sp: Span) {
    sp.lo == e <= sp.hi <= |s| &&
    match b
    case Text(close) =>
      e < sp.hi && All(s, e, sp.hi, NotLt) && LiteralAt(s, sp.hi, close)
    case Until(close) =>
      LiteralAt(s, sp.hi, close)
    case Keyword(words, close) =>
      All(s, e, sp.hi, NotLt) && (exists w | w in words :: OccursWithin(s, e, sp.hi, w)) &&
      LiteralAt(s, sp.hi, close)
    case Dollar =>
      All(s, e, sp.hi, NotLt) && exists d: nat | e <= d && d + 1 < sp.hi :: s[d] == '$'
  }

  /** `class="` at `p`, a quoted value up to the closing quote at `q` that contains
      `cls`, then `[^>]*>` ending just before `e`. As `cls` holds no quote,
      `[^"]*cls[^"]*"` says exactly that the value up to the next quote contains `cls`. */
  ghost predicate ClassValue(s: seq<char>, p: nat, cls: string, q: nat, e: nat) {
    LiteralAt(s, p, ClassAttr) &&
    p + |ClassAttr| <= q < |s| && All(s, p + |ClassAttr|, q, NotQuote) && s[q] == '"' &&
    OccursWithin(s, p + |ClassAttr|, q, cls) &&
    q + 1 < e <= |s| && All(s, q + 1, e - 1, NotGt) && s[e - 1] == '>'
  }

  /** The opening regex can match `s[i..e]`. */
  ghost predicate OpeningMatches(o: Opening, s: seq<char>, i: nat, e: nat) {
    match o
    case ClassedTag(open, cls) =>
      LiteralAt(s, i, open) &&
      exists p: nat, q: nat ::
        i + |open| <= p && All(s, i + |open|, p, NotGt) && ClassValue(s, p, cls, q, e)
    case Prefix(lit) =>
      LiteralAt(s, i, lit) && i + |lit| < e <= |s| && All(s, i + |lit|, e - 1, NotGt) &&
      s[e - 1] == '>'
    case Exact(lit) =>
      LiteralAt(s, i, lit) && e == i + |lit|
  }

  /** The whole regex can match at `i` with capture `sp`. */
  ghost predicate MatchSpan(pat: Pattern, s: seq<char>, i: nat, sp: Span) {
    exists e: nat :: OpeningMatches(pat.opening, s, i, e) && BodyMatches(pat.body, s, e, sp)
  }

  /** Which of several possible captures a backtracking engine returns: the only one
      for `[^<]+` and the keyword run, the shortest for the lazy `[\s\S]*?`, the
      longest for the greedy run around `$`. */
  predicate Preferred(b: Body, chosen: Span, other: Span) {
    match b
    case Text(_) => chosen == other
    case Keyword(_, _) => chosen == other
    case Until(_) => chosen.hi <= other.hi
    case Dollar => chosen.hi >= other.hi
  }

  // ---------------------------------------------------------------------------
  // The scanners.

  /** The capture of the group-and-follower regex started at `e`. */
  function BodyAt(b: Body, s: seq<char>, e: nat): (r: Option<Span>)
    requires e <= |s|
    ensures r.Some? ==> r.value.lo == e <= r.value.hi <= |s|
  {
    match b
    case Text(close) =>
      var h := SpanWhile(s, e, NotLt);
      if e < h && LiteralAt(s, h, close) then Some(Span(e, h)) else None
    case Until(close) =>
      var h := FindLiteral(s, e, close);
      if h.Some? then Some(Span(e, h.value)) else None
    case Keyword(words, close) =>
      var h := SpanWhile(s, e, NotLt);
      if (exists w | w in words :: OccursWithin(s, e, h, w)) && LiteralAt(s, h, close)
      then Some(Span(e, h)) else None
    case Dollar =>
      var h := SpanWhile(s, e, NotLt);
      if SpanWhile(s, e, NotDollar) + 1 < h then Some(Span(e, h)) else None
  }

  /** The scanner finds a capture exactly when the regex can match, and the one
      it finds is the one the engine prefers. */
  lemma BodyAtCorrect(b: Body, s: seq<char>, e: nat, sp: Span)
    requires e <= |s| && WellFormedBody(b)
    ensures BodyAt(b, s, e) == Some(sp) ==> BodyMatches(b, s, e, sp)
    ensures BodyMatches(b, s, e, sp) ==>
      BodyAt(b, s, e).Some? && Preferred(b, BodyAt(b, s, e).value, sp)
  {
    var h := SpanWhile(s, e, NotLt);
    match b
    case Text(close) =>
      if BodyMatches(b, s, e, sp) {
        assert s[sp.hi] == close[0];
        assert sp.hi == h;
      }
    case Until(close) =>
    case Keyword(words, close) =>
      if BodyMatches(b, s, e, sp) {
        assert s[sp.hi] == close[0];
        assert sp.hi == h;
      }
    case Dollar =>
      var d0 := SpanWhile(s, e, NotDollar);
      if BodyAt(b, s, e) == Some(sp) {
        assert s[d0] == '$';
      }
      if BodyMatches(b, s, e, sp) {
        var d: nat :| e <= d && d + 1 < sp.hi && s[d] == '$';
        assert d0 <= d;
        assert sp.hi <= h;
      }
  }

  /** `class="` tried at `p`: the quoted value, then `[^>]*>`, then the body. */
  function ClassAt(s: seq<char>, p: nat, cls: string, b: Body): (r: Option<Span>)
    requires p <= |s|
    ensures r.Some? ==> p < r.value.lo <= r.value.hi <= |s|
  {
    if !LiteralAt(s, p, ClassAttr) then None
    else
      var v := p + |ClassAttr|;
      var q := SpanWhile(s, v, NotQuote);
      if q == |s| || !OccursWithin(s, v, q, cls) then None
      else
        var g := SpanWhile(s, q + 1, NotGt);
        if g == |s| then None else BodyAt(b, s, g + 1)
  }

  /** A capture found from a `class="` position is one the regex allows there. */
  lemma ClassAtSound(s: seq<char>, p: nat, cls: string, b: Body, sp: Span)
    requires p <= |s| && WellFormedBody(b)
    requires ClassAt(s, p, cls, b) == Some(sp)
    ensures exists q: nat, e: nat ::
      ClassValue(s, p, cls, q, e) && BodyMatches(b, s, e, sp) && e <= |s| && BodyAt(b, s, e) == Some(sp)
  {
    var v := p + |ClassAttr|;
    var q0 := SpanWhile(s, v, NotQuote);
    var g := SpanWhile(s, q0 + 1, NotGt);
    BodyAtCorrect(b, s, g + 1, sp);
    assert ClassValue(s, p, cls, q0, g + 1);
  }

  /** Whenever the regex can match from a `class="` position, the scanner succeeds. */
  lemma ClassAtComplete(s: seq<char>, p: nat, cls: string, b: Body, q: nat, e: nat, sp: Span)
    requires p <= |s| && WellFormedBody(b)
    requires ClassValue(s, p, cls, q, e) && BodyMatches(b, s, e, sp)
    ensures ClassAt(s, p, cls, b).Some? && ClassAt(s, p, cls, b) == BodyAt(b, s, e)
  {
    var v := p + |ClassAttr|;
    var q0 := SpanWhile(s, v, NotQuote);
    assert q == q0;
    assert e - 1 == SpanWhile(s, q0 + 1, NotGt);
    BodyAtCorrect(b, s, e, sp);
  }

  /** The capture the pattern yields when the engine starts at `i`. */
  function MatchAt(pat: Pattern, s: seq<char>, i: nat): (r: Option<Span>)
    ensures r.Some? ==> i <= r.value.lo <= r.value.hi <= |s|
    ensures i > |s| ==> r.None?
  {
    if i > |s| then None
    else match pat.opening
      case ClassedTag(open, cls) => ClassedTagAt(open, cls, pat.body, s, i)
      case Prefix(lit) => PrefixTagAt(lit, pat.body, s, i)
      case Exact(lit) => if LiteralAt(s, i, lit) then BodyAt(pat.body, s, i + |lit|) else None
  }

  /** `open[^>]*class="[^"]*cls[^"]*"[^>]*>` and the body, started at `i`. */
  function ClassedTagAt(open: string, cls: string, b: Body, s: seq<char>, i: nat): (r: Option<Span>)
    requires i <= |s|
    ensures r.Some? ==> i <= r.value.lo <= r.value.hi <= |s|
  {
    if !LiteralAt(s, i, open) then None
    else
      var found := ClassedSearch(s, i + |open|, cls, b);
      if found.Some? then Some(found.value.value) else None
  }

  /** `lit[^>]*>` and the body, started at `i`. */
  function PrefixTagAt(lit: string, b: Body, s: seq<char>, i: nat): (r: Option<Span>)
    requires i <= |s|
    ensures r.Some? ==> i <= r.value.lo <= r.value.hi <= |s|
  {
    if !LiteralAt(s, i, lit) then None
    else
      var g := SpanWhile(s, i + |lit|, NotGt);
      if g == |s| then None else BodyAt(b, s, g + 1)
  }

  /** The classed-tag scanner: the rightmost workable `class="` before the tag's first
      `>`, tried with `LastFrom`. */
  function ClassedSearch(s: seq<char>, a: nat, cls: string, b: Body): (r: Option<Found<Span>>)
    requires a <= |s|
    ensures r.Some? ==> a <= r.value.at <= SpanWhile(s, a, NotGt)
    ensures r.Some? ==> ClassAt(s, r.value.at, cls, b) == Some(r.value.value)
    ensures r.None? ==> forall k | a <= k <= SpanWhile(s, a, NotGt) :: ClassAt(s, k, cls, b).None?
  {
    // The greedy `[^>]*` before `class="` gives back one character at a time,
    // so the rightmost workable `class="` before the first `>` wins.
    var m := (p: nat) => if p <= |s| then ClassAt(s, p, cls, b) else None;
    assert forall p: nat | p <= |s| :: m(p) == ClassAt(s, p, cls, b);
    LastFrom(m, a, SpanWhile(s, a, NotGt))
  }

  /** No `class="` right of the one `ClassedSearch` settles on could have been used:
      the greedy `[^>]*` gives back characters from the right. */
  lemma ClassedSearchRightmost(s: seq<char>, a: nat, cls: string, b: Body)
    requires a <= |s|
    ensures ClassedSearch(s, a, cls, b).Some? ==>
      forall k | ClassedSearch(s, a, cls, b).value.at < k <= SpanWhile(s, a, NotGt) ::
        ClassAt(s, k, cls, b).None?
  {
    var m := (p: nat) => if p <= |s| then ClassAt(s, p, cls, b) else None;
    assert forall p: nat | p <= |s| :: m(p) == ClassAt(s, p, cls, b);
    assert ClassedSearch(s, a, cls, b) == LastFrom(m, a, SpanWhile(s, a, NotGt));
  }

  /** A `class="` position the classed search may settle on gives a match of the
      regex. */
  lemma ClassedMatchSound(pat: Pattern, s: seq<char>, i: nat, k: nat, sp: Span)
    requires WellFormed(pat) && pat.opening.ClassedTag? && i <= |s|
    requires LiteralAt(s, i, pat.opening.open)
    requires i + |pat.opening.open| <= k <= SpanWhile(s, i + |pat.opening.open|, NotGt)
    requires ClassAt(s, k, pat.opening.cls, pat.body) == Some(sp)
    ensures MatchSpan(pat, s, i, sp)
  {
    var open, cls := pat.opening.open, pat.opening.cls;
    var a := i + |open|;
    ClassAtSound(s, k, cls, pat.body, sp);
    var q: nat, e: nat :| ClassValue(s, k, cls, q, e) && BodyMatches(pat.body, s, e, sp);
    assert All(s, a, k, NotGt);
    assert OpeningMatches(pat.opening, s, i, e);
  }

  /** A `class="` that works before the tag's first `>` makes the classed search
      succeed. */
  lemma ClassedSearchComplete(s: seq<char>, a: nat, cls: string, b: Body, p: nat, q: nat, e: nat, sp: Span)
    requires a <= p <= |s| && WellFormedBody(b)
    requires All(s, a, p, NotGt) && ClassValue(s, p, cls, q, e) && BodyMatches(b, s, e, sp)
    ensures ClassedSearch(s, a, cls, b).Some?
  {
    assert p <= SpanWhile(s, a, NotGt);
    ClassAtComplete(s, p, cls, b, q, e, sp);
  }

  /** An opening tag the regex accepts from `i` to `e`, followed by a body match,
      makes the classed-tag scanner succeed at `i`. */
  lemma ClassedOpeningComplete(open: string, cls: string, b: Body, s: seq<char>, i: nat, e: nat, sp: Span)
    requires i <= |s| && WellFormedBody(b)
    requires OpeningMatches(ClassedTag(open, cls), s, i, e) && BodyMatches(b, s, e, sp)
    ensures ClassedTagAt(open, cls, b, s, i).Some?
  {
    var p: nat, q: nat :|
      i + |open| <= p && All(s, i + |open|, p, NotGt) && ClassValue(s, p, cls, q, e);
    ClassedSearchComplete(s, i + |open|, cls, b, p, q, e, sp);
    ClassedTagFound(open, cls, b, s, i);
  }

  /** The classed-tag scanner succeeds exactly when `open` is at `i` and the classed
      search after it succeeds, and reports what that search finds. */
  lemma ClassedTagFound(open: string, cls: string, b: Body, s: seq<char>, i: nat)
    requires i <= |s|
    ensures ClassedTagAt(open, cls, b, s, i).Some? <==>
      LiteralAt(s, i, open) && ClassedSearch(s, i + |open|, cls, b).Some?
    ensures ClassedTagAt(open, cls, b, s, i).Some? ==>
      ClassedTagAt(open, cls, b, s, i).value == ClassedSearch(s, i + |open|, cls, b).value.value
  {
  }

  /** Whenever the classed-tag regex can match at `i`, the classed-tag scanner
      succeeds there. */
  lemma ClassedMatchComplete(pat: Pattern, s: seq<char>, i: nat, sp: Span)
    requires WellFormed(pat) && pat.opening.ClassedTag? && i <= |s|
    requires MatchSpan(pat, s, i, sp)
    ensures ClassedTagAt(pat.opening.open, pat.opening.cls, pat.body, s, i).Some?
  {
    var e: nat :| OpeningMatches(pat.opening, s, i, e) && BodyMatches(pat.body, s, e, sp);
    ClassedOpeningComplete(pat.opening.open, pat.opening.cls, pat.body, s, i, e, sp);
  }

  /** A match the `lit[^>]*>` scanner reports is a match of the regex. */
  lemma PrefixMatchSound(pat: Pattern, s: seq<char>, i: nat, sp: Span)
    requires WellFormed(pat) && pat.opening.Prefix? && i <= |s|
    requires LiteralAt(s, i, pat.opening.lit)
    requires PrefixTagAt(pat.opening.lit, pat.body, s, i) == Some(sp)
    ensures MatchSpan(pat, s, i, sp)
  {
    var g := SpanWhile(s, i + |pat.opening.lit|, NotGt);
    BodyAtCorrect(pat.body, s, g + 1, sp);
    assert OpeningMatches(pat.opening, s, i, g + 1);
  }

  /** Whenever a `lit[^>]*>` regex can match at `i`, the scanner finds a match there. */
  lemma PrefixMatchComplete(pat: Pattern, s: seq<char>, i: nat, sp: Span)
    requires WellFormed(pat) && pat.opening.Prefix? && i <= |s|
    requires LiteralAt(s, i, pat.opening.lit)
    requires MatchSpan(pat, s, i, sp)
    ensures PrefixTagAt(pat.opening.lit, pat.body, s, i).Some?
  {
    var g := SpanWhile(s, i + |pat.opening.lit|, NotGt);
    var e: nat :| OpeningMatches(pat.opening, s, i, e) && BodyMatches(pat.body, s, e, sp);
    assert e - 1 == g;
    BodyAtCorrect(pat.body, s, e, sp);
  }

  /** A capture the classed-tag scanner reports at `i` is one the regex allows. */
  lemma ClassedTagSound(pat: Pattern, s: seq<char>, i: nat, sp: Span)
    requires WellFormed(pat) && pat.opening.ClassedTag? && i <= |s|
    requires ClassedTagAt(pat.opening.open, pat.opening.cls, pat.body, s, i) == Some(sp)
    ensures MatchSpan(pat, s, i, sp)
  {
    var found := ClassedSearch(s, i + |pat.opening.open|, pat.opening.cls, pat.body);
    assert found.Some? && found.value.value == sp;
    ClassedMatchSound(pat, s, i, found.value.at, sp);
  }

  /** The classed-tag case of `MatchAtCorrect`. */
  lemma ClassedMatchCorrect(pat: Pattern, s: seq<char>, i: nat, sp: Span)
    requires WellFormed(pat) && pat.opening.ClassedTag? && i <= |s|
    ensures ClassedTagAt(pat.opening.open, pat.opening.cls, pat.body, s, i) == Some(sp) ==>
      MatchSpan(pat, s, i, sp)
    ensures MatchSpan(pat, s, i, sp) ==>
      ClassedTagAt(pat.opening.open, pat.opening.cls, pat.body, s, i).Some?
  {
    if ClassedTagAt(pat.opening.open, pat.opening.cls, pat.body, s, i) == Some(sp) {
      ClassedTagSound(pat, s, i, sp);
    }
    if MatchSpan(pat, s, i, sp) {
      ClassedMatchComplete(pat, s, i, sp);
    }
  }

  /** The `lit[^>]*>` case of `MatchAtCorrect`. */
  lemma PrefixMatchCorrect(pat: Pattern, s: seq<char>, i: nat, sp: Span)
    requires WellFormed(pat) && pat.opening.Prefix? && i <= |s|
    ensures PrefixTagAt(pat.opening.lit, pat.body, s, i) == Some(sp) ==> MatchSpan(pat, s, i, sp)
    ensures MatchSpan(pat, s, i, sp) ==> PrefixTagAt(pat.opening.lit, pat.body, s, i).Some?
  {
    if LiteralAt(s, i, pat.opening.lit) {
      if PrefixTagAt(pat.opening.lit, pat.body, s, i) == Some(sp) { PrefixMatchSound(pat, s, i, sp); }
      if MatchSpan(pat, s, i, sp) { PrefixMatchComplete(pat, s, i, sp); }
    }
  }

  /** The literal case of `MatchAtCorrect`. */
  lemma ExactMatchCorrect(pat: Pattern, s: seq<char>, i: nat, sp: Span)
    requires WellFormed(pat) && pat.opening.Exact? && i <= |s|
    ensures MatchAt(pat, s, i) == Some(sp) ==> MatchSpan(pat, s, i, sp)
    ensures MatchSpan(pat, s, i, sp) ==> MatchAt(pat, s, i).Some?
  {
    var lit := pat.opening.lit;
    if LiteralAt(s, i, lit) {
      BodyAtCorrect(pat.body, s, i + |lit|, sp);
      if MatchAt(pat, s, i) == Some(sp) {
        assert OpeningMatches(pat.opening, s, i, i + |lit|);
      }
    }
  }

  /** Started at `i`, the scanner finds a capture exactly when the regex can match at
      `i`, and what it finds is a capture the regex allows there. */
  lemma MatchAtCorrect(pat: Pattern, s: seq<char>, i: nat, sp: Span)
    requires WellFormed(pat)
    ensures MatchAt(pat, s, i) == Some(sp) ==> MatchSpan(pat, s, i, sp)
    ensures MatchSpan(pat, s, i, sp) ==> MatchAt(pat, s, i).Some?
  {
    if i <= |s| {
      match pat.opening
      case ClassedTag(open, cls) =>
        assert MatchAt(pat, s, i) == ClassedTagAt(open, cls, pat.body, s, i);
        ClassedMatchCorrect(pat, s, i, sp);
      case Prefix(lit) =>
        assert MatchAt(pat, s, i) == PrefixTagAt(lit, pat.body, s, i);
        PrefixMatchCorrect(pat, s, i, sp);
      case Exact(lit) =>
        ExactMatchCorrect(pat, s, i, sp);
    }
  }

  // ---------------------------------------------------------------------------
  // The engine's choice among the matches at one start position.

  /** From a `class="` at `p` the rest of the classed-tag regex can match. */
  ghost predicate Workable(s: seq<char>, p: nat, cls: string, b: Body) {
    exists q: nat, e: nat, sp: Span :: ClassValue(s, p, cls, q, e) && BodyMatches(b, s, e, sp)
  }

  /** The greedy `[^>]*` in front of `class="` settles on `p`: the rightmost
      workable `class="` between `a` and the first `>`. */
  ghost predicate ClassChosen(s: seq<char>, a: nat, cls: string, b: Body, p: nat) {
    a <= p && All(s, a, p, NotGt) &&
    forall p': nat {:trigger Workable(s, p', cls, b)} | p < p' && All(s, a, p', NotGt) ::
      !Workable(s, p', cls, b)
  }

  /** The opening the engine settles on ends just before `e`. A tag carrying a class
      uses the rightmost workable `class="` before the first `>`, because the greedy
      `[^>]*` in front of it gives back one character at a time; the other openings
      can end in one place only. */
  ghost predicate OpeningChosen(o: Opening, b: Body, s: seq<char>, i: nat, e: nat) {
    match o
    case ClassedTag(open, cls) =>
      LiteralAt(s, i, open) &&
      exists p: nat, q: nat :: ClassChosen(s, i + |open|, cls, b, p) && ClassValue(s, p, cls, q, e)
    case Prefix(_) => OpeningMatches(o, s, i, e)
    case Exact(_) => OpeningMatches(o, s, i, e)
  }

  /** From `e`, `sp` is the body capture the engine prefers over every other. */
  ghost predicate BodyPreferred(b: Body, s: seq<char>, e: nat, sp: Span) {
    BodyMatches(b, s, e, sp) && forall other | BodyMatches(b, s, e, other) :: Preferred(b, sp, other)
  }

  /** `sp` is the capture a backtracking engine returns when the match starts at `i`:
      the opening it settles on, then the body capture it prefers. */
  ghost predicate EngineMatch(pat: Pattern, s: seq<char>, i: nat, sp: Span) {
    exists e: nat :: OpeningChosen(pat.opening, pat.body, s, i, e) && BodyPreferred(pat.body, s, e, sp)
  }

  /** Two captures from the same place, each preferred to the other, are the same. */
  lemma PreferredUnique(b: Body, x: Span, y: Span)
    requires x.lo == y.lo && Preferred(b, x, y) && Preferred(b, y, x)
    ensures x == y
  {
  }

  /** The body scanner returns exactly the capture the engine prefers. */
  lemma BodyChosen(b: Body, s: seq<char>, e: nat, sp: Span)
    requires e <= |s| && WellFormedBody(b)
    ensures BodyAt(b, s, e) == Some(sp) <==> BodyPreferred(b, s, e, sp)
  {
    BodyAtCorrect(b, s, e, sp);
    if BodyAt(b, s, e) == Some(sp) {
      forall other | BodyMatches(b, s, e, other) ensures Preferred(b, sp, other) {
        BodyAtCorrect(b, s, e, other);
      }
    }
    if BodyPreferred(b, s, e, sp) {
      var v := BodyAt(b, s, e).value;
      BodyAtCorrect(b, s, e, v);
      PreferredUnique(b, v, sp);
    }
  }

  /** The engine's capture is a match of the regex. */
  lemma EngineMatchIsMatch(pat: Pattern, s: seq<char>, i: nat, sp: Span)
    ensures EngineMatch(pat, s, i, sp) ==> MatchSpan(pat, s, i, sp)
  {
    if EngineMatch(pat, s, i, sp) {
      var e: nat :| OpeningChosen(pat.opening, pat.body, s, i, e) && BodyPreferred(pat.body, s, e, sp);
      assert OpeningMatches(pat.opening, s, i, e);
    }
  }

  /** A `class="` position the scanner succeeds from is workable. */
  lemma ClassAtWorkable(s: seq<char>, p: nat, cls: string, b: Body)
    requires p <= |s| && WellFormedBody(b)
    ensures ClassAt(s, p, cls, b).Some? <==> Workable(s, p, cls, b)
  {
    if ClassAt(s, p, cls, b).Some? {
      ClassAtSound(s, p, cls, b, ClassAt(s, p, cls, b).value);
    }
    if Workable(s, p, cls, b) {
      var q: nat, e: nat, sp: Span :| ClassValue(s, p, cls, q, e) && BodyMatches(b, s, e, sp);
      ClassAtComplete(s, p, cls, b, q, e, sp);
    }
  }

  /** A match of `lit` at `i`: the only `lit[^>]*>` opening ends after the first `>`. */
  lemma PrefixEngine(pat: Pattern, s: seq<char>, i: nat, sp: Span)
    requires WellFormed(pat) && pat.opening.Prefix? && i <= |s|
    ensures PrefixTagAt(pat.opening.lit, pat.body, s, i) == Some(sp) <==> EngineMatch(pat, s, i, sp)
  {
    if PrefixTagAt(pat.opening.lit, pat.body, s, i) == Some(sp) {
      PrefixEngineSound(pat, s, i, sp);
    }
    if EngineMatch(pat, s, i, sp) {
      PrefixEngineComplete(pat, s, i, sp);
    }
  }

  /** What the `lit[^>]*>` scanner returns is the engine's capture. */
  lemma PrefixEngineSound(pat: Pattern, s: seq<char>, i: nat, sp: Span)
    requires WellFormed(pat) && pat.opening.Prefix? && i <= |s|
    requires PrefixTagAt(pat.opening.lit, pat.body, s, i) == Some(sp)
    ensures EngineMatch(pat, s, i, sp)
  {
    var g := SpanWhile(s, i + |pat.opening.lit|, NotGt);
    BodyChosen(pat.body, s, g + 1, sp);
    assert OpeningChosen(pat.opening, pat.body, s, i, g + 1);
  }

  /** The engine's capture of a `lit[^>]*>` regex is what the scanner returns. */
  lemma PrefixEngineComplete(pat: Pattern, s: seq<char>, i: nat, sp: Span)
    requires WellFormed(pat) && pat.opening.Prefix? && i <= |s|
    requires EngineMatch(pat, s, i, sp)
    ensures PrefixTagAt(pat.opening.lit, pat.body, s, i) == Some(sp)
  {
    var e: nat :| OpeningChosen(pat.opening, pat.body, s, i, e) && BodyPreferred(pat.body, s, e, sp);
    PrefixOpeningEnd(pat.opening.lit, s, i, e);
    BodyChosen(pat.body, s, e, sp);
  }

  /** The only `lit[^>]*>` opening at `i` ends right after the first `>`. */
  lemma PrefixOpeningEnd(lit: string, s: seq<char>, i: nat, e: nat)
    requires i <= |s| && OpeningMatches(Prefix(lit), s, i, e)
    ensures LiteralAt(s, i, lit) && e == SpanWhile(s, i + |lit|, NotGt) + 1 <= |s|
  {
  }

  /** A literal opening ends right after the literal. */
  lemma ExactEngine(pat: Pattern, s: seq<char>, i: nat, sp: Span)
    requires WellFormed(pat) && pat.opening.Exact? && i <= |s|
    ensures MatchAt(pat, s, i) == Some(sp) <==> EngineMatch(pat, s, i, sp)
  {
    var lit := pat.opening.lit;
    if LiteralAt(s, i, lit) {
      var e := i + |lit|;
      BodyChosen(pat.body, s, e, sp);
      if MatchAt(pat, s, i) == Some(sp) {
        assert OpeningChosen(pat.opening, pat.body, s, i, e);
      }
      if EngineMatch(pat, s, i, sp) {
        var e': nat :| OpeningChosen(pat.opening, pat.body, s, i, e') && BodyPreferred(pat.body, s, e', sp);
        assert e' == e;
      }
    }
  }

  /** No `class="` right of the one the classed search settles on, and before the
      first `>`, is workable. */
  lemma ClassedSearchChosen(s: seq<char>, a: nat, cls: string, b: Body)
    requires a <= |s| && WellFormedBody(b) && ClassedSearch(s, a, cls, b).Some?
    ensures ClassChosen(s, a, cls, b, ClassedSearch(s, a, cls, b).value.at)
  {
    var p := ClassedSearch(s, a, cls, b).value.at;
    ClassedSearchRightmost(s, a, cls, b);
    var top := SpanWhile(s, a, NotGt);
    forall p': nat | p < p' && All(s, a, p', NotGt) ensures !Workable(s, p', cls, b) {
      assert p' <= top;
      ClassAtWorkable(s, p', cls, b);
    }
  }

  /** A classed-tag match put together from its parts is the engine's capture. */
  lemma ClassedEngineIntro(pat: Pattern, s: seq<char>, i: nat, p: nat, q: nat, e: nat, sp: Span)
    requires pat.opening.ClassedTag? && LiteralAt(s, i, pat.opening.open)
    requires ClassChosen(s, i + |pat.opening.open|, pat.opening.cls, pat.body, p)
    requires ClassValue(s, p, pat.opening.cls, q, e) && BodyPreferred(pat.body, s, e, sp)
    ensures EngineMatch(pat, s, i, sp)
  {
    assert OpeningChosen(pat.opening, pat.body, s, i, e);
  }

  /** A capture found from the rightmost workable `class="` is the engine's capture:
      that opening, then the preferred body. */
  lemma ClassedEngineSound(pat: Pattern, s: seq<char>, i: nat, p: nat, sp: Span)
    requires WellFormed(pat) && pat.opening.ClassedTag? && LiteralAt(s, i, pat.opening.open)
    requires p <= |s| && ClassChosen(s, i + |pat.opening.open|, pat.opening.cls, pat.body, p)
    requires ClassAt(s, p, pat.opening.cls, pat.body) == Some(sp)
    ensures EngineMatch(pat, s, i, sp)
  {
    ClassAtSound(s, p, pat.opening.cls, pat.body, sp);
    var q: nat, e: nat :|
      ClassValue(s, p, pat.opening.cls, q, e) && e <= |s| && BodyAt(pat.body, s, e) == Some(sp);
    BodyChosen(pat.body, s, e, sp);
    ClassedEngineIntro(pat, s, i, p, q, e, sp);
  }

  /** From the rightmost workable `class="`, the classed search finds the preferred
      body capture. */
  lemma ClassedSearchFinds(s: seq<char>, a: nat, cls: string, b: Body, p: nat, q: nat, e: nat, sp: Span)
    requires a <= p <= |s| && WellFormedBody(b)
    requires ClassChosen(s, a, cls, b, p) && ClassValue(s, p, cls, q, e) && BodyPreferred(b, s, e, sp)
    ensures ClassedSearch(s, a, cls, b).Some? && ClassedSearch(s, a, cls, b).value.value == sp
  {
    ClassedChosenPosition(s, a, cls, b, p, q, e, sp);
    BodyChosen(b, s, e, sp);
  }

  /** From the rightmost workable `class="` after `open`, the classed-tag scanner
      returns the preferred body capture. */
  lemma ClassedTagAtFinds(open: string, cls: string, b: Body, s: seq<char>, i: nat,
                          p: nat, q: nat, e: nat, sp: Span)
    requires i <= |s| && LiteralAt(s, i, open) && p <= |s| && WellFormedBody(b)
    requires ClassChosen(s, i + |open|, cls, b, p) && ClassValue(s, p, cls, q, e) && BodyPreferred(b, s, e, sp)
    ensures ClassedTagAt(open, cls, b, s, i) == Some(sp)
  {
    ClassedSearchFinds(s, i + |open|, cls, b, p, q, e, sp);
    ClassedTagFrom(open, cls, b, s, i, sp);
  }

  /** What the classed search finds after `open` is what the classed-tag scanner
      returns. */
  lemma ClassedTagFrom(open: string, cls: string, b: Body, s: seq<char>, i: nat, sp: Span)
    requires i <= |s| && LiteralAt(s, i, open)
    requires ClassedSearch(s, i + |open|, cls, b).Some?
    requires ClassedSearch(s, i + |open|, cls, b).value.value == sp
    ensures ClassedTagAt(open, cls, b, s, i) == Some(sp)
  {
    ClassedTagFound(open, cls, b, s, i);
  }

  /** The parts of an engine capture of a classed-tag regex: the chosen `class="`,
      its closing quote, and the end of the opening. */
  lemma ClassedEngineParts(pat: Pattern, s: seq<char>, i: nat, sp: Span) returns (p: nat, q: nat, e: nat)
    requires pat.opening.ClassedTag? && EngineMatch(pat, s, i, sp)
    ensures LiteralAt(s, i, pat.opening.open) && p <= |s|
    ensures ClassChosen(s, i + |pat.opening.open|, pat.opening.cls, pat.body, p)
    ensures ClassValue(s, p, pat.opening.cls, q, e) && BodyPreferred(pat.body, s, e, sp)
  {
    e :| OpeningChosen(pat.opening, pat.body, s, i, e) && BodyPreferred(pat.body, s, e, sp);
    p, q :| ClassChosen(s, i + |pat.opening.open|, pat.opening.cls, pat.body, p) &&
      ClassValue(s, p, pat.opening.cls, q, e);
  }

  /** The rightmost workable `class="` before the first `>` is the one the classed
      search settles on, and what it finds there is the body scan from the opening's
      end. */
  lemma ClassedChosenPosition(s: seq<char>, a: nat, cls: string, b: Body, p: nat, q: nat, e: nat, sp: Span)
    requires a <= p <= |s| && WellFormedBody(b)
    requires ClassChosen(s, a, cls, b, p) && ClassValue(s, p, cls, q, e) && BodyMatches(b, s, e, sp)
    ensures ClassedSearch(s, a, cls, b).Some?
    ensures ClassedSearch(s, a, cls, b).value.at == p
    ensures e <= |s| && Some(ClassedSearch(s, a, cls, b).value.value) == BodyAt(b, s, e)
  {
    ClassAtComplete(s, p, cls, b, q, e, sp);
    ClassedSearchComplete(s, a, cls, b, p, q, e, sp);
    ClassedSearchRightmost(s, a, cls, b);
    var at := ClassedSearch(s, a, cls, b).value.at;
    var top := SpanWhile(s, a, NotGt);
    assert p <= top;
    ClassAtWorkable(s, at, cls, b);
    assert All(s, a, at, NotGt);
  }

  /** The classed-tag scanner returns exactly the engine's capture. */
  lemma ClassedTagEngine(pat: Pattern, s: seq<char>, i: nat, sp: Span)
    requires WellFormed(pat) && pat.opening.ClassedTag? && i <= |s|
    ensures ClassedTagAt(pat.opening.open, pat.opening.cls, pat.body, s, i) == Some(sp) <==>
      EngineMatch(pat, s, i, sp)
  {
    if ClassedTagAt(pat.opening.open, pat.opening.cls, pat.body, s, i) == Some(sp) {
      ClassedTagChosen(pat, s, i, sp);
    }
    if EngineMatch(pat, s, i, sp) {
      var p, q, e := ClassedEngineParts(pat, s, i, sp);
      ClassedTagAtFinds(pat.opening.open, pat.opening.cls, pat.body, s, i, p, q, e, sp);
    }
  }

  /** What the classed-tag scanner returns is the engine's capture. */
  lemma ClassedTagChosen(pat: Pattern, s: seq<char>, i: nat, sp: Span)
    requires WellFormed(pat) && pat.opening.ClassedTag? && i <= |s|
    requires ClassedTagAt(pat.opening.open, pat.opening.cls, pat.body, s, i) == Some(sp)
    ensures EngineMatch(pat, s, i, sp)
  {
    var open, cls, b := pat.opening.open, pat.opening.cls, pat.body;
    ClassedTagFound(open, cls, b, s, i);
    var found := ClassedSearch(s, i + |open|, cls, b);
    ClassedSearchChosen(s, i + |open|, cls, b);
    ClassedEngineSound(pat, s, i, found.value.at, sp);
  }

  /** Started at `i`, the scanner returns exactly the capture the engine returns. */
  lemma MatchAtEngine(pat: Pattern, s: seq<char>, i: nat, sp: Span)
    requires WellFormed(pat)
    ensures MatchAt(pat, s, i) == Some(sp) <==> EngineMatch(pat, s, i, sp)
  {
    EngineMatchIsMatch(pat, s, i, sp);
    MatchAtCorrect(pat, s, i, sp);
    if i <= |s| {
      match pat.opening
      case ClassedTag(open, cls) =>
        assert MatchAt(pat, s, i) == ClassedTagAt(open, cls, pat.body, s, i);
        ClassedTagEngine(pat, s, i, sp);
      case Prefix(lit) =>
        assert MatchAt(pat, s, i) == PrefixTagAt(lit, pat.body, s, i);
        PrefixEngine(pat, s, i, sp);
      case Exact(lit) =>
        ExactEngine(pat, s, i, sp);
    }
  }

  /** `s.match(pattern)` (no `/g`): the capture of the match that starts leftmost. */
  function FirstMatch(pat: Pattern, s: seq<char>): (r: Option<Found<Span>>)
    ensures r.Some? ==> r.value.at <= r.value.value.lo <= r.value.value.hi <= |s|
    ensures r.Some? ==> MatchAt(pat, s, r.value.at) == Some(r.value.value)
    ensures r.Some? ==> forall j: nat | j < r.value.at :: MatchAt(pat, s, j).None?
    ensures r.None? ==> forall j: nat :: MatchAt(pat, s, j).None?
  {
    var m := (i: nat) => MatchAt(pat, s, i);
    assert forall i: nat :: m(i) == MatchAt(pat, s, i);
    FirstFrom(m, 0, |s|)
  }

  /** The regex matches somewhere in `s`. */
  ghost predicate MatchesSomewhere(pat: Pattern, s: seq<char>) {
    exists j: nat, sp :: MatchSpan(pat, s, j, sp)
  }

  /** `FirstMatch` finds a match exactly when the regex matches somewhere, and the
      one it finds starts where no match starts earlier. */
  lemma FirstMatchLeftmost(pat: Pattern, s: seq<char>)
    requires WellFormed(pat)
    ensures FirstMatch(pat, s).Some? <==> MatchesSomewhere(pat, s)
    ensures FirstMatch(pat, s).Some? ==>
      MatchSpan(pat, s, FirstMatch(pat, s).value.at, FirstMatch(pat, s).value.value)
    ensures FirstMatch(pat, s).Some? ==>
      forall j: nat, sp | j < FirstMatch(pat, s).value.at :: !MatchSpan(pat, s, j, sp)
  {
    var r := FirstMatch(pat, s);
    forall j: nat, sp | MatchSpan(pat, s, j, sp)
      ensures r.Some? && r.value.at <= j
    {
      MatchAtCorrect(pat, s, j, sp);
    }
    if r.Some? {
      MatchAtCorrect(pat, s, r.value.at, r.value.value);
    }
  }
}
