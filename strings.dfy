/** The JavaScript string primitives the job scraper is built from, over `seq<char>`:
    ASCII case folding for the `/i` regex flag, the white space shared by `\s` and
    `String.prototype.trim`, `includes`, maximal runs of a character class, `trim`,
    the tag-removing `replace(/<[^>]*>/g, '')` and the 200-character truncation of
    the LinkedIn description. */
module Strings {

  datatype Option<T> = None | Some(value: T)

  /** The characters that `.` in a JavaScript regex does not match. */
  predicate IsLineTerminator(c: char) {
    c == '\n' || c == '\r' || c == '\U{2028}' || c == '\U{2029}'
  }

  /** `\s`, and what `trim` removes: ASCII white space and the line terminators. */
  predicate IsSpace(c: char) {
    c == ' ' || c == '\t' || c == '\U{B}' || c == '\U{C}' || IsLineTerminator(c)
  }

  predicate NotSpace(c: char) { !IsSpace(c) }
  predicate NotLt(c: char) { c != '<' }
  predicate NotGt(c: char) { c != '>' }
  predicate NotQuote(c: char) { c != '"' }
  predicate NotDollar(c: char) { c != '$' }
  predicate NotLineTerminator(c: char) { !IsLineTerminator(c) }

  /** ASCII case folding, the comparison the `/i` flag makes between letters. */
  function Lower(c: char): (d: char)
    ensures 'A' <= c <= 'Z' ==> 'a' <= d <= 'z' && d as int == c as int + 32
    ensures !('A' <= c <= 'Z') ==> d == c
  {
    if 'A' <= c <= 'Z' then (c as int + 32) as char else c
  }

  /** `lit` occurs at index `i` of `s`, letters compared without regard to case. */
  predicate LiteralAt(s: seq<char>, i: nat, lit: seq<char>) {
    i + |lit| <= |s| && forall k | 0 <= k < |lit| :: Lower(s[i + k]) == Lower(lit[k])
  }

  /** `lit` occurs, without regard to case, entirely inside `s[lo..hi]`. */
  predicate OccursWithin(s: seq<char>, lo: nat, hi: nat, lit: seq<char>) {
    exists q: nat | lo <= q <= hi - |lit| :: q + |lit| <= hi && LiteralAt(s, q, lit)
  }

  /** `sub` occurs at index `k` of `s`, compared exactly. */
  predicate SubstringAt(s: seq<char>, k: nat, sub: seq<char>) {
    k + |sub| <= |s| && s[k..k + |sub|] == sub
  }

  /** `String.prototype.includes`: a case-sensitive substring test. */
  predicate Includes(s: seq<char>, sub: seq<char>) {
    exists k: nat | k <= |s| - |sub| :: SubstringAt(s, k, sub)
  }

  /** Every character of `s[lo..hi]` is in the class `f`. */
  predicate All(s: seq<char>, lo: nat, hi: nat, f: char -> bool) {
    hi <= |s| && forall k | lo <= k < hi :: f(s[k])
  }

  /** The end of the maximal run of characters of class `f` that starts at `i`:
      what a greedy `[...]*` over that class consumes. */
  function SpanWhile(s: seq<char>, i: nat, f: char -> bool): (r: nat)
    requires i <= |s|
    ensures i <= r <= |s|
    ensures All(s, i, r, f)
    ensures r < |s| ==> !f(s[r])
    decreases |s| - i
  {
    if i == |s| || !f(s[i]) then i else SpanWhile(s, i + 1, f)
  }

  /** A run of class `f` from `i` that stops at the end or at a character outside
      the class is the maximal one. */
  lemma SpanWhileUnique(s: seq<char>, i: nat, w: nat, f: char -> bool)
    requires i <= w <= |s| && All(s, i, w, f) && (w == |s| || !f(s[w]))
    ensures w == SpanWhile(s, i, f)
  {
  }

  /** A position found by a left-to-right search, with what was found there. */
  datatype Found<T> = Found(at: nat, value: T)

  /** The leftmost position in `i..n` at which `m` succeeds: how a regex without `/g`
      tries its start positions in order and stops at the first that matches. */
  function FirstFrom<T>(m: nat -> Option<T>, i: nat, n: nat): (r: Option<Found<T>>)
    requires i <= n + 1
    ensures r.Some? ==> i <= r.value.at <= n && m(r.value.at) == Some(r.value.value)
    ensures r.Some? ==> forall j | i <= j < r.value.at :: m(j).None?
    ensures r.None? ==> forall j | i <= j <= n :: m(j).None?
    decreases n + 1 - i
  {
    if i == n + 1 then None
    else match m(i)
      case Some(v) => Some(Found(i, v))
      case None => FirstFrom(m, i + 1, n)
  }

  /** The rightmost position in `a..p` at which `m` succeeds: how a greedy quantifier
      gives back one character at a time until the rest of the regex matches. */
  function LastFrom<T>(m: nat -> Option<T>, a: nat, p: nat): (r: Option<Found<T>>)
    ensures r.Some? ==> a <= r.value.at <= p && m(r.value.at) == Some(r.value.value)
    ensures r.Some? ==> forall j | r.value.at < j <= p :: m(j).None?
    ensures r.None? ==> forall j | a <= j <= p :: m(j).None?
    decreases p
  {
    if p < a then None
    else match m(p)
      case Some(v) => Some(Found(p, v))
      case None => if p == 0 then None else LastFrom(m, a, p - 1)
  }

  /** The leftmost occurrence of `lit` at or after `i`, without regard to case. */
  function FindLiteral(s: seq<char>, i: nat, lit: seq<char>): (r: Option<nat>)
    requires i <= |s|
    ensures r.Some? ==> i <= r.value <= |s| && LiteralAt(s, r.value, lit)
    ensures r.Some? ==> forall k | i <= k < r.value :: !LiteralAt(s, k, lit)
    ensures r.None? ==> forall k | i <= k <= |s| :: !LiteralAt(s, k, lit)
    decreases |s| - i
  {
    if LiteralAt(s, i, lit) then Some(i)
    else if i == |s| then None
    else FindLiteral(s, i + 1, lit)
  }

  /** The start of the maximal run of white space that ends at `hi`. */
  function TrimEnd(s: seq<char>, hi: nat): (r: nat)
    requires hi <= |s|
    ensures r <= hi
    ensures All(s, r, hi, IsSpace)
    ensures r > 0 ==> !IsSpace(s[r - 1])
    decreases hi
  {
    if hi == 0 || !IsSpace(s[hi - 1]) then hi else TrimEnd(s, hi - 1)
  }

  predicate IsTrimmed(s: seq<char>) {
    s == [] || (!IsSpace(s[0]) && !IsSpace(s[|s| - 1]))
  }

  /** The bounds `trim` keeps: the widest slice with no white space at either end,
      everything outside it being white space. */
  function TrimBounds(s: seq<char>): (b: (nat, nat))
    ensures b.0 <= b.1 <= |s|
    ensures All(s, 0, b.0, IsSpace) && All(s, b.1, |s|, IsSpace)
    ensures b.0 < b.1 ==> !IsSpace(s[b.0]) && !IsSpace(s[b.1 - 1])
  {
    var lo := SpanWhile(s, 0, IsSpace);
    if lo == |s| then (lo, lo) else (lo, TrimEnd(s, |s|))
  }

  /** `String.prototype.trim`. */
  function Trim(s: seq<char>): (r: seq<char>)
    ensures IsTrimmed(r)
    ensures |r| <= |s|
  {
    var b := TrimBounds(s);
    s[b.0..b.1]
  }

  /** `trim` removes only white space: every other character of `s` survives it. */
  lemma TrimKeeps(s: seq<char>, k: nat)
    requires k < |s| && !IsSpace(s[k])
    ensures s[k] in Trim(s)
  {
    var b := TrimBounds(s);
    assert b.0 <= k < b.1;
    assert Trim(s)[k - b.0] == s[k];
  }

  /** A string that is already trimmed is left alone by `trim`. */
  lemma TrimTrimmed(s: seq<char>)
    requires IsTrimmed(s)
    ensures Trim(s) == s
  {
    if s != [] {
      var lo := SpanWhile(s, 0, IsSpace);
      assert lo == 0;
      assert TrimEnd(s, |s|) == |s|;
      assert s[0..|s|] == s;
    }
  }

  /** So `trim` is idempotent. */
  lemma TrimIdempotent(s: seq<char>)
    ensures Trim(Trim(s)) == Trim(s)
  {
    TrimTrimmed(Trim(s));
  }

  /** `trim` keeps a slice of its input, so every character class that holds
      throughout `s` holds throughout `Trim(s)`. */
  lemma TrimKeepsClass(s: seq<char>, f: char -> bool)
    requires All(s, 0, |s|, f)
    ensures All(Trim(s), 0, |Trim(s)|, f)
  {
    var b := TrimBounds(s);
    forall k | 0 <= k < |Trim(s)| ensures f(Trim(s)[k]) {
      assert Trim(s)[k] == s[b.0 + k];
    }
  }

  /** `trim` cannot create a tag. */
  lemma TrimKeepsNoTag(s: seq<char>)
    requires NoTag(s)
    ensures NoTag(Trim(s))
  {
    var b := TrimBounds(s);
    forall j, k | 0 <= j < k < |Trim(s)| ensures !(Trim(s)[j] == '<' && Trim(s)[k] == '>') {
      assert Trim(s)[j] == s[b.0 + j] && Trim(s)[k] == s[b.0 + k];
    }
  }

  /** `a` is obtained from `b` by deleting characters: what is kept keeps its order. */
  ghost predicate IsSubsequence(a: seq<char>, b: seq<char>)
    decreases |b|
  {
    a == [] ||
    (b != [] && ((a[0] == b[0] && IsSubsequence(a[1..], b[1..])) || IsSubsequence(a, b[1..])))
  }

  lemma {:induction false} SubsequenceOfSuffix(a: seq<char>, b: seq<char>, k: nat)
    requires k <= |b| && IsSubsequence(a, b[k..])
    ensures IsSubsequence(a, b)
    decreases k
  {
    if k > 0 {
      assert b[1..][k - 1..] == b[k..];
      SubsequenceOfSuffix(a, b[1..], k - 1);
    }
  }

  lemma {:induction false} SubsequenceChars(a: seq<char>, b: seq<char>, c: char)
    requires IsSubsequence(a, b) && c in a
    ensures c in b
    decreases |b|
  {
    if a[0] == b[0] && IsSubsequence(a[1..], b[1..]) {
      if c != a[0] {
        SubsequenceChars(a[1..], b[1..], c);
      }
    } else {
      SubsequenceChars(a, b[1..], c);
    }
  }

  /** No `<` is followed, anywhere later, by a `>`: the string holds no complete tag. */
  predicate NoTag(s: seq<char>) {
    forall j, k | 0 <= j < k < |s| :: !(s[j] == '<' && s[k] == '>')
  }

  /** `s.replace(/<[^>]*>/g, '')`: scanning left to right, a `<` that has a `>`
      somewhere after it is removed together with everything up to and including the
      first such `>`; a `<` with no `>` after it is kept, and the scan moves on. */
  function StripTags(s: seq<char>): (r: seq<char>)
    ensures IsSubsequence(r, s)
    decreases |s|
  {
    if s == [] then []
    else if s[0] == '<' && SpanWhile(s, 1, NotGt) < |s| then
      var g := SpanWhile(s, 1, NotGt);
      var rest := StripTags(s[g + 1..]);
      SubsequenceOfSuffix(rest, s, g + 1);
      rest
    else
      [s[0]] + StripTags(s[1..])
  }

  /** After stripping, no `<` is followed by a `>`. */
  lemma {:induction false} StripTagsLeavesNoTag(s: seq<char>)
    ensures NoTag(StripTags(s))
    decreases |s|
  {
    if s == [] {
    } else if s[0] == '<' && SpanWhile(s, 1, NotGt) < |s| {
      StripTagsLeavesNoTag(s[SpanWhile(s, 1, NotGt) + 1..]);
    } else {
      var tail := StripTags(s[1..]);
      StripTagsLeavesNoTag(s[1..]);
      var r := StripTags(s);
      assert r == [s[0]] + tail;
      if s[0] == '<' {
        // No `>` follows this `<` in `s`, and the tail keeps only characters of `s[1..]`.
        forall k | 0 < k < |r| ensures r[k] != '>' {
          assert r[k] == tail[k - 1];
          SubsequenceChars(tail, s[1..], r[k]);
          var m :| 0 <= m < |s[1..]| && s[1..][m] == r[k];
          assert s[m + 1] == r[k];
        }
      }
    }
  }

  /** Text holding no `<` passes through tag removal unchanged, whatever follows. */
  lemma {:induction false} StripTagsPrefix(a: seq<char>, x: seq<char>)
    requires '<' !in a
    ensures StripTags(a + x) == a + StripTags(x)
    decreases |a|
  {
    if a != [] {
      assert a[0] in a && (a + x)[0] == a[0] != '<';
      assert (a + x)[1..] == a[1..] + x;
      assert forall c | c in a[1..] :: c in a;
      StripTagsPrefix(a[1..], x);
      assert StripTags(a + x) == [a[0]] + StripTags(a[1..] + x);
      ConsAppend(a, StripTags(x));
    } else {
      assert a + x == x;
    }
  }

  lemma ConsAppend(a: seq<char>, y: seq<char>)
    requires a != []
    ensures [a[0]] + (a[1..] + y) == a + y
  {
    assert a == [a[0]] + a[1..];
  }

  /** A complete tag `<m>` is removed, text before it that holds no `<` is kept,
      and removal goes on after it. */
  lemma StripTagsSplit(a: seq<char>, m: seq<char>, b: seq<char>)
    requires '<' !in a && '>' !in m
    ensures StripTags(a + "<" + m + ">" + b) == a + StripTags(b)
  {
    var t := "<" + m + ">" + b;
    assert a + "<" + m + ">" + b == a + t;
    StripTagsPrefix(a, t);
    assert All(t, 1, |m| + 1, NotGt) by {
      forall k | 1 <= k < |m| + 1 ensures NotGt(t[k]) {
        assert t[k] == m[k - 1];
      }
    }
    SpanWhileUnique(t, 1, |m| + 1, NotGt);
    assert t[|m| + 2..] == b;
  }

  /** A string without a complete tag is returned unchanged, so stripping is idempotent:
      `StripTags(s) == s` exactly when `s` holds no complete tag. */
  lemma {:induction false} StripTagsIdentity(s: seq<char>)
    ensures NoTag(s) <==> StripTags(s) == s
    decreases |s|
  {
    if NoTag(s) && s != [] {
      assert NoTag(s[1..]) by {
        forall j, k | 0 <= j < k < |s[1..]| ensures !(s[1..][j] == '<' && s[1..][k] == '>') {
          assert s[1..][j] == s[j + 1] && s[1..][k] == s[k + 1];
        }
      }
      StripTagsIdentity(s[1..]);
      if s[0] == '<' {
        var g := SpanWhile(s, 1, NotGt);
        assert g == |s|;
      }
    }
    if StripTags(s) == s {
      StripTagsLeavesNoTag(s);
    }
  }

  /** The description cap. */
  const DescriptionLimit: nat := 200
  const Ellipsis: seq<char> := "..."

  /** `t.substring(0, 200) + (t.length > 200 ? '...' : '')`: a text of at most 200
      characters is kept verbatim; a longer one is cut to its first 200 characters,
      and the ellipsis is appended exactly when something was cut. */
  function Truncate(t: seq<char>): (r: seq<char>)
    ensures |r| <= DescriptionLimit + |Ellipsis|
    ensures |t| <= DescriptionLimit ==> r == t
    ensures |t| > DescriptionLimit ==>
      |r| == DescriptionLimit + |Ellipsis| && r[..DescriptionLimit] == t[..DescriptionLimit] &&
      r[DescriptionLimit..] == Ellipsis
  {
    var cut := if |t| < DescriptionLimit then |t| else DescriptionLimit;
    t[..cut] + (if |t| > DescriptionLimit then Ellipsis else "")
  }

  /** Cutting a text without tags and appending the ellipsis leaves no tag. */
  lemma TruncateKeepsNoTag(t: seq<char>)
    requires NoTag(t)
    ensures NoTag(Truncate(t))
  {
    var r := Truncate(t);
    forall j, k | 0 <= j < k < |r| ensures !(r[j] == '<' && r[k] == '>') {
      if |t| > DescriptionLimit {
        if k < DescriptionLimit {
          assert r[j] == t[j] && r[k] == t[k];
        } else {
          assert r[k] == Ellipsis[k - DescriptionLimit];
        }
      }
    }
  }
}
