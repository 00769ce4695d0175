/** The job-scraping API route: the four site extractors, each turning the text of
    a job page into a five-field record, the choice of extractor by the host named
    in the URL, and the POST handler's mapping of failures to error replies. */
module ScrapeJob {
  import opened Strings
  import opened Patterns
  import opened GenericRules

  /** The record every extractor returns; a field nothing was found for stays "". */
  datatype JobData = JobData(
    company: string,
    position: string,
    location: string,
    description: string,
    salary: string)

  // ---------------------------------------------------------------------------
  // The patterns, as regexes of the shape `Patterns` knows.

  const Roles: seq<string> := ["Engineer", "Developer", "Manager", "Analyst", "Designer"]

  const LinkedInCompany := Pattern(ClassedTag("<span", "topcard__flavor"), Text("</span>"))
  const LinkedInOrgLink := Pattern(ClassedTag("<a", "topcard__org-name-link"), Text("</a>"))
  const LinkedInTitle := Pattern(ClassedTag("<h1", "topcard__title"), Text("</h1>"))
  const LinkedInRoleHeading := Pattern(Prefix("<h1"), Keyword(Roles, "</h1>"))
  const LinkedInLocation := Pattern(ClassedTag("<span", "topcard__flavor--bullet"), Text("</span>"))
  const LinkedInDescription := Pattern(ClassedTag("<div", "description__text"), Until("</div>"))

  const IndeedCompanyTestId := Pattern(Prefix("data-testid=\"inlineHeader-companyName\""), Text("<"))
  const IndeedCompanySpan := Pattern(ClassedTag("<span", "companyName"), Text("</span>"))
  const IndeedTitleClass := Pattern(ClassedTag("<h1", "jobsearch-JobInfoHeader-title"), Text("</h1>"))
  const IndeedTitleTestId := Pattern(Prefix("data-testid=\"jobsearch-JobInfoHeader-title\""), Text("<"))
  const IndeedLocation := Pattern(Prefix("data-testid=\"job-location\""), Text("<"))
  const IndeedSalary := Pattern(Prefix("data-testid=\"salaryInfoAndJobType\""), Dollar)

  const GlassdoorEmployer := Pattern(ClassedTag("<div", "employer"), Text("</div>"))
  const GlassdoorTitle := Pattern(ClassedTag("<h1", "jobHeader"), Text("</h1>"))

  /** `<title>([^<]*(?:Engineer|...|Jobs?)[^<]*)<\/title>`: as the keyword sits inside
      a run of non-`<` characters that is captured whole, `Jobs?` matches exactly
      where `Job` does. */
  const GenericTitle := Pattern(Exact("<title>"), Keyword(Roles + ["Job"], "</title>"))

  // ---------------------------------------------------------------------------
  // Captures and fallbacks.

  /** `html.match(p)?.[1]`. */
  function Capture(p: Pattern, html: string): (r: Option<string>)
    ensures r.Some? ==> exists lo: nat, hi: nat | lo <= hi <= |html| :: r.value == html[lo..hi]
  {
    var m := FirstMatch(p, html);
    if m.Some? then
      var sp := m.value.value;
      assert html[sp.lo..sp.hi] == html[sp.lo..sp.hi];
      Some(html[sp.lo..sp.hi])
    else None
  }

  /** `c` is what the regex engine captures for `p` in `html`: the match starts at
      the leftmost position where `p` matches at all, and among the matches starting
      there it is the one the engine settles on (`EngineMatch`). */
  ghost predicate LeftmostCapture(p: Pattern, html: string, c: string) {
    exists j: nat, sp: Span ::
      EngineMatch(p, html, j, sp) && sp.lo <= sp.hi <= |html| && c == html[sp.lo..sp.hi] &&
      forall j': nat, sp': Span | j' < j :: !MatchSpan(p, html, j', sp')
  }

  /** `match(...)` yields a group exactly when the regex matches somewhere, and the
      group is the engine's capture at the leftmost match. */
  lemma CaptureCorrect(p: Pattern, html: string)
    requires WellFormed(p)
    ensures Capture(p, html).Some? <==> MatchesSomewhere(p, html)
    ensures Capture(p, html).Some? ==> LeftmostCapture(p, html, Capture(p, html).value)
  {
    FirstMatchLeftmost(p, html);
    var m := FirstMatch(p, html);
    if m.Some? {
      var sp := m.value.value;
      MatchAtEngine(p, html, m.value.at, sp);
      assert EngineMatch(p, html, m.value.at, sp);
      assert Capture(p, html).value == html[sp.lo..sp.hi];
    }
  }

  /** The engine's capture is determined: there is only one. */
  lemma LeftmostCaptureUnique(p: Pattern, html: string, c1: string, c2: string)
    requires WellFormed(p)
    requires LeftmostCapture(p, html, c1) && LeftmostCapture(p, html, c2)
    ensures c1 == c2
  {
    var j1: nat, sp1: Span :| EngineMatch(p, html, j1, sp1) && sp1.lo <= sp1.hi <= |html| &&
      c1 == html[sp1.lo..sp1.hi] && forall j': nat, sp': Span | j' < j1 :: !MatchSpan(p, html, j', sp');
    var j2: nat, sp2: Span :| EngineMatch(p, html, j2, sp2) && sp2.lo <= sp2.hi <= |html| &&
      c2 == html[sp2.lo..sp2.hi] && forall j': nat, sp': Span | j' < j2 :: !MatchSpan(p, html, j', sp');
    EngineMatchIsMatch(p, html, j1, sp1);
    EngineMatchIsMatch(p, html, j2, sp2);
    assert j1 == j2;
    MatchAtEngine(p, html, j1, sp1);
    MatchAtEngine(p, html, j1, sp2);
  }

  /** `(html.match(p1) || html.match(p2) || ...)`, its group trimmed, or "" when no
      pattern matches: a later pattern is consulted only when every earlier one fails. */
  function FirstFilled(pats: seq<Pattern>, html: string): (r: string)
    ensures IsTrimmed(r)
    decreases |pats|
  {
    if pats == [] then ""
    else
      var c := Capture(pats[0], html);
      if c.Some? then Trim(c.value) else FirstFilled(pats[1..], html)
  }

  /** What a field filled from `pats` holds, read off the regexes: the trimmed
      leftmost capture of the first pattern that matches anywhere, else "". */
  ghost predicate FilledBy(field: string, pats: seq<Pattern>, html: string)
    decreases |pats|
  {
    if pats == [] then field == ""
    else if MatchesSomewhere(pats[0], html) then
      exists c :: LeftmostCapture(pats[0], html, c) && field == Trim(c)
    else FilledBy(field, pats[1..], html)
  }

  predicate AllWellFormed(pats: seq<Pattern>) {
    forall k | 0 <= k < |pats| :: WellFormed(pats[k])
  }

  lemma {:induction false} FirstFilledCorrect(pats: seq<Pattern>, html: string)
    requires AllWellFormed(pats)
    ensures FilledBy(FirstFilled(pats, html), pats, html)
    decreases |pats|
  {
    if pats != [] {
      CaptureCorrect(pats[0], html);
      if !MatchesSomewhere(pats[0], html) {
        assert AllWellFormed(pats[1..]) by {
          forall k | 0 <= k < |pats[1..]| ensures WellFormed(pats[1..][k]) {
            assert pats[1..][k] == pats[k + 1];
          }
        }
        FirstFilledCorrect(pats[1..], html);
      }
    }
  }

  // ---------------------------------------------------------------------------
  // LinkedIn

  /** The description: the body of the `description__text` div up to the first
      `</div>`, tags removed, trimmed and cut to 200 characters. */
  function LinkedInDescriptionOf(html: string): (d: string)
    ensures |d| <= DescriptionLimit + |Ellipsis|
    ensures NoTag(d)
  {
    var c := Capture(LinkedInDescription, html);
    if c.Some? then
      var clean := Trim(StripTags(c.value));
      StripTagsLeavesNoTag(c.value);
      TrimKeepsNoTag(StripTags(c.value));
      TruncateKeepsNoTag(clean);
      Truncate(clean)
    else ""
  }

  /** `extractLinkedInData`: trimmed fields, a tag-free description of at most 203
      characters, and no salary. */
  function ExtractLinkedIn(html: string): (r: JobData)
    ensures IsTrimmed(r.company) && IsTrimmed(r.position) && IsTrimmed(r.location)
    ensures NoTag(r.description) && |r.description| <= DescriptionLimit + |Ellipsis|
    ensures r.salary == ""
  {
    JobData(
      company := FirstFilled([LinkedInCompany, LinkedInOrgLink], html),
      position := FirstFilled([LinkedInTitle, LinkedInRoleHeading], html),
      location := FirstFilled([LinkedInLocation], html),
      description := LinkedInDescriptionOf(html),
      salary := "")
  }

  /** The LinkedIn record field by field: company and title fall back to their second
      pattern only when the first matches nowhere; the description is the cleaned
      leftmost body cut to 200 characters, "..." appended exactly when text was cut;
      the salary is never looked for. */
  lemma ExtractLinkedInSpec(html: string)
    ensures FilledBy(ExtractLinkedIn(html).company, [LinkedInCompany, LinkedInOrgLink], html)
    ensures FilledBy(ExtractLinkedIn(html).position, [LinkedInTitle, LinkedInRoleHeading], html)
    ensures FilledBy(ExtractLinkedIn(html).location, [LinkedInLocation], html)
    ensures !MatchesSomewhere(LinkedInDescription, html) ==> ExtractLinkedIn(html).description == ""
    ensures MatchesSomewhere(LinkedInDescription, html) ==>
      exists c :: LeftmostCapture(LinkedInDescription, html, c) &&
        ExtractLinkedIn(html).description == Truncate(Trim(StripTags(c)))
    ensures ExtractLinkedIn(html).salary == ""
  {
    FirstFilledCorrect([LinkedInCompany, LinkedInOrgLink], html);
    FirstFilledCorrect([LinkedInTitle, LinkedInRoleHeading], html);
    FirstFilledCorrect([LinkedInLocation], html);
    CaptureCorrect(LinkedInDescription, html);
  }

  // ---------------------------------------------------------------------------
  // Indeed

  /** `extractIndeedData`: trimmed fields, and no description. */
  function ExtractIndeed(html: string): (r: JobData)
    ensures IsTrimmed(r.company) && IsTrimmed(r.position) && IsTrimmed(r.location)
    ensures IsTrimmed(r.salary)
    ensures r.description == ""
  {
    JobData(
      company := FirstFilled([IndeedCompanyTestId, IndeedCompanySpan], html),
      position := FirstFilled([IndeedTitleClass, IndeedTitleTestId], html),
      location := FirstFilled([IndeedLocation], html),
      description := "",
      salary := FirstFilled([IndeedSalary], html))
  }

  /** The Indeed record field by field; the description is never looked for. */
  lemma ExtractIndeedSpec(html: string)
    ensures FilledBy(ExtractIndeed(html).company, [IndeedCompanyTestId, IndeedCompanySpan], html)
    ensures FilledBy(ExtractIndeed(html).position, [IndeedTitleClass, IndeedTitleTestId], html)
    ensures FilledBy(ExtractIndeed(html).location, [IndeedLocation], html)
    ensures FilledBy(ExtractIndeed(html).salary, [IndeedSalary], html)
    ensures ExtractIndeed(html).description == ""
  {
    FirstFilledCorrect([IndeedCompanyTestId, IndeedCompanySpan], html);
    FirstFilledCorrect([IndeedTitleClass, IndeedTitleTestId], html);
    FirstFilledCorrect([IndeedLocation], html);
    FirstFilledCorrect([IndeedSalary], html);
  }

  /** A capture of `([^<]*\$[^<]+)` still holds its `$` once trimmed. */
  lemma DollarSurvivesTrim(html: string, e: nat, sp: Span)
    requires BodyMatches(Dollar, html, e, sp)
    ensures '$' in Trim(html[sp.lo..sp.hi])
  {
    var d: nat :| e <= d && d + 1 < sp.hi && html[d] == '$';
    var c := html[sp.lo..sp.hi];
    assert c[d - sp.lo] == '$';
    TrimKeeps(c, d - sp.lo);
  }

  /** The Indeed salary is set exactly when the salary regex matches, and then holds
      a `$`: the capture has one with a character after it, and `trim` keeps it. */
  lemma IndeedSalaryHasDollar(html: string)
    ensures ExtractIndeed(html).salary != "" <==> MatchesSomewhere(IndeedSalary, html)
    ensures ExtractIndeed(html).salary != "" ==> '$' in ExtractIndeed(html).salary
  {
    CaptureCorrect(IndeedSalary, html);
    var c := Capture(IndeedSalary, html);
    assert ExtractIndeed(html).salary == FirstFilled([IndeedSalary], html);
    if c.Some? {
      var m := FirstMatch(IndeedSalary, html);
      var sp := m.value.value;
      MatchAtCorrect(IndeedSalary, html, m.value.at, sp);
      var e: nat :| OpeningMatches(IndeedSalary.opening, html, m.value.at, e) &&
        BodyMatches(IndeedSalary.body, html, e, sp);
      DollarSurvivesTrim(html, e, sp);
    } else {
      assert [IndeedSalary][1..] == [];
      assert FirstFilled([IndeedSalary][1..], html) == "";
    }
  }

  // ---------------------------------------------------------------------------
  // Glassdoor

  /** `extractGlassdoorData`: a trimmed company and title, nothing else. */
  function ExtractGlassdoor(html: string): (r: JobData)
    ensures IsTrimmed(r.company) && IsTrimmed(r.position)
    ensures r.location == "" && r.description == "" && r.salary == ""
  {
    JobData(
      company := FirstFilled([GlassdoorEmployer], html),
      position := FirstFilled([GlassdoorTitle], html),
      location := "",
      description := "",
      salary := "")
  }

  /** The Glassdoor record: company and title only. */
  lemma ExtractGlassdoorSpec(html: string)
    ensures FilledBy(ExtractGlassdoor(html).company, [GlassdoorEmployer], html)
    ensures FilledBy(ExtractGlassdoor(html).position, [GlassdoorTitle], html)
    ensures ExtractGlassdoor(html).location == "" && ExtractGlassdoor(html).description == ""
    ensures ExtractGlassdoor(html).salary == ""
  {
    FirstFilledCorrect([GlassdoorEmployer], html);
    FirstFilledCorrect([GlassdoorTitle], html);
  }

  // ---------------------------------------------------------------------------
  // Generic

  /** Position and company from a page title: the trimmed groups of the title
      split, or nothing when the split regex does not match. */
  function SplitFields(t: string): (r: Option<(string, string)>)
    ensures r.Some? <==> exists e: nat :: TailAt(t, e).Some?
    ensures r.Some? ==> IsTrimmed(r.value.0) && IsTrimmed(r.value.1)
    ensures r.Some? ==> '-' !in r.value.1 && '|' !in r.value.1
    ensures r.Some? ==> SplitTitle(t).Some?
    ensures r.Some? ==> r.value.0 == Trim(t[SplitTitle(t).value.position.lo..SplitTitle(t).value.position.hi])
    ensures r.Some? ==> r.value.1 == Trim(t[SplitTitle(t).value.company.lo..SplitTitle(t).value.company.hi])
  {
    var split := SplitTitle(t);
    if split.None? then None
    else
      var p := split.value.position;
      var c := split.value.company;
      var company := t[c.lo..c.hi];
      assert All(company, 0, |company|, NotDashPipe) by {
        forall k | 0 <= k < |company| ensures NotDashPipe(company[k]) {
          assert company[k] == t[c.lo + k];
        }
      }
      TrimKeepsClass(company, NotDashPipe);
      Some((Trim(t[p.lo..p.hi]), Trim(company)))
  }

  const DataEngineerTitle := "Data Engineer - Acme"

  /** In "Data Engineer - Acme" no separator follows position 0 ... */
  lemma DataEngineerNoTailAt0()
    ensures TailAt(DataEngineerTitle, 0).None?
  {
    var t := DataEngineerTitle;
    assert SpanWhile(t, 0, IsSpace) == 0;
    assert Lower(t[0]) != Lower("at"[0]);
  }

  /** ... but `at` follows position 1. */
  lemma DataEngineerTailAt1()
    ensures TailAt(DataEngineerTitle, 1).Some?
  {
    var t := DataEngineerTitle;
    assert SpanWhile(t, 1, IsSpace) == 1;
    assert LiteralAt(t, 1, "at");
  }

  /** The separator `at` is matched inside words too: the earliest place the split
      regex can end its lazy group is after the `D` of "Data". */
  lemma SplitInsideWord()
    ensures SplitFields(DataEngineerTitle).Some?
    ensures SplitFields(DataEngineerTitle).value.0 == "D"
  {
    var t := DataEngineerTitle;
    DataEngineerNoTailAt0();
    DataEngineerTailAt1();
    var split := SplitTitle(t);
    assert split.value.at == 1;
    assert LineStart(t, 1) == 0;
    assert t[0..1] == "D";
    TrimTrimmed("D");
  }

  const SeniorEngineerTitle := "Senior Engineer - Acme Corp"

  /** In "Senior Engineer - Acme Corp" the earliest place a separator follows is
      15, before ` - `, and the company group is "Acme Corp". */
  lemma SeniorEngineerTail()
    ensures TailAt(SeniorEngineerTitle, 15) == Some(Span(18, 27))
    ensures forall e: nat | e < 15 :: TailAt(SeniorEngineerTitle, e).None?
    ensures All(SeniorEngineerTitle, 0, 15, NotLineTerminator)
    ensures SeniorEngineerTitle[0..15] == "Senior Engineer"
    ensures SeniorEngineerTitle[18..27] == "Acme Corp"
  {
    var t := SeniorEngineerTitle;
    assert t[..15] == "Senior Engineer";
    forall k | 0 <= k < 15
      ensures NotDashPipe(t[k]) && Lower(t[k]) != 'a' && NotLineTerminator(t[k])
    {
      assert t[k] == t[..15][k];
    }
    NoSeparatorBefore(t, 15);
    SeniorEngineerCompany();
  }

  lemma SeniorEngineerCompany()
    ensures TailAt(SeniorEngineerTitle, 15) == Some(Span(18, 27))
    ensures SeniorEngineerTitle[18..27] == "Acme Corp"
  {
    var t := SeniorEngineerTitle;
    assert t[18..] == "Acme Corp";
    assert t[18..27] == t[18..];
    assert SpanWhile(t, 15, IsSpace) == 16;
    assert SeparatorAt(t, 15) == Some(17);
    assert SpanWhile(t, 17, IsSpace) == 18;
    assert All(t, 18, 27, NotDashPipe) by {
      forall k | 18 <= k < 27 ensures NotDashPipe(t[k]) {
        assert t[k] == t[18..][k - 18];
      }
    }
    SpanWhileUnique(t, 18, 27, NotDashPipe);
  }

  /** The usual form of a page title splits at its ` - `: position before it,
      company after it. */
  lemma SeniorEngineerSplit()
    ensures SplitFields(SeniorEngineerTitle) == Some(("Senior Engineer", "Acme Corp"))
  {
    var t := SeniorEngineerTitle;
    SeniorEngineerTail();
    var split := SplitTitle(t);
    assert split.value.at == 15;
    LineStartNoTerminator(t, 15);
    SeniorEngineerTrimmed();
  }

  lemma SeniorEngineerTrimmed()
    ensures Trim("Senior Engineer") == "Senior Engineer" && Trim("Acme Corp") == "Acme Corp"
  {
    TrimTrimmed("Senior Engineer");
    TrimTrimmed("Acme Corp");
  }

  /** `extractGenericData`: a trimmed title split, whose company holds no `-` or
      `|`, and a salary that starts with `$`. */
  function ExtractGeneric(html: string): (r: JobData)
    ensures IsTrimmed(r.company) && IsTrimmed(r.position)
    ensures '-' !in r.company && '|' !in r.company
    ensures r.salary != "" ==> r.salary[0] == '$'
    ensures r.location == "" && r.description == ""
  {
    var title := Capture(GenericTitle, html);
    var fields := if title.Some? then SplitFields(Trim(title.value)) else None;
    JobData(
      company := if fields.Some? then fields.value.1 else "",
      position := if fields.Some? then fields.value.0 else "",
      location := "",
      description := "",
      salary := GenericSalary(html))
  }

  /** The generic record. The title split is tried only on the trimmed text of the
      leftmost `<title>` that holds a role word (or `Job`), and sets position and
      company together or neither; the company never holds `-` or `|`. */
  lemma ExtractGenericTitleSpec(html: string)
    ensures !MatchesSomewhere(GenericTitle, html) ==>
      ExtractGeneric(html).position == "" && ExtractGeneric(html).company == ""
    ensures MatchesSomewhere(GenericTitle, html) ==>
      exists c :: LeftmostCapture(GenericTitle, html, c) &&
        (SplitFields(Trim(c)).Some? ==>
          (ExtractGeneric(html).position, ExtractGeneric(html).company) == SplitFields(Trim(c)).value) &&
        (SplitFields(Trim(c)).None? ==>
          ExtractGeneric(html).position == "" && ExtractGeneric(html).company == "")
    ensures '-' !in ExtractGeneric(html).company && '|' !in ExtractGeneric(html).company
    ensures ExtractGeneric(html).location == "" && ExtractGeneric(html).description == ""
  {
    CaptureCorrect(GenericTitle, html);
  }

  /** `html.match(salaryRegex)?.[0]`, or "": a salary starts with `$` and a digit
      or comma, and needs no trim. */
  function GenericSalary(html: string): (r: string)
    ensures r != "" ==> |r| >= 2 && r[0] == '$' && IsDigitOrComma(r[1]) && IsTrimmed(r)
  {
    var m := FirstSalary(html);
    if m.Some? then
      SalaryMatchShape(html, m.value.at, m.value.value);
      html[m.value.at..m.value.value]
    else ""
  }

  /** The generic salary is the leftmost match of the salary regex anywhere in the
      page, taken verbatim: it starts with `$` and a digit or comma, and needs no trim. */
  lemma GenericSalarySpec(html: string)
    ensures GenericSalary(html) == "" <==> forall j: nat :: SalaryAt(html, j).None?
    ensures GenericSalary(html) != "" ==>
      exists j: nat, e: nat :: SalaryAt(html, j) == Some(e) && j <= e <= |html| &&
        GenericSalary(html) == html[j..e] &&
        forall j': nat | j' < j :: SalaryAt(html, j').None?
  {
  }

  /** The same in the regex's own terms: the generic salary is `""` exactly when the
      salary regex matches nowhere, and otherwise the text of its leftmost match, with
      the range and the pay period taken whenever they follow. */
  lemma GenericSalaryRegex(html: string)
    ensures GenericSalary(html) == "" <==> forall j: nat, e: nat :: !SalaryMatches(html, j, e)
    ensures GenericSalary(html) != "" ==>
      exists j: nat, e: nat :: SalaryMatches(html, j, e) && j <= e <= |html| &&
        GenericSalary(html) == html[j..e] &&
        forall j': nat, e': nat | j' < j :: !SalaryMatches(html, j', e')
  {
    var m := FirstSalary(html);
    if m.Some? {
      FirstSalaryFound(html);
      assert GenericSalary(html) == html[m.value.at..m.value.value] != "";
    } else {
      FirstSalaryNone(html);
    }
  }

  // ---------------------------------------------------------------------------
  // Dispatch and the handler

  datatype Site = LinkedIn | Indeed | Glassdoor | Generic

  /** The extractor a URL selects: hosts tested by case-sensitive substring, in the
      order LinkedIn, Indeed, Glassdoor, falling back to the generic one. */
  function SiteFor(url: string): (r: Site)
    ensures r == LinkedIn <==> Includes(url, "linkedin.com")
    ensures r == Indeed <==> !Includes(url, "linkedin.com") && Includes(url, "indeed.com")
    ensures r == Glassdoor <==>
      !Includes(url, "linkedin.com") && !Includes(url, "indeed.com") && Includes(url, "glassdoor.com")
  {
    if Includes(url, "linkedin.com") then LinkedIn
    else if Includes(url, "indeed.com") then Indeed
    else if Includes(url, "glassdoor.com") then Glassdoor
    else Generic
  }

  /** The record the selected extractor returns: company and title are trimmed
      whichever site it is. */
  function Extract(site: Site, html: string): (r: JobData)
    ensures IsTrimmed(r.company) && IsTrimmed(r.position)
    ensures site != Generic ==> r.location == Trim(r.location)
    ensures NoTag(r.description) && |r.description| <= DescriptionLimit + |Ellipsis|
  {
    match site
    case LinkedIn => ExtractLinkedIn(html)
    case Indeed => ExtractIndeed(html)
    case Glassdoor => ExtractGlassdoor(html)
    case Generic => ExtractGeneric(html)
  }

  /** The parsed request body: unparseable, or a JSON object whose `url` may be absent. */
  datatype RequestBody = Unparseable | Json(url: Option<string>)

  /** What fetching a URL gives: a thrown network error, or a response with its
      `ok` flag and text. */
  datatype FetchOutcome = NetworkFailure | Fetched(ok: bool, text: string)

  /** The reply: an error object with its HTTP status, or the record with status 200. */
  datatype Reply = Error(status: nat, message: string) | Job(data: JobData)

  /** The reply and the URLs the handler fetched, in order. */
  datatype Exchange = Exchange(reply: Reply, fetched: seq<string>)

  const UrlRequired := "URL is required"
  const ScrapeFailed := "Failed to scrape job data"

  /** `POST`: a missing or empty `url` is refused with 400 before anything is fetched;
      any failure afterwards (unparseable body, network error, a response that is not
      ok) is caught and answered with 500; otherwise the page is fetched once and the
      record of the extractor the URL selects is returned. */
  function Post(request: RequestBody, fetch: string -> FetchOutcome): (x: Exchange)
    ensures request.Unparseable? ==> x == Exchange(Error(500, ScrapeFailed), [])
    ensures request.Json? && (request.url.None? || request.url.value == "") ==>
      x == Exchange(Error(400, UrlRequired), [])
    ensures request.Json? && request.url.Some? && request.url.value != "" ==>
      x.fetched == [request.url.value] &&
      (x.reply.Job? <==> fetch(request.url.value).Fetched? && fetch(request.url.value).ok) &&
      (x.reply.Error? ==> x.reply == Error(500, ScrapeFailed))
  {
    match request
    case Unparseable => Exchange(Error(500, ScrapeFailed), [])
    case Json(url) =>
      if url.None? || url.value == "" then Exchange(Error(400, UrlRequired), [])
      else
        var outcome := fetch(url.value);
        if outcome.NetworkFailure? || !outcome.ok then Exchange(Error(500, ScrapeFailed), [url.value])
        else Exchange(Job(Extract(SiteFor(url.value), outcome.text)), [url.value])
  }

  /** A successful fetch returns, unchanged, the record of exactly the extractor the
      host order picks; a URL naming several hosts goes to the earliest in that order. */
  lemma PostRoutes(url: string, fetch: string -> FetchOutcome, html: string)
    requires url != "" && fetch(url) == Fetched(true, html)
    ensures Includes(url, "linkedin.com") ==>
      Post(Json(Some(url)), fetch).reply == Job(ExtractLinkedIn(html))
    ensures !Includes(url, "linkedin.com") && Includes(url, "indeed.com") ==>
      Post(Json(Some(url)), fetch).reply == Job(ExtractIndeed(html))
    ensures (!Includes(url, "linkedin.com") && !Includes(url, "indeed.com") &&
             Includes(url, "glassdoor.com")) ==>
      Post(Json(Some(url)), fetch).reply == Job(ExtractGlassdoor(html))
    ensures (!Includes(url, "linkedin.com") && !Includes(url, "indeed.com") &&
             !Includes(url, "glassdoor.com")) ==>
      Post(Json(Some(url)), fetch).reply == Job(ExtractGeneric(html))
  {
  }

  /** A string lacking one of the characters of `sub` does not include `sub`. */
  lemma MissingCharExcludes(s: string, sub: string, i: nat)
    requires i < |sub| && sub[i] !in s
    ensures !Includes(s, sub)
  {
  }

  lemma IncludesMiddle(a: string, sub: string, b: string)
    ensures Includes(a + sub + b, sub)
  {
    assert (a + sub + b)[|a|..|a| + |sub|] == sub;
    assert SubstringAt(a + sub + b, |a|, sub);
  }

  /** A URL naming `linkedin.com` goes to the LinkedIn extractor whatever else it
      names, since that host is tested first. */
  lemma LinkedInUrlRoutes(before: string, after: string)
    ensures SiteFor(before + "linkedin.com" + after) == LinkedIn
  {
    IncludesMiddle(before, "linkedin.com", after);
  }

  /** A URL naming `indeed.com` but not `linkedin.com` goes to the Indeed extractor. */
  lemma IndeedUrlRoutes(before: string, after: string)
    requires !Includes(before + "indeed.com" + after, "linkedin.com")
    ensures SiteFor(before + "indeed.com" + after) == Indeed
  {
    IncludesMiddle(before, "indeed.com", after);
  }

  /** A URL naming `glassdoor.com` and neither other host goes to the Glassdoor
      extractor. */
  lemma GlassdoorUrlRoutes(before: string, after: string)
    requires !Includes(before + "glassdoor.com" + after, "linkedin.com")
    requires !Includes(before + "glassdoor.com" + after, "indeed.com")
    ensures SiteFor(before + "glassdoor.com" + after) == Glassdoor
  {
    IncludesMiddle(before, "glassdoor.com", after);
  }

  /** "https://example.org/42" names no host the handler knows (it has no `d`, and
      each host name holds one), so it goes to the generic extractor. */
  lemma ExampleUrlRoutes()
    ensures SiteFor("https://example.org/42") == Generic
  {
    var url := "https://example.org/42";
    MissingCharExcludes(url, "linkedin.com", 5);
    MissingCharExcludes(url, "indeed.com", 2);
    MissingCharExcludes(url, "glassdoor.com", 5);
  }
}
