# PursuitPro job scraper and application list, in Dafny

This project models two parts of PursuitPro:

- **The job-scraping API route** (`src/app/api/scrape-job/route.ts`). It models:
  - the `POST` handler, which maps a missing URL to 400 and a failure to 500;
  - the choice of extractor by the host named in the URL;
  - the four site extractors (LinkedIn, Indeed, Glassdoor, generic). Each turns page text into a five-field record.
- **The dashboard's application list** (`src/app/dashboard/page.tsx`). It models:
  - the add handler, its guard, and the id and date it assigns;
  - the counts shown above the list;
  - the colour class of each status.

Every regex of the scraper is a hand-written scanner over `seq<char>`. These follow JavaScript `match` semantics without `/g`:

- The leftmost start position wins.
- Backtracking decides the capture: a greedy run gives back characters, a lazy run takes the fewest.
- The `/i` flag is ASCII case folding.

For each tag regex, the scanner is proved equivalent to a declarative reading of the regex (`Patterns.MatchSpan`): it succeeds exactly where the regex can match. Where the regex allows several captures from one start, the engine's choice is stated separately (`Patterns.EngineMatch`): the rightmost workable `class="` before the tag's first `>`, then the shortest lazy body or the longest greedy `$` run. The scanner is proved to return exactly that capture (`Patterns.MatchAtEngine`). Each extractor field is then specified declaratively (`ScrapeJob.FilledBy`): a field holds the trimmed engine capture, at the leftmost match, of the first pattern that matches anywhere, or `""`.

Files:

- `strings.dfy` (`Strings`): `\s`/`trim` white space, case folding, `includes`, maximal runs, leftmost and rightmost search, `trim`, the tag-stripping `replace(/<[^>]*>/g, '')`, and the 200-character cut.
- `patterns.dfy` (`Patterns`): the tag and attribute regexes. Each is an opening (`tag[^>]*class="[^"]*cls[^"]*"[^>]*>`, `lit[^>]*>`, or a literal) followed by a body (`([^<]+)close`, `([\s\S]*?)close`, the keyword run, or `([^<]*\$[^<]+)`).
- `generic.dfy` (`GenericRules`): the generic salary regex and the title split on `-`, `at` or `|`.
- `scrape_job.dfy` (`ScrapeJob`): the extractors, host routing and the handler.
- `dashboard.dfy` (`DashboardPage`): the `Dashboard` class, with the list, the form and the form's visibility as fields; the counts; and the status colours.

The fetch is a parameter `fetch: string -> FetchOutcome`. The handler returns the reply together with the list of URLs it fetched. The current date for the add handler is also a parameter.

## Model

| member | source | states |
|---|---|---|
| Strings.Lower | src/app/api/scrape-job/route.ts:70 | the `/i` comparison: an upper-case ASCII letter compares as the lower-case letter 32 code points above it; every other character compares as itself |
| Strings.SpanWhile | src/app/api/scrape-job/route.ts:70 | a greedy run of one character class from `i` stops just before the first character outside the class, or at the end |
| Strings.SpanWhileUnique | src/app/api/scrape-job/route.ts:70 | a run of the class that stops at the end or before a character outside the class is the greedy run: the greedy run is unique |
| Strings.FirstFrom | src/app/api/scrape-job/route.ts:70 | `match` without `/g` returns the match at the smallest start position where one exists; no earlier position matches, and none matches at all when it fails |
| Strings.LastFrom | src/app/api/scrape-job/route.ts:70 | a greedy `[^>]*` backs off to the rightmost position where the rest can match; nothing to its right matches |
| Strings.FindLiteral | src/app/api/scrape-job/route.ts:90 | the lazy body stops at the first occurrence of the closing tag, compared case-insensitively |
| Strings.TrimEnd | src/app/api/scrape-job/route.ts:73 | the white space `trim` drops at the end is the maximal run of white space ending there |
| Strings.TrimBounds | src/app/api/scrape-job/route.ts:73 | `trim` keeps the widest slice with no white space at either end; everything it drops is white space |
| Strings.Trim | src/app/api/scrape-job/route.ts:73 | a trimmed value begins and ends with a non-space character (or is empty) and is no longer than its input |
| Strings.TrimKeeps | src/app/api/scrape-job/route.ts:135 | `trim` removes only white space: every other character survives it |
| Strings.TrimTrimmed | src/app/api/scrape-job/route.ts:73 | `trim` leaves an already trimmed string unchanged |
| Strings.TrimIdempotent | src/app/api/scrape-job/route.ts:73 | trimming twice is the same as trimming once |
| Strings.TrimKeepsClass | src/app/api/scrape-job/route.ts:189 | a character class that holds throughout a string also holds throughout its trim |
| Strings.TrimKeepsNoTag | src/app/api/scrape-job/route.ts:92 | trimming a text without tags cannot create a tag |
| Strings.SubsequenceOfSuffix | src/app/api/scrape-job/route.ts:92 | what is kept from a suffix is kept, in order, from the whole string |
| Strings.SubsequenceChars | src/app/api/scrape-job/route.ts:92 | every character kept by a deletion comes from the original |
| Strings.StripTags | src/app/api/scrape-job/route.ts:92 | the tag-stripping replace only deletes characters: the result is a subsequence of the input, in order (what it deletes is pinned down by `StripTagsPrefix` and `StripTagsSplit`) |
| Strings.StripTagsLeavesNoTag | src/app/api/scrape-job/route.ts:92 | after stripping, no `<` is followed anywhere later by a `>` |
| Strings.StripTagsIdentity | src/app/api/scrape-job/route.ts:92 | stripping leaves a text unchanged exactly when it has no complete tag, so stripping is idempotent |
| Strings.StripTagsPrefix | src/app/api/scrape-job/route.ts:92 | text holding no `<` passes through `replace(/<[^>]*>/g, '')` unchanged, whatever follows it |
| Strings.StripTagsSplit | src/app/api/scrape-job/route.ts:92 | a complete tag `<m>` (no `>` inside) is deleted whole, the `<`-free text before it is kept, and stripping continues after it |
| Strings.Truncate | src/app/api/scrape-job/route.ts:93 | the description is at most 203 characters long. A text of at most 200 characters is kept verbatim. A longer text becomes exactly its first 200 characters followed by `...` |
| Strings.TruncateKeepsNoTag | src/app/api/scrape-job/route.ts:92-93 | cutting and appending `...` cannot create a tag |
| Patterns.BodyAt | src/app/api/scrape-job/route.ts:70 | a body capture starts where the opening tag ends and lies within the page |
| Patterns.BodyAtCorrect | src/app/api/scrape-job/route.ts:90 | the body scanner finds a capture exactly when the body regex can match there, and its capture is the one the engine picks: the only one for `[^<]+`, the shortest for `[\s\S]*?`, the longest for the `$` run |
| Patterns.ClassAt | src/app/api/scrape-job/route.ts:70 | a capture found after a `class="` attribute lies beyond it and within the page |
| Patterns.ClassAtSound | src/app/api/scrape-job/route.ts:70 | a capture found from a `class="` position comes with a quoted value containing the class name, a closing `>` and a body match, as the regex demands |
| Patterns.ClassAtComplete | src/app/api/scrape-job/route.ts:70 | whenever the quoted value contains the class name, a `>` follows and the body matches, the scanner succeeds from that `class="` position |
| Patterns.MatchAt | src/app/api/scrape-job/route.ts:70 | a match tried at `i` yields a capture at or after `i` within the page, and never succeeds past the end |
| Patterns.ClassedTagAt | src/app/api/scrape-job/route.ts:70 | a class-tag match tried at `i` yields a capture at or after `i` within the page |
| Patterns.PrefixTagAt | src/app/api/scrape-job/route.ts:113 | a `lit[^>]*>` match tried at `i` yields a capture at or after `i` within the page |
| Patterns.ClassedSearch | src/app/api/scrape-job/route.ts:70 | the search settles on a `class="` position before the tag's first `>` where the scanner succeeds, and fails only when no such position works |
| Patterns.ClassedSearchRightmost | src/app/api/scrape-job/route.ts:70 | the greedy `[^>]*` gives back characters from the right, so no `class="` position right of the chosen one works |
| Patterns.ClassedSearchComplete | src/app/api/scrape-job/route.ts:70 | a workable `class="` before the tag's first `>` makes the search succeed |
| Patterns.ClassedMatchSound | src/app/api/scrape-job/route.ts:70 | a capture from any `class="` position before the tag's first `>` is a match of the whole regex |
| Patterns.ClassedTagSound | src/app/api/scrape-job/route.ts:70 | a match the class-tag scanner reports is a match of the regex |
| Patterns.ClassedOpeningComplete | src/app/api/scrape-job/route.ts:70 | an opening tag the regex accepts, followed by a body match, makes the class-tag scanner succeed |
| Patterns.ClassedMatchComplete | src/app/api/scrape-job/route.ts:70 | whenever the class-tag regex can match at `i`, the scanner finds a match there |
| Patterns.ClassedMatchCorrect | src/app/api/scrape-job/route.ts:70 | the class-tag regexes: the scanner matches exactly where the regex can, with a capture the regex allows |
| Patterns.ClassedTagFound | src/app/api/scrape-job/route.ts:70 | the class-tag scanner succeeds exactly when the tag name is at `i` and the classed search after it succeeds, and returns what that search finds |
| Patterns.PreferredUnique | src/app/api/scrape-job/route.ts:90 | two captures from the same start that each are preferred over the other are the same capture: the engine's choice is unique |
| Patterns.BodyChosen | src/app/api/scrape-job/route.ts:90 | the body scanner returns exactly the capture the engine settles on: one the body regex allows, preferred over every other it allows (the shortest for `[\s\S]*?`, the longest for the `$` run) |
| Patterns.EngineMatchIsMatch | src/app/api/scrape-job/route.ts:70 | the engine's capture is a match of the regex |
| Patterns.ClassAtWorkable | src/app/api/scrape-job/route.ts:70 | the scanner succeeds from a `class="` position exactly when the regex can complete a match from it |
| Patterns.PrefixOpeningEnd | src/app/api/scrape-job/route.ts:113 | a `lit[^>]*>` opening at `i` can only end just after the first `>` after the literal |
| Patterns.PrefixEngineSound | src/app/api/scrape-job/route.ts:113 | what the `lit[^>]*>` scanner returns is the capture the engine returns |
| Patterns.PrefixEngineComplete | src/app/api/scrape-job/route.ts:113 | the engine's capture of a `lit[^>]*>` regex is what the scanner returns |
| Patterns.PrefixEngine | src/app/api/scrape-job/route.ts:113 | the `lit[^>]*>` scanner at `i` returns a capture exactly when it is the engine's capture |
| Patterns.ExactEngine | src/app/api/scrape-job/route.ts:182 | the `<title>` scanner at `i` returns a capture exactly when it is the engine's capture |
| Patterns.ClassedSearchChosen | src/app/api/scrape-job/route.ts:70 | the `class="` the classed search settles on is the rightmost workable one before the tag's first `>`, as the greedy `[^>]*` backtracks |
| Patterns.ClassedEngineIntro | src/app/api/scrape-job/route.ts:70 | a tag name, the rightmost workable `class="`, its closing quote and a preferred body capture make up the engine's capture |
| Patterns.ClassedEngineSound | src/app/api/scrape-job/route.ts:70 | the capture the scanner finds from the rightmost workable `class="` is the engine's capture |
| Patterns.ClassedSearchFinds | src/app/api/scrape-job/route.ts:70 | from the rightmost workable `class="`, the classed search finds the engine's preferred body capture |
| Patterns.ClassedTagAtFinds | src/app/api/scrape-job/route.ts:70 | from the rightmost workable `class="` after the tag name, the class-tag scanner returns the engine's capture |
| Patterns.ClassedTagFrom | src/app/api/scrape-job/route.ts:70 | what the classed search finds after the tag name is what the class-tag scanner returns |
| Patterns.ClassedEngineParts | src/app/api/scrape-job/route.ts:70 | an engine capture of a class-tag regex has a tag name at `i`, a rightmost workable `class="`, its closing quote, and a preferred body capture after the opening |
| Patterns.ClassedChosenPosition | src/app/api/scrape-job/route.ts:70 | the rightmost workable `class="` before the first `>` is the position the classed search settles on, and it finds there the body scan from the end of the opening |
| Patterns.ClassedTagChosen | src/app/api/scrape-job/route.ts:70 | what the class-tag scanner returns is the engine's capture |
| Patterns.ClassedTagEngine | src/app/api/scrape-job/route.ts:70 | the class-tag scanner at `i` returns a capture exactly when it is the engine's capture |
| Patterns.MatchAtEngine | src/app/api/scrape-job/route.ts:70-71 | for every pattern of the scraper, the scanner at `i` returns exactly the capture the regex engine returns there |
| Patterns.PrefixMatchSound | src/app/api/scrape-job/route.ts:113 | a match the `lit[^>]*>` scanner reports is a match of the regex, its tag ending at the first `>` |
| Patterns.PrefixMatchComplete | src/app/api/scrape-job/route.ts:113 | whenever a `lit[^>]*>` regex can match at `i`, the scanner finds a match there |
| Patterns.PrefixMatchCorrect | src/app/api/scrape-job/route.ts:113 | the `lit[^>]*>` regexes: the scanner matches exactly where the regex can |
| Patterns.ExactMatchCorrect | src/app/api/scrape-job/route.ts:182 | the literal-opening regexes (`<title>`): the scanner matches exactly where the regex can |
| Patterns.MatchAtCorrect | src/app/api/scrape-job/route.ts:70-71 | for every pattern of the scraper, the scanner at `i` is sound and complete for the regex at `i` |
| Patterns.FirstMatch | src/app/api/scrape-job/route.ts:70 | the search returns the first start position where the scanner succeeds, with bounds on the capture |
| Patterns.FirstMatchLeftmost | src/app/api/scrape-job/route.ts:70 | `html.match(re)` succeeds exactly when the regex matches somewhere; its match is a real one, and no match starts earlier |
| GenericRules.RangeAt | src/app/api/scrape-job/route.ts:194 | the optional `\s*-\s*\$[\d,]+` range is taken only when present, and ends on a digit or comma |
| GenericRules.RangeAtCorrect | src/app/api/scrape-job/route.ts:194 | the range scanner finds an end exactly when `\s*-\s*\$[\d,]+` can match from `p`; its end is one the regex allows, and the greedy longest: no digit or comma follows, and every end the regex allows is at most it |
| GenericRules.RangeParts | src/app/api/scrape-job/route.ts:194 | a range match has a `-` after white space, a `$` after more white space, and digits or commas up to its end |
| GenericRules.FirstWordAt | src/app/api/scrape-job/route.ts:194 | an alternation of words succeeds only with a word that occurs, ending after it, and fails exactly when none occurs |
| GenericRules.FirstWordAtFirst | src/app/api/scrape-job/route.ts:194 | the alternation `year\|yr\|annual\|hour\|hr` ends at `f` exactly when the word that occurs there is the first in order that occurs |
| GenericRules.FirstWordParts | src/app/api/scrape-job/route.ts:194 | a match of an alternation took a word that occurs, with no earlier word occurring |
| GenericRules.PeriodEndsInLetter | src/app/api/scrape-job/route.ts:194 | a matched pay period (`year`, `yr`, `annual`, `hour`, `hr`) ends in a letter |
| GenericRules.FoundPeriodEndsInLetter | src/app/api/scrape-job/route.ts:194 | the pay period the alternation finds ends in a letter, beyond where it starts |
| GenericRules.LiteralHead | src/app/api/scrape-job/route.ts:194 | a word of two or more characters occurring at `u` fixes the first two characters there, up to case |
| GenericRules.PeriodWordsExclusive | src/app/api/scrape-job/route.ts:194 | no two pay-period words occur at the same place |
| GenericRules.PeriodWordStartsWithLetter | src/app/api/scrape-job/route.ts:194 | a pay-period word starts with neither white space nor `/` |
| GenericRules.PeriodAt | src/app/api/scrape-job/route.ts:194 | the optional pay period, when present, ends in a non-space character |
| GenericRules.PeriodStart | src/app/api/scrape-job/route.ts:194 | `\s*\/?\s*` started at `p` ends at or after `p` within the text |
| GenericRules.PeriodAtCorrect | src/app/api/scrape-job/route.ts:194 | the pay-period scanner finds exactly the end to which `\s*\/?\s*(?:year\|yr\|annual\|hour\|hr)` can match from `p`, in both directions; that end is unique |
| GenericRules.PeriodParts | src/app/api/scrape-job/route.ts:194 | a pay-period match has white space, an optional `/` and more white space before a pay-period word |
| GenericRules.PeriodAtComplete | src/app/api/scrape-job/route.ts:194 | a pay-period match, given by its parts, is found by the scanner |
| GenericRules.PeriodAtSound | src/app/api/scrape-job/route.ts:194 | an end the pay-period scanner reports is one the regex can match to |
| GenericRules.PeriodWordStart | src/app/api/scrape-job/route.ts:194 | a pay-period word the regex reaches from `p` starts where the scanner looks for it |
| GenericRules.PeriodWordFirst | src/app/api/scrape-job/route.ts:194 | as only one pay-period word occurs at a place, the alternation picks it |
| GenericRules.RangeEnd | src/app/api/scrape-job/route.ts:194 | the match extends to the end of the range whenever the range scanner finds one (by `RangeAtTaken`, exactly when the range regex can match, to its longest end) and stays at `d` otherwise; it still ends on a digit or comma |
| GenericRules.SalaryEnd | src/app/api/scrape-job/route.ts:194 | after `RangeEnd`, the match extends to the end of the pay period whenever the period scanner finds one (by `PeriodAtTaken`, exactly when the period regex can match) and stays put otherwise; it ends in a non-space character |
| GenericRules.SalaryAt | src/app/api/scrape-job/route.ts:194 | the salary regex matches at `i` exactly when a `$` there is followed by a digit or comma. The match covers the whole digit run and ends in a non-space character |
| GenericRules.RangeAtTaken | src/app/api/scrape-job/route.ts:194 | the range scanner's answer (its end, or `d` when absent) is the range the regex takes |
| GenericRules.RangeTakenUnique | src/app/api/scrape-job/route.ts:194 | the range taken after a digit run is unique: it is the scanner's answer |
| GenericRules.PeriodAtTaken | src/app/api/scrape-job/route.ts:194 | the pay-period scanner's answer (its end, or `p` when absent) is the period the regex takes |
| GenericRules.PeriodTakenUnique | src/app/api/scrape-job/route.ts:194 | the pay period taken is unique: it is the scanner's answer |
| GenericRules.SalaryParts | src/app/api/scrape-job/route.ts:194 | a salary match has a maximal digit run after `$`, then a range taken and a pay period taken |
| GenericRules.SalaryAtCorrect | src/app/api/scrape-job/route.ts:194 | the salary scanner at `i` ends at `e` exactly when the salary regex matches `s[i..e]` as the engine chooses: `$`, the longest digit run, the range when it can match, then the pay period when it can match |
| GenericRules.SalaryAtSound | src/app/api/scrape-job/route.ts:194 | every end the salary scanner reports is the engine's match |
| GenericRules.SalaryAtComplete | src/app/api/scrape-job/route.ts:194 | every match of the salary regex under the engine's choice is what the scanner reports |
| GenericRules.SalaryEndTaken | src/app/api/scrape-job/route.ts:194 | a range taken followed by a pay period taken ends exactly where `SalaryEnd` does |
| GenericRules.SalaryEndPeriod | src/app/api/scrape-job/route.ts:194 | `SalaryEnd` ends where the pay period after the range is taken |
| GenericRules.FirstSalaryFound | src/app/api/scrape-job/route.ts:194 | the salary match found is a match of the salary regex under the engine's choice, and none starts earlier |
| GenericRules.FirstSalaryNone | src/app/api/scrape-job/route.ts:194 | when no salary match is found, the salary regex matches nowhere |
| GenericRules.FirstSalary | src/app/api/scrape-job/route.ts:194 | the salary match found is the leftmost in the page, or there is none anywhere |
| GenericRules.SalaryMatchShape | src/app/api/scrape-job/route.ts:194-196 | a salary match is at least two characters long, starts with `$` and a digit or comma, and is already trimmed |
| GenericRules.SeparatorAt | src/app/api/scrape-job/route.ts:186 | a separator (`-`, `at`, `\|`) found after the white space from `e` ends beyond `e`, with only white space before the token |
| GenericRules.SeparatorAtCorrect | src/app/api/scrape-job/route.ts:186 | the separator scanner ends at `d` exactly when `\s*-`, `\s*at` or `\s*\|` can match `t[e..d]`; the token is unique |
| GenericRules.CompanyAt | src/app/api/scrape-job/route.ts:186 | `\s*([^-\|]+)` matches exactly when the next character is neither `-` nor `\|`. The group then holds no `-` or `\|`, runs as far as it can, and only white space precedes it |
| GenericRules.TailAt | src/app/api/scrape-job/route.ts:186 | a separator and company tried after position `e` yield a non-empty group after `e` |
| GenericRules.TailAtCorrect | src/app/api/scrape-job/route.ts:186 | the tail after `e` gives company span `c` exactly when `\s*-`, `\s*at` or `\s*\|` matches from `e` to some `d` and the company group at `d` is `c` |
| GenericRules.NoSeparatorBefore | src/app/api/scrape-job/route.ts:186 | no separator can follow a position inside a prefix with no `-`, `\|` or `a`/`A` that ends in a non-space character |
| GenericRules.LineStartNoTerminator | src/app/api/scrape-job/route.ts:186 | with no line terminator before `e`, group 1 can reach back to the start of the title |
| GenericRules.LineStart | src/app/api/scrape-job/route.ts:186 | group 1 (`.*?`) reaches back to the start of its line and crosses no line terminator |
| GenericRules.SplitTitle | src/app/api/scrape-job/route.ts:186 | the split ends group 1 at the earliest position where a separator and company follow; no earlier position works, and when none works the split fails |
| ScrapeJob.Capture | src/app/api/scrape-job/route.ts:70-72 | `match(...)?.[1]`, when present, is a slice of the page |
| ScrapeJob.CaptureCorrect | src/app/api/scrape-job/route.ts:70-72 | `match(...)` yields a group exactly when the regex matches somewhere, and the group is the engine's capture at the leftmost start where the regex matches |
| ScrapeJob.LeftmostCaptureUnique | src/app/api/scrape-job/route.ts:70-72 | the engine's leftmost capture is determined: two captures that both qualify are equal |
| ScrapeJob.FirstFilled | src/app/api/scrape-job/route.ts:70-74 | every value an extractor stores from a capture is trimmed |
| ScrapeJob.FirstFilledCorrect | src/app/api/scrape-job/route.ts:70-74 | the `a \|\| b` fallback: the field is the trimmed leftmost capture of the first pattern that matches anywhere, the second pattern being consulted only when the first matches nowhere, and `""` when none matches |
| ScrapeJob.LinkedInDescriptionOf | src/app/api/scrape-job/route.ts:89-94 | the LinkedIn description has no tag left and is at most 203 characters long |
| ScrapeJob.ExtractLinkedIn | src/app/api/scrape-job/route.ts:59-100 | LinkedIn: company, title and location are trimmed; the description holds no tag and is at most 203 characters long; the salary stays `""` |
| ScrapeJob.ExtractLinkedInSpec | src/app/api/scrape-job/route.ts:59-100 | LinkedIn: company and title fall back to their second pattern only when the first matches nowhere; each field is the trimmed engine capture at the leftmost match (the first `</div>` ends the description, as `[\s\S]*?` is lazy); the description is `Truncate(Trim(StripTags(c)))` of that capture, or `""`; the salary stays `""` |
| ScrapeJob.ExtractIndeed | src/app/api/scrape-job/route.ts:102-142 | Indeed: company, title, location and salary are trimmed; the description stays `""` |
| ScrapeJob.ExtractIndeedSpec | src/app/api/scrape-job/route.ts:102-142 | Indeed: company and title with their fallbacks; location and salary from one pattern each, as the engine captures them (the salary `$` run taken greedily to the next `<`); the description stays `""` |
| ScrapeJob.DollarSurvivesTrim | src/app/api/scrape-job/route.ts:133-135 | a capture of `([^<]*\$[^<]+)` still holds a `$` after trimming |
| ScrapeJob.IndeedSalaryHasDollar | src/app/api/scrape-job/route.ts:133-136 | the Indeed salary is set exactly when its regex matches, and then contains `$` |
| ScrapeJob.ExtractGlassdoor | src/app/api/scrape-job/route.ts:144-169 | Glassdoor: company and title are trimmed; location, description and salary stay `""` |
| ScrapeJob.ExtractGlassdoorSpec | src/app/api/scrape-job/route.ts:144-169 | Glassdoor: company and title from one pattern each; location, description and salary stay `""` |
| ScrapeJob.SplitFields | src/app/api/scrape-job/route.ts:186-190 | the split succeeds exactly when a separator and company can follow some position. Then the position is the trimmed group 1 and the company the trimmed group 2 of the title split; both are trimmed, and the company never contains `-` or `\|` |
| ScrapeJob.SeniorEngineerTail | src/app/api/scrape-job/route.ts:186 | in `Senior Engineer - Acme Corp` the earliest position a separator and company follow is 15, and the company group spans `Acme Corp` |
| ScrapeJob.SeniorEngineerCompany | src/app/api/scrape-job/route.ts:186 | in `Senior Engineer - Acme Corp` the separator ` -` after position 15 is followed by the company group `Acme Corp` |
| ScrapeJob.SeniorEngineerTrimmed | src/app/api/scrape-job/route.ts:188-189 | `trim` leaves `Senior Engineer` and `Acme Corp` unchanged |
| ScrapeJob.SeniorEngineerSplit | src/app/api/scrape-job/route.ts:186-190 | the title `Senior Engineer - Acme Corp` gives position `Senior Engineer` and company `Acme Corp` |
| ScrapeJob.DataEngineerNoTailAt0 | src/app/api/scrape-job/route.ts:186 | in `Data Engineer - Acme` no separator and company follow position 0 |
| ScrapeJob.DataEngineerTailAt1 | src/app/api/scrape-job/route.ts:186 | in `Data Engineer - Acme` the separator `at` and a company follow position 1 |
| ScrapeJob.SplitInsideWord | src/app/api/scrape-job/route.ts:186-188 | `at` inside a word is a separator: the title `Data Engineer - Acme` gives the position `D` |
| ScrapeJob.ExtractGenericTitleSpec | src/app/api/scrape-job/route.ts:182-191 | generic: position and company come from the trimmed leftmost `<title>` text holding a role word or `Job`. They are set together, or both stay `""` when there is no such title or the split fails. The company never holds `-` or `\|`; location and description stay `""` |
| ScrapeJob.ExtractGeneric | src/app/api/scrape-job/route.ts:171-202 | generic: position and company are trimmed and the company holds no `-` or `\|`; a salary, when set, starts with `$`; location and description stay `""` |
| ScrapeJob.GenericSalary | src/app/api/scrape-job/route.ts:193-197 | the generic salary, when set, starts with `$` followed by a digit or comma and is already trimmed |
| ScrapeJob.GenericSalarySpec | src/app/api/scrape-job/route.ts:193-197 | the generic salary is `""` exactly when the salary regex matches nowhere; otherwise it is the match at the leftmost start, taken verbatim |
| ScrapeJob.GenericSalaryRegex | src/app/api/scrape-job/route.ts:193-197 | in the regex's own terms: `""` exactly when no `$`-digits match exists anywhere; otherwise the verbatim text of the leftmost match, with the range and pay period taken whenever they follow |
| ScrapeJob.SiteFor | src/app/api/scrape-job/route.ts:38-47 | host routing by case-sensitive substring: LinkedIn exactly when the URL names `linkedin.com`; Indeed exactly when it names `indeed.com` but not `linkedin.com`; Glassdoor exactly when it names `glassdoor.com` and neither earlier host; generic otherwise |
| ScrapeJob.Extract | src/app/api/scrape-job/route.ts:38-47 | whichever extractor the site selects, company and title are trimmed, the description holds no tag and is at most 203 characters, and outside the generic extractor the location is trimmed |
| ScrapeJob.Post | src/app/api/scrape-job/route.ts:3-57 | an unparseable body gives 500 without a fetch. A missing or empty `url` gives the 400 `URL is required` without a fetch. Otherwise the URL is fetched exactly once: a record is returned exactly when the fetch succeeds with an ok response, and every failure gives the 500 `Failed to scrape job data` |
| ScrapeJob.PostRoutes | src/app/api/scrape-job/route.ts:38-49 | after a successful fetch, the reply is the record of exactly the extractor the host order selects, unchanged |
| ScrapeJob.MissingCharExcludes | src/app/api/scrape-job/route.ts:38 | a URL lacking a character of a host name does not include that host name |
| ScrapeJob.IncludesMiddle | src/app/api/scrape-job/route.ts:38 | a URL built around a host name includes it |
| ScrapeJob.LinkedInUrlRoutes | src/app/api/scrape-job/route.ts:38-39 | any URL naming `linkedin.com` goes to the LinkedIn extractor, whatever else it names |
| ScrapeJob.IndeedUrlRoutes | src/app/api/scrape-job/route.ts:40-41 | a URL naming `indeed.com` but not `linkedin.com` goes to the Indeed extractor |
| ScrapeJob.GlassdoorUrlRoutes | src/app/api/scrape-job/route.ts:42-43 | a URL naming `glassdoor.com` and neither earlier host goes to the Glassdoor extractor |
| ScrapeJob.ExampleUrlRoutes | src/app/api/scrape-job/route.ts:44-47 | `https://example.org/42` names none of the three hosts and goes to the generic extractor |
| DashboardPage.IdsInOrderUnique | src/app/dashboard/page.tsx:68 | ids numbered 1..n in list order are unique |
| DashboardPage.NewApplication | src/app/dashboard/page.tsx:67-71 | the new record takes the given id and the form's company, position, status and salary. A blank date becomes today's date and a non-blank one is kept |
| DashboardPage.AppendKeepsIdsInOrder | src/app/dashboard/page.tsx:68-72 | appending a record with id `length + 1` keeps the ids numbered 1..n+1 |
| DashboardPage.Dashboard.constructor | src/app/dashboard/page.tsx:18-52 | the page starts with the three sample records (ids 1..3), an empty form with status `Applied`, and the form hidden |
| DashboardPage.Dashboard.HandleAddApplication | src/app/dashboard/page.tsx:64-82 | with company or position blank, list, form and visibility are unchanged. Otherwise exactly one record with id `length + 1` is appended after the unchanged earlier records, the form is reset and hidden. The ids stay numbered 1..n |
| DashboardPage.Dashboard.OpenAddForm | src/app/dashboard/page.tsx:103 | the add button shows the form and changes nothing else |
| DashboardPage.Dashboard.CancelAddForm | src/app/dashboard/page.tsx:266 | cancel hides the form and keeps the list and what was typed |
| DashboardPage.Dashboard.EditForm | src/app/dashboard/page.tsx:201 | an input change replaces the form contents and changes nothing else |
| DashboardPage.CountStatus | src/app/dashboard/page.tsx:86-88 | a status count never exceeds the number of records |
| DashboardPage.ComputeStats | src/app/dashboard/page.tsx:84-89 | `stats.total` equals the number of records |
| DashboardPage.CountsBounded | src/app/dashboard/page.tsx:84-89 | the four status counts add up to the number of records, so interviews + offers + applied ≤ total |
| DashboardPage.CountAppend | src/app/dashboard/page.tsx:72 | appending a record raises the count of its status by one and leaves the other counts |
| DashboardPage.AddUpdatesStats | src/app/dashboard/page.tsx:72-89 | a successful add raises the total by one and the count of the new record's status by one; the other counts stay |
| DashboardPage.InitialStats | src/app/dashboard/page.tsx:18-43 | the sample list has ids 1..3 and counts total 3, one interview, one offer and one applied |
| DashboardPage.StatusColor | src/app/dashboard/page.tsx:54-62 | defined for every string: the gray default exactly when the string is none of the four status names |
| DashboardPage.StatusColorsDistinct | src/app/dashboard/page.tsx:54-61 | the four statuses get four distinct colours, none of them the gray default |

## Left out

- The network fetch, its browser-like headers, `request.json()` and the `NextResponse` construction are not modelled. They are I/O and framework calls. Instead, the request body and the fetch outcome are inputs, and the reply is a datatype (`Job` stands for status 200).
- A `url` that is present but not a string, or any other falsy value (`0`, `false`, `null`), is not modelled. `url` is an optional string, and only absent or `""` count as missing.
- A failure of `response.text()` is not modelled: the page text comes with the fetch outcome.
- `console.error` logging is not modelled; it is a side effect with nothing to state.
- The per-extractor `try`/`catch` blocks are not modelled, because the modelled scanners cannot throw.
- Full Unicode case folding for `/i` is not modelled; `Strings.Lower` folds only ASCII letters.
- The Unicode white space of `\s` and `trim` beyond ASCII and the line terminators (for example U+00A0 and U+FEFF) is not modelled.
- Strings.Truncate: counts characters, not UTF-16 code units, so a page with characters outside the Basic Multilingual Plane is cut at a different place than `substring(0, 200)` would cut it.
- The case-insensitive match of the pattern `Jobs?` in the generic title regex is modelled as the word `Job`, which matches in exactly the same places.
- The clock: the date from `new Date().toISOString()` is passed in as `today`. The locale-dependent `toLocaleDateString()` display is not modelled.
- React rendering (the JSX, `useState` plumbing and link navigation) is not modelled; it is UI only. The four form inputs' change handlers are modelled together as `EditForm`.
- `src/app/auth/signin/page.tsx` and `src/app/page.tsx` are not part of this model. They are UI around next-auth calls and session state.
- DashboardPage.Dashboard.HandleAddApplication: ids are unbounded integers, not JavaScript numbers, so precision loss beyond 2^53 records is not modelled.
