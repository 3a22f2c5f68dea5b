# Domain image scraper: a Dafny model of the selection core

This project models the logic of a domain-scoped product image scraper in
Dafny and proves properties of it. For each product name the scraper asks an
image search provider for candidates. It keeps only the candidates whose page
host lies on one of the requested domains, scores them with a fixed relevance
heuristic, sorts them best first and keeps the top N. Around this pipeline the
model covers:

- the two task-result stores;
- the CSV export;
- the deterministic demo and placeholder generators;
- the small parsers and state machines of the two input forms.

Everything is pure: records are datatypes, collections are `seq` and `map`,
scores are `real`. Whatever the program obtains from outside becomes a
parameter:

- the provider call;
- the URL host parser;
- the clock;
- the outcome of each file-system call;
- the number formatting of a score;
- the replies a poll receives.

Modules, one per file:

| module | models |
|---|---|
| `Text`, `Seqs`, `Optional` | the JavaScript string and array built-ins the core uses (`toLowerCase`, `trim`, `split`, `join`, `filter`, `slice`, `[...new Set(xs)]`); `toLowerCase` on ASCII letters only, `trim` and `\s` over JavaScript's full white-space set |
| `Uri` | `encodeURIComponent`, with UTF-8 percent-escapes, and its inverse `decodeURIComponent` as the round-trip partner |
| `StableSort` | `Array.prototype.sort` by descending score: a stable insertion sort |
| `Normalize`, `DomainMatch`, `Query`, `Scoring`, `SerpSearch` | lib/google-image-scraper.ts |
| `TaskStorage` | lib/storage.ts |
| `ResultsStore` | lib/results-store.ts |
| `CsvExport` | lib/csv-export.ts |
| `ImageSearch` | the network-free half of lib/image-search.ts |
| `ScrapeResult`, `ScraperV2`, `MockScraper` | lib/scraper-v2.ts and lib/scraper.ts |
| `SimpleForm`, `ResultPoll` | components/SimpleScraperForm.tsx |
| `TagForm` | components/ScraperForm.tsx |

Three behaviours of the code are worth stating up front:

- **Rank is set before the sort.** `searchImages` numbers each result at push
  time (lib/google-image-scraper.ts:182) and sorts afterwards (line 196), so
  after the sort the ranks are a permutation of 1..n, not necessarily in
  output order (`SerpSearch.SearchRanksArePermutation`). After
  `slice(0, topN)` they need not be 1..k.
- **Only the overlap term ignores word order.** The phrase bonus (line 94) is
  a substring test on the normalized texts and depends on word order. The
  overlap term (lines 81-91) depends only on the set of the name's words, in
  any case (`Scoring.OverlapIgnoresWordOrder`).
- **No truncation inside `searchImages`.** It passes the result count to the
  provider as `num` (line 154) and never cuts its own output; only
  `searchMultipleProducts` slices (line 221).

## Model

| member | source | states |
|---|---|---|
| Normalize.ReplaceRuns | lib/google-image-scraper.ts:32-33 | a run of matching characters becomes one space: the output is empty iff the input is, starts with a space iff the input starts with a run, never has two adjacent spaces, and its other characters come from the input |
| Normalize.ReplaceRunsKeepsOthers | lib/google-image-scraper.ts:32-33 | the replacement removes only run characters: the characters outside runs survive unchanged and in order |
| Normalize.ReplaceRunsIdentity | lib/google-image-scraper.ts:33 | a text whose only run characters are isolated spaces is unchanged, so the white-space pass after the first replacement changes nothing |
| Normalize.SeparatedShape | lib/google-image-scraper.ts:31-33 | after lower-casing and the first replacement, only lower-case letters, digits and single spaces remain |
| Normalize.TrimmedSliceCanonical | lib/google-image-scraper.ts:34 | trimming such a text yields a canonical one: lower-case alphanumeric words separated by single spaces, no space at either end |
| Normalize.NormalizeIsCanonical | lib/google-image-scraper.ts:30-35 | `normalizeText` always returns a canonical text |
| Normalize.NormalizeOfCanonical | lib/google-image-scraper.ts:30-35 | a canonical text is its own normal form |
| Normalize.NormalizeIdempotent | lib/google-image-scraper.ts:30-35 | normalizing twice equals normalizing once |
| Normalize.NormalizeKeepsAlnum | lib/google-image-scraper.ts:30-35 | the letters and digits of the output are exactly those of the lower-cased input, in order |
| Normalize.NormalizeText | lib/google-image-scraper.ts:30-35 | `normalizeText`; no contract of its own: the rows NormalizeIsCanonical, NormalizeOfCanonical, NormalizeIdempotent and NormalizeKeepsAlnum state its properties |
| Normalize.Tokenize | lib/google-image-scraper.ts:37-39 | `tokenize`; no contract of its own: the rows TokensAreWords, JoinTokenize, TokenizeJoin and TokenizeIgnoresCase state its properties |
| Normalize.TokenizeIgnoresCase | lib/google-image-scraper.ts:31 | tokenizing the lower-cased text gives the same tokens as tokenizing the text |
| Normalize.CanonicalPieces | lib/google-image-scraper.ts:38 | splitting a non-empty canonical text at spaces gives only non-empty words |
| Normalize.TokensAreWords | lib/google-image-scraper.ts:37-39 | every token is a non-empty run of lower-case letters and digits |
| Normalize.JoinTokenize | lib/google-image-scraper.ts:37-39 | joining the tokens with single spaces gives back the normalized text |
| Normalize.TokenizeJoin | lib/google-image-scraper.ts:37-39 | words joined with single spaces tokenize back into the same words |
| Normalize.JoinCanonical | lib/google-image-scraper.ts:38 | a non-empty list of words joined by single spaces is canonical |
| DomainMatch.FirstCovering | lib/google-image-scraper.ts:43-49 | the loop over the allowed domains reports the empty domain whenever nothing matched |
| DomainMatch.FirstCoveringSpec | lib/google-image-scraper.ts:43-49 | the loop reports the first domain, in list order, that the host equals or is a dot-subdomain of, and a miss exactly when none does |
| DomainMatch.HostMatchesIsFirstMatch | lib/google-image-scraper.ts:41-50 | `hostMatches` lower-cases both sides and returns (true, first covering domain lower-cased), or (false, "") exactly when no domain covers the host |
| DomainMatch.HostMatches | lib/google-image-scraper.ts:41-50 | a reported domain covers the lower-cased host, and a miss reports the empty domain; HostMatchesIsFirstMatch states which domain is reported |
| DomainMatch.CoveringResult | lib/google-image-scraper.ts:45-46 | a reported domain does cover the host |
| DomainMatch.HostMatchIsDelimited | lib/google-image-scraper.ts:45 | a match on a host other than the domain itself has a dot right before the domain |
| DomainMatch.SubdomainMatches | lib/google-image-scraper.ts:42-46 | any label and a dot in front of a lower-case domain match that domain |
| DomainMatch.SuffixWithoutDotDoesNotMatch | lib/google-image-scraper.ts:42-49 | a host that ends with the domain's letters without a dot before them does not match (for example notexample.com against example.com) |
| DomainMatch.FirstListedDomainWins | lib/google-image-scraper.ts:43-47 | with overlapping domains the earlier one in the list wins, even when the later one equals the host |
| Query.SiteTerms | lib/google-image-scraper.ts:72 | one `site:` term per domain, in order |
| Query.BuildQuery | lib/google-image-scraper.ts:61-74 | `buildQuery`; no contract of its own: the rows QueryEndsWithQuotedName, QueryNameRoundTrip and QueryNamesEveryDomain state its properties |
| Query.QueryEndsWithQuotedName | lib/google-image-scraper.ts:61-74 | whatever the domains, the query ends with the product name in double quotes |
| Query.QueryNameRoundTrip | lib/google-image-scraper.ts:61-74 | when no domain holds a double quote, the name between the first quote and the last character is exactly the product name, even a name that itself holds quotes |
| Query.QuoteAfterPrefix | lib/google-image-scraper.ts:62-73 | a quote-free prefix followed by the quoted name reads back as the name |
| Query.QueryNamesEveryDomain | lib/google-image-scraper.ts:68-73 | every domain appears in the query as its own `site:` term |
| Scoring.OverlapRatio | lib/google-image-scraper.ts:89-91 | the share of the name's tokens found in the candidate lies in [0, 1], is 0 for no name tokens, and is 1 only when every name token is found |
| Scoring.TokenSet | lib/google-image-scraper.ts:81 | `new Set(tokenize(s))`; no contract of its own: Overlap and OverlapIgnoresWordOrder state what the overlap term makes of it |
| Scoring.Overlap | lib/google-image-scraper.ts:81-91 | the overlap term lies in [0, 1], is 0 when the name has no tokens, and is 1 only when all the name's tokens occur in the candidate text |
| Scoring.OverlapIgnoresWordOrder | lib/google-image-scraper.ts:81-91 | names made of words of ASCII letters and digits, in any case, get the same overlap term whenever their lower-cased word sets agree: order, repeats and letter case make no difference ("iPhone 15 Pro" and "pro 15 IPHONE") |
| Scoring.LowerWordsTokenize | lib/google-image-scraper.ts:37-39 | words of ASCII letters and digits joined by spaces tokenize to the same words lower-cased |
| Scoring.PhraseBoost | lib/google-image-scraper.ts:94 | the phrase term is 0 or 0.25 |
| Scoring.DomainBoost | lib/google-image-scraper.ts:97 | the domain term; no contract of its own: MatchedDomainNeverLowersScore states that a non-empty matched domain adds exactly 0.15 |
| Scoring.EmptyNameEarnsPhraseBonus | lib/google-image-scraper.ts:94 | a name that normalizes to "" always earns the 0.25 phrase bonus |
| Scoring.SizePenalty | lib/google-image-scraper.ts:99-110 | the size penalty is 0, 0.2 or 0.5 |
| Scoring.SizePenaltyCases | lib/google-image-scraper.ts:99-110 | 0.5 iff both dimensions are non-zero and the shorter edge is below 100; 0.2 iff both are non-zero and it is in [100, 200); otherwise 0 |
| Scoring.BadPenalty | lib/google-image-scraper.ts:112-119 | the keyword penalty is 0 or 0.3 |
| Scoring.HasBadWord | lib/google-image-scraper.ts:112-119 | the case-insensitive bad-word test; no contract of its own: BadWordIgnoresCase states its case-insensitivity |
| Scoring.BadWordIgnoresCase | lib/google-image-scraper.ts:113 | the bad-word test gives the same answer on a text and on its lower-cased form |
| Scoring.RawScore | lib/google-image-scraper.ts:121 | the unclamped sum of terms lies in [-0.8, 1.4] |
| Scoring.Round4 | lib/google-image-scraper.ts:122 | rounding to four decimals stays non-negative and within 0.00005 of its input |
| Scoring.Round4Monotone | lib/google-image-scraper.ts:122 | rounding to four decimals is monotone |
| Scoring.Round4Fixes | lib/google-image-scraper.ts:122 | a value already on the 0.0001 grid is unchanged by rounding |
| Scoring.ScoreCandidate | lib/google-image-scraper.ts:76-123 | the final score lies in [0, 1.4] and is within 0.00005 of the sum of terms clamped at 0 |
| Scoring.MatchedDomainNeverLowersScore | lib/google-image-scraper.ts:97 | a non-empty matched domain adds exactly 0.15 to the sum of terms, so the final score never drops |
| SerpSearch.ExtractHost | lib/google-image-scraper.ts:52-59 | the host comes out lower-case, and a URL the parser rejects yields "" |
| SerpSearch.Scope | lib/google-image-scraper.ts:169-171 | the match pair used by the loop; when it reports no match, its domain is empty |
| SerpSearch.ToResult | lib/google-image-scraper.ts:179-192 | the pushed result carries the given rank; the original URL, or the thumbnail when there is none; the thumbnail; the title, or the product name when there is none; the lower-cased page host and the page link; the provider's width and height; the matched domain of the scope test, empty when no domains are given; and the candidate's score, which lies in [0, 1.4] |
| SerpSearch.Collect | lib/google-image-scraper.ts:164-193 | the loop pushes at most one result per provider image; CollectIsNumberedFilter, CollectRanks and CollectInScope state what it pushes |
| SerpSearch.CollectIsNumberedFilter | lib/google-image-scraper.ts:164-193 | the loop's output is the list of images whose host is in scope, in provider order, the i-th converted with rank i + 1 |
| SerpSearch.NoDomainsKeepsEverything | lib/google-image-scraper.ts:169-176 | with an empty domain list no image is dropped |
| SerpSearch.SearchFallback | lib/google-image-scraper.ts:140-143 | without a key, or when the provider call fails, the result is exactly the three demo images |
| SerpSearch.SearchImages | lib/google-image-scraper.ts:135-208 | `searchImages`; no contract of its own: the rows SearchFallback, SearchOrdersByScore, SearchCountsKept, SearchScopesToDomains and SearchRanksArePermutation state its properties |
| SerpSearch.SearchOrdersByScore | lib/google-image-scraper.ts:195-196 | on a provider reply the output is sorted non-increasing by score, is a permutation of the kept results, is no longer than the raw list, and keeps equal-score results in provider order |
| SerpSearch.SearchCountsKept | lib/google-image-scraper.ts:164-176 | on a provider reply there are as many results as images in scope, and all images when no domains are given |
| SerpSearch.SearchScopesToDomains | lib/google-image-scraper.ts:169-191 | every result's host matches the domain list with the reported matched domain; with no domains every matched domain is "" |
| SerpSearch.CollectInScope | lib/google-image-scraper.ts:169-191 | every result the loop pushes satisfies the scope condition above |
| SerpSearch.PermutationInScope | lib/google-image-scraper.ts:196 | reordering results keeps the scope condition |
| SerpSearch.CollectRanks | lib/google-image-scraper.ts:182 | the loop numbers pushed results 1, 2, 3, … in push order |
| SerpSearch.RanksOfPermutation | lib/google-image-scraper.ts:196 | any reordering of results numbered 1..n has ranks in 1..n, each exactly once |
| SerpSearch.SearchRanksArePermutation | lib/google-image-scraper.ts:182 | after the sort, ranks are distinct and lie in 1..n: a permutation of 1..n, not necessarily in output order |
| SerpSearch.TargetDomains | lib/google-image-scraper.ts:235 | the demo target list is never empty |
| SerpSearch.DemoImages | lib/google-image-scraper.ts:232-254 | three results, ranked 1..3 and scored 0.9 − 0.1i; result i is on target domain i mod len, that domain is also its matched domain, and it is 400×300 |
| SerpSearch.DemoImagesOrderedAndNamed | lib/google-image-scraper.ts:237-250 | demo results are sorted by score and each page URL is `https://<domain>/product/` followed by text that decodes to the exact product name |
| SerpSearch.DemoImageNamed | lib/google-image-scraper.ts:238-245 | one demo result: its domain is a target, and its page URL carries the product name recoverably |
| SerpSearch.DemoPageUrlDecodes | lib/google-image-scraper.ts:245 | the tail of a demo page URL decodes to the product name |
| SerpSearch.SearchMultiple | lib/google-image-scraper.ts:210-230 | the batch has exactly one key per distinct product name |
| SerpSearch.LastOccurrenceWins | lib/google-image-scraper.ts:218-222 | a repeated name keeps the entry computed for its last occurrence |
| SerpSearch.SearchMultipleKeepsLastSearch | lib/google-image-scraper.ts:218-222 | each name maps to `slice(0, topN)` of the search made for its last occurrence: a prefix of that search, at most topN long |
| StableSort.Insert | lib/google-image-scraper.ts:196 | one insertion step adds exactly the new element |
| StableSort.InsertSorted | lib/google-image-scraper.ts:196 | inserting into a descending list keeps it descending |
| StableSort.SortDesc | lib/google-image-scraper.ts:196 | the sort is non-increasing by key and a permutation of its input |
| StableSort.InsertKeepsEqualKeyOrder | lib/google-image-scraper.ts:196 | an inserted element goes after every element with the same key |
| StableSort.SortIsStable | lib/google-image-scraper.ts:196 | for every key value, the elements with that key appear in the output in input order |
| StableSort.SortDescOfSorted | lib/google-image-scraper.ts:196 | sorting a list that is already descending changes nothing |
| Seqs.NumberKeptIsNumberedFilter | lib/google-image-scraper.ts:164-193 | a loop that pushes kept elements numbered by push count equals the filter of the input with element i numbered i + 1 |
| Seqs.SliceTo | lib/google-image-scraper.ts:221 | `slice(0, end)` is a prefix whose length follows JavaScript's rules, including negative ends |
| Seqs.Filter | components/ScraperForm.tsx:51 | the result is no longer than the input, holds only elements passing the test, and is the input itself when everything passes |
| Seqs.FilterMembers | components/ScraperForm.tsx:51 | filtered elements come from the input, and every passing input element is in the result |
| Seqs.FilterNoDuplicates | components/ScraperForm.tsx:51 | filtering a list without duplicates gives one without duplicates |
| Seqs.Dedup | components/SimpleScraperForm.tsx:23 | `[...new Set(xs)]` has no duplicates and the same members as its input |
| Seqs.DedupFirstOccurrenceOrder | components/SimpleScraperForm.tsx:23 | the kept values appear in the order of their first occurrences |
| Seqs.DedupOfDistinct | components/SimpleScraperForm.tsx:23 | a list without duplicates is unchanged |
| Text.Lower | lib/google-image-scraper.ts:31 | ASCII `toLowerCase`, character by character |
| Text.LowerIdempotent | lib/google-image-scraper.ts:31 | lower-casing twice equals lower-casing once |
| Text.Trim | components/SimpleScraperForm.tsx:20 | the trimmed text neither starts nor ends with white space |
| Text.TrimIsInfix | components/SimpleScraperForm.tsx:20 | the trimmed text is a contiguous piece of the input |
| Text.TrimCutsOnlySpace | components/SimpleScraperForm.tsx:20 | everything trimmed away on either side is white space |
| Text.TrimIdempotent | components/SimpleScraperForm.tsx:20 | trimming twice equals trimming once |
| Text.Split | components/SimpleScraperForm.tsx:42 | `split(c)` gives at least one piece, none containing c |
| Text.SplitCount | components/SimpleScraperForm.tsx:42 | there is one more piece than occurrences of the separator |
| Text.JoinSplit | components/SimpleScraperForm.tsx:42 | joining the pieces with the separator gives back the text |
| Text.SplitJoin | components/SimpleScraperForm.tsx:42 | splitting a join of separator-free pieces gives back the pieces |
| Text.SplitOnRuns | components/SimpleScraperForm.tsx:19 | splitting at runs of separators gives at least one piece, none containing a separator |
| Text.SplitOnRunsJoin | components/SimpleScraperForm.tsx:19 | splitting a join of non-empty separator-free pieces gives back the pieces |
| Text.NatToStringRoundTrip | lib/image-search.ts:90 | the decimal numeral of a number reads back as that number |
| Uri.EncodeAlphabet | lib/image-search.ts:90 | `encodeURIComponent` output holds only unreserved characters, `%` and upper-case hex digits |
| Uri.Encode | lib/image-search.ts:90 | `encodeURIComponent` never shortens its input; EncodeAlphabet, EncodeUnreserved, EncodeHasNoPlus and DecodeEncode state the rest |
| Uri.EncodeUnreserved | lib/image-search.ts:90 | a text of unreserved characters is encoded as itself |
| Uri.EncodeHasNoPlus | lib/image-search.ts:90 | an encoded text never holds `+` |
| Uri.Utf8RoundTrip | lib/google-image-scraper.ts:245 | decoding the UTF-8 bytes of any character gives the character back |
| Uri.DecodeEncode | lib/google-image-scraper.ts:245 | `decodeURIComponent(encodeURIComponent(s)) == s` for every string |
| Uri.NumberedUrlRoundTrip | lib/image-search.ts:90 | in `prefix + encode(q) + '+' + n` the first `+` after the prefix ends the encoded query, which decodes to q, and the digits after it read back as n |
| TaskStorage.Set | lib/storage.ts:36-58 | the memory entry is written with expiry now + 600000 whatever happens to the file; a successful write also writes the file and schedules one timer; other ids are untouched |
| TaskStorage.Get | lib/storage.ts:60-91 | an unexpired memory record is returned as it is and the store is unchanged; otherwise a record is returned iff the file can be read and holds it with a later expiry; a failed read or parse returns nothing and changes nothing; a returned record has not expired and is in memory afterwards |
| TaskStorage.Delete | lib/storage.ts:93-106 | the memory entry always goes; the result is true iff the file existed and could be removed |
| TaskStorage.Has | lib/storage.ts:108-120 | present iff in memory, expired or not, or on file with `fs.access` succeeding; when the access check fails, present iff in memory |
| TaskStorage.Clear | lib/storage.ts:122-135 | memory is emptied; files are removed when the directory can be listed, and otherwise left as they were |
| TaskStorage.FireTimer | lib/storage.ts:51-54 | once the clock has reached its due time, the earliest timer fires, runs `delete` (lines 93-106) and leaves the queue: its task leaves memory, its file is removed when the unlink succeeds and kept otherwise, and every other task's memory entry and file stay as they were |
| TaskStorage.ExpiryLaw | lib/storage.ts:60-81 | a record set at time t0 is returned at every t < t0 + 600000 and at no t ≥ t0 + 600000, whether or not the file write succeeded |
| TaskStorage.FilePathBehaviour | lib/storage.ts:70-90 | on the file path a file that cannot be read or parsed yields nothing and changes nothing; a readable expired record yields nothing and leaves memory, and leaves the files too when unlink succeeds; a readable unexpired one is returned and copied into memory |
| TaskStorage.WriteFailureKeepsMemory | lib/storage.ts:43-57 | after a failed file write the record stays readable until expiry, and no timer is scheduled |
| TaskStorage.SecondDeleteReturnsFalse | lib/storage.ts:93-106 | after a delete that returned true, a second delete returns false |
| TaskStorage.HasIgnoresExpiry | lib/storage.ts:108-111 | an expired memory entry is still reported present though `get` returns nothing |
| TaskStorage.OtherTasksUnaffected | lib/storage.ts:36-106 | set, get and delete on one id change neither `get` nor `has` of another id |
| TaskStorage.TimerSparesOtherTasks | lib/storage.ts:51-54 | a firing timer changes neither `get` nor `has` of any task other than its own |
| TaskStorage.ClearEmpties | lib/storage.ts:122-135 | after a successful clear no id is present or retrievable |
| TaskStorage.WellTimedPreserved | lib/storage.ts:39 | every operation, and time passing, keeps all expiries within 600000 of the clock |
| TaskStorage.EarlierTimerCutsLaterSet | lib/storage.ts:51-54 | the timer of an earlier set, firing when due, removes a later set of the same id from memory while that record is still readable; with a successful unlink `get` then returns nothing until the later record would have expired, and with a failed unlink `get` reloads it from a readable file |
| ResultsStore.Set | lib/results-store.ts:25-33 | the id maps to the data, other ids keep their entries, and a timer is queued |
| ResultsStore.Get | lib/results-store.ts:35-39 | a value is returned iff the id is stored, with no expiry check |
| ResultsStore.Delete | lib/results-store.ts:41-43 | returns true iff the id was present, and removes just that id |
| ResultsStore.Has | lib/results-store.ts:45-47 | present iff `get` returns a value |
| ResultsStore.Clear | lib/results-store.ts:49-51 | after clear no id is present |
| ResultsStore.FireTimer | lib/results-store.ts:30-32 | a firing timer removes its id |
| ResultsStore.FireTimers | lib/results-store.ts:30-32 | firing timers only ever removes ids |
| ResultsStore.GetAfterSet | lib/results-store.ts:25-39 | `get` after `set(id, d)` returns d, and a later set overwrites |
| ResultsStore.EntrySurvivesOtherOperations | lib/results-store.ts:25-43 | set, delete and timers on other ids leave an entry unchanged |
| ResultsStore.DeleteThenAbsent | lib/results-store.ts:41-47 | after delete the id is absent and a second delete returns false and changes nothing |
| ResultsStore.NoTimerNoExpiry | lib/results-store.ts:29-39 | an entry stays, unchanged, until a timer for its own id fires |
| ResultsStore.EarlierTimerCutsLaterSet | lib/results-store.ts:25-33 | the timer of an earlier set removes a later set of the same id |
| CsvExport.Row | lib/csv-export.ts:15-34 | five columns led by the product name; a missing image gives four empty fields; otherwise the image URL and source page URL fill columns two and three, the matched domain falls back to the source domain, and a non-zero score is written with the number formatting while a score of 0 or none leaves the column empty |
| CsvExport.Escape | lib/csv-export.ts:43-47 | a value without comma or quote is emitted verbatim, any other is wrapped in quotes |
| CsvExport.DoubleQuotesKeepsOtherChars | lib/csv-export.ts:45 | any character other than the quote occurs in the doubled text iff it occurs in the value |
| CsvExport.DoubleQuotes | lib/csv-export.ts:45 | doubling quotes never shortens the value; DoubleQuotesKeepsOtherChars and QuotedFieldRoundTrip state what it changes |
| CsvExport.EscapeRoundTrip | lib/csv-export.ts:43-47 | a quote-aware field reader recovers every escaped value exactly and stops where the next field or the end begins |
| CsvExport.QuotedFieldRoundTrip | lib/csv-export.ts:45 | a quoted field with doubled inner quotes reads back as the value |
| CsvExport.BareFieldRoundTrip | lib/csv-export.ts:47 | an unquoted field reads back as the value |
| CsvExport.ParseBareRoundTrip | lib/csv-export.ts:47 | a comma-free value is read up to the field end |
| CsvExport.ParseQuotedRoundTrip | lib/csv-export.ts:45 | the doubled-quote body is read back up to the closing quote |
| CsvExport.ParseRecordRoundTrip | lib/csv-export.ts:40-49 | a record of any fields splits back, quote-aware, into exactly those fields |
| CsvExport.RecordsHaveFiveFields | lib/csv-export.ts:40-49 | each record reads back as its five column values |
| CsvExport.Record | lib/csv-export.ts:41-48 | one CSV line of escaped fields; no contract of its own: ParseRecordRoundTrip and RecordWithoutLineFeed state its properties |
| CsvExport.GenerateCsv | lib/csv-export.ts:11-52 | `generateCSV`; no contract of its own: CsvStartsWithHeader, LinesAreHeaderAndRecords and RecordsHaveFiveFields state its properties |
| CsvExport.EscapeAll | lib/csv-export.ts:41-48 | every column is escaped by the same rule, in column order |
| CsvExport.Records | lib/csv-export.ts:40-49 | one record per entry, in the order of the entry sequence, which stands for the `Object.entries` enumeration and not for the product list |
| CsvExport.HeaderLineIsHeaders | lib/csv-export.ts:37-38 | the header line is the record of the five column names, unquoted, without a line feed |
| CsvExport.HeadersArePlain | lib/csv-export.ts:37 | no column name needs quoting or holds a line feed |
| CsvExport.CsvStartsWithHeader | lib/csv-export.ts:51 | the text begins with the header line, is only that line when there are no entries, and has a line feed after it otherwise |
| CsvExport.RecordWithoutLineFeed | lib/csv-export.ts:44 | a record holds a line feed only if one of its fields does, since a line feed does not trigger quoting |
| CsvExport.LinesAreHeaderAndRecords | lib/csv-export.ts:51 | when no field holds a line feed, the lines are the header and the records, so there are entries + 1 lines |
| ScraperV2.SearchQuery | lib/scraper-v2.ts:38-40 | the query is `extraKeyword + " " + itemName` for a non-empty keyword, else the item name |
| ScraperV2.Converted | lib/scraper-v2.ts:48-58 | image j of a domain gets that domain, score 0.95 − 0.05j, confidence 0.90 − 0.05j, and rank one past the results before it |
| ScraperV2.ItemResults | lib/scraper-v2.ts:33-62 | before the sort, ranks are positions 1..n in the concatenation and every domain is an input domain |
| ScraperV2.TotalFound | lib/scraper-v2.ts:36-58 | the number of images pushed for one item; no contract of its own: ItemResults, ScrapeItem and GeneratorTotal state its role |
| ScraperV2.FailedDomainSkipped | lib/scraper-v2.ts:59-61 | a domain whose search throws is skipped: the results equal those of the list without it |
| ScraperV2.ScrapeItem | lib/scraper-v2.ts:64-66 | each item's list is sorted by score, at most topN long (default 3), has `slice` length of the total found, and holds only input domains |
| ScraperV2.KeptResults | lib/scraper-v2.ts:65-66 | sorting then slicing keeps descending order and brings in no other domain |
| ScraperV2.ScrapeItemKeepsBest | lib/scraper-v2.ts:65-66 | the kept list is a prefix of the stable sort of all results and a sub-multiset of them |
| ScraperV2.ScrapeImages | lib/scraper-v2.ts:23-73 | one entry per distinct item name, each the list computed for that name |
| ScraperV2.GeneratorTotal | lib/scraper-v2.ts:45 | with the image-search generator each domain yields min(max(limit, 0), 10) images |
| ScraperV2.WithGeneratorSearch | lib/scraper-v2.ts:45-66 | with that generator each item keeps min(topN, domains × min(maxResults, 10)) images |
| ImageSearch.CleanQuery | lib/image-search.ts:61 | the cleaned query holds only lower-case ASCII letters and digits and is no longer than the query |
| ImageSearch.CleanQueryIsLowerFilter | lib/image-search.ts:61 | cleaning keeps exactly the letters and digits, lower-cased, in order: the same as lower-casing first and filtering after |
| ImageSearch.CleanQueryIdempotent | lib/image-search.ts:61 | cleaning a cleaned query changes nothing |
| ImageSearch.GeneratedCount | lib/image-search.ts:59 | the loop runs max(0, min(limit, 10)) times |
| ImageSearch.SearchImages | lib/image-search.ts:13-79 | exactly max(0, min(limit, 10)) results, each 400×300, credited to the domain if given, else to source i mod 3 |
| ImageSearch.GeneratedImage | lib/image-search.ts:59-70 | one generated image; no contract of its own: SearchImages and SearchUsesCleanQuery state its fields |
| ImageSearch.SearchUsesCleanQuery | lib/image-search.ts:59-70 | result i uses source i mod 3 (Unsplash, Picsum, LoremFlickr) with the cleaned query, and its title is the raw query + " - Image " + (i + 1) |
| ImageSearch.SameCleanQuerySameUrls | lib/image-search.ts:20-71 | the URLs, thumbnails and sources depend on the query only through its cleaned form; the unused `site:` query plays no part |
| ImageSearch.PlaceholderImages | lib/image-search.ts:81-100 | exactly limit results (none for a negative limit), each 400×300, credited to the domain or "placeholder" |
| ImageSearch.PlaceholderImage | lib/image-search.ts:88-98 | one placeholder image; no contract of its own: PlaceholderImages and PlaceholderUrlRoundTrip state its fields |
| ImageSearch.PlaceholderUrlRoundTrip | lib/image-search.ts:90 | each placeholder URL carries the query and the image number i + 1, both recoverable |
| MockScraper.MockDomain | lib/scraper.ts:40 | the first domain if it is non-empty, else "example.com"; never empty |
| MockScraper.MockCount | lib/scraper.ts:34 | min(topN, 3) iterations, none for topN ≤ 0 |
| MockScraper.MockImages | lib/scraper.ts:31-47 | min(topN, 3) images ranked 1..k in list order, all on the mock domain |
| MockScraper.MockImage | lib/scraper.ts:35-43 | one mock image; no contract of its own: MockImages and MockImagesDecreasing state its fields |
| MockScraper.MockImagesDecreasing | lib/scraper.ts:34-44 | scores 0.95 − 0.1i and confidences 0.90 − 0.1i strictly decrease, and each URL carries the item name and its rank recoverably |
| MockScraper.ScrapeImages | lib/scraper.ts:22-51 | one entry per distinct item name |
| MockScraper.MockImagesOrdered | lib/scraper.ts:24-46 | each item's list has min(topN, 3) images (topN defaulting to 3), ranks 1..k, strictly decreasing scores, and is already in sorted order |
| MockScraper.GoogleScrapeImages | lib/scraper.ts:54-61 | `GoogleImagesScraper.scrapeImages` returns exactly what `MockScraper.scrapeImages` returns |
| SimpleForm.TrimAll | components/SimpleScraperForm.tsx:20 | each piece is trimmed, in order |
| SimpleForm.LowerTrimAll | components/SimpleScraperForm.tsx:29 | each piece is trimmed and lower-cased, in order |
| SimpleForm.PiecesHaveNoSeparator | components/SimpleScraperForm.tsx:19 | no piece of the split holds a newline, comma or semicolon |
| SimpleForm.TrimmedPieceIsEntry | components/SimpleScraperForm.tsx:20-21 | a non-empty trimmed piece is a valid entry, and its lower-cased form a valid domain entry |
| SimpleForm.ParseItems | components/SimpleScraperForm.tsx:17-24 | the parsed items have no duplicates and are no more than the kept pieces |
| SimpleForm.ParseItemsEntries | components/SimpleScraperForm.tsx:17-24 | every item is non-empty, trimmed and free of separators |
| SimpleForm.ParseItemsMembers | components/SimpleScraperForm.tsx:18-21 | x is an item iff it is non-empty and the trim of some piece of the split |
| SimpleForm.ParseItemsOrder | components/SimpleScraperForm.tsx:23 | items keep the order of their first occurrences |
| SimpleForm.ParseItemsOfLines | components/SimpleScraperForm.tsx:17-24 | distinct valid entries written one per line parse back to the same list |
| SimpleForm.ParseItemsIdempotent | components/SimpleScraperForm.tsx:17-24 | the parsed items, written one per line, parse to themselves |
| SimpleForm.ParseDomains | components/SimpleScraperForm.tsx:26-33 | the parsed domains have no duplicates and are no more than the kept pieces |
| SimpleForm.ParseDomainsEntries | components/SimpleScraperForm.tsx:26-33 | every domain is non-empty, trimmed, lower-case and free of separators |
| SimpleForm.ParseDomainsMembers | components/SimpleScraperForm.tsx:27-30 | x is a domain iff it is non-empty and the lower-cased trim of some piece |
| SimpleForm.ParseDomainsOfLines | components/SimpleScraperForm.tsx:26-33 | distinct valid domains written one per line parse back to the same list |
| SimpleForm.Submit | components/SimpleScraperForm.tsx:69-81 | a request is made iff both parsed lists are non-empty, and it carries those lists |
| SimpleForm.BlankInputMakesNoRequest | components/SimpleScraperForm.tsx:70-76 | input made only of separators and white space parses to no items, so nothing is submitted |
| SimpleForm.FirstField | components/SimpleScraperForm.tsx:50 | the first comma field of a line, trimmed, holds no comma |
| SimpleForm.FirstFields | components/SimpleScraperForm.tsx:49-51 | one first field per line, in order |
| SimpleForm.UploadProductsShape | components/SimpleScraperForm.tsx:42-57 | every uploaded product is a non-empty trimmed line, and comma-free when the first line is a header |
| SimpleForm.UploadProducts | components/SimpleScraperForm.tsx:42-57 | the product list of an uploaded file; no contract of its own: UploadProductsShape, UploadPlainLines and UploadWithHeader state its properties |
| SimpleForm.UploadText | components/SimpleScraperForm.tsx:59 | the item box text after an upload; no contract of its own, it joins UploadProducts with newlines |
| SimpleForm.UploadPlainLines | components/SimpleScraperForm.tsx:54-56 | without a header, trimmed non-empty lines come back unchanged |
| SimpleForm.UploadWithHeader | components/SimpleScraperForm.tsx:47-51 | with a header containing "product", the header is dropped and the first field of each later line is kept |
| ResultPoll.Tick | components/SimpleScraperForm.tsx:108-131 | a tick shows the results iff the status is "completed", goes on iff the reply is neither completed nor not found and fewer than 30 polls were made, and fails on a fetch error at the 30th poll |
| ResultPoll.PollFrom | components/SimpleScraperForm.tsx:108-132 | the interval after a number of ticks; no contract of its own: PollFromRule states its stopping rule |
| ResultPoll.Poll | components/SimpleScraperForm.tsx:104-132 | the whole polling run; no contract of its own: PollStopRule and PollEnds state its properties |
| ResultPoll.PollFromRule | components/SimpleScraperForm.tsx:104-132 | the stopping rule from any tick before the 30th |
| ResultPoll.PollStopRule | components/SimpleScraperForm.tsx:104-132 | at most 30 polls; every poll before the last was quiet; results are shown iff the last reply was "completed"; the alerts come only on "not_found" or at the 30th poll; polling goes on only while fewer than 30 quiet replies arrived |
| ResultPoll.PollEnds | components/SimpleScraperForm.tsx:106-123 | thirty replies always end polling |
| TagForm.Edit | components/ScraperForm.tsx:111 | typing replaces the text and keeps the tags |
| TagForm.AddTag | components/ScraperForm.tsx:36-41 | the list grows by at most the trimmed text, at the end, clearing the box; a non-blank text is a tag afterwards; otherwise nothing changes |
| TagForm.AddTwiceAddsOnce | components/ScraperForm.tsx:36-41 | adding the same text again adds nothing |
| TagForm.AddIgnoresSurroundingSpace | components/ScraperForm.tsx:37-38 | texts differing only in surrounding white space add the same tag |
| TagForm.RemoveTag | components/ScraperForm.tsx:50-52 | every copy of the tag goes, every other tag stays, nothing new appears, and the box is untouched |
| TagForm.RemoveAfterAdd | components/ScraperForm.tsx:36-52 | removing a tag just added restores the list |
| TagForm.ValidPreserved | components/ScraperForm.tsx:36-56 | every handler keeps the tags distinct, non-empty and trimmed |
| TagForm.Submit | components/ScraperForm.tsx:58-79 | a request is made iff the number fields are in range and both lists are non-empty, and it carries the tags as they are |
| TagForm.FirstRequest | components/ScraperForm.tsx:29-79 | from empty lists and the defaults, one add in each list gives a request for those two trimmed names with 10 images and top 3 |

## Left out

- The SerpAPI request, the image fetches and the Pexels variant `searchImagesWithAPI` (lib/image-search.ts:103-148) are network I/O. The provider is a function parameter.
- `new URL(url).hostname` is a function parameter returning a host or nothing.
- `Date.now()` is the `now` argument. The `setTimeout` cleanup timers are a queue: `TaskStorage.FireTimer` fires the head timer once the clock has reached its due time.
- ResultsStore.FireTimer: the results store does not model the clock, so a timer may fire at any time after it is scheduled. Every property stated for the store holds whatever the firing times. Delays for rate limiting and for the mock are left out, because they only affect timing.
- File-system calls are a second map. The success of each write, unlink, read-and-parse, access check and directory listing is a boolean argument. A `clear` whose unlinks fail part way through is not modelled: listing either removes every task file or none.
- TaskStorage.Set, TaskStorage.Get: each call is one atomic step, so operations on one id are modelled as not interleaving. In the code `get` awaits `fs.readFile` (lib/storage.ts:73) and only then copies the file's record into memory (line 84). A `set` of the same id that runs during that await is overwritten in memory by the older record from the file. `set` also registers its timer only after `writeFile` resolves (lines 47-54), so when two writes overlap, their timers are queued in the order the writes complete, not the order the calls started. The scrape route awaits one `set` per freshly generated id before returning that id (app/api/scrape/route.ts:26-47), so it never reaches these cases.
- TaskStorage.ExpiryLaw: holds for calls that do not interleave, as on the line above. A `get` whose file read is in flight when the `set` happens can replace the new record in memory with an older one from the file, which `get` then returns before t0 + 600000.
- MockScraper.MockCount, ScraperV2.ScrapeItem, SerpSearch.SearchMultiple: `topN` is an integer. A fractional JavaScript number is not modelled. With `topN = 2.5` the loop `i < Math.min(topN, 3)` (lib/scraper.ts:34) runs 3 times, and `slice(0, 2.5)` (lib/scraper-v2.ts:66, lib/google-image-scraper.ts:221) keeps 2 elements. `Seqs.SliceTo` likewise takes an integer end.
- CsvExport.Records, CsvExport.GenerateCsv: the entries are a sequence in `Object.entries` order, which the caller supplies. In JavaScript that order lists integer-like keys first, in ascending numeric order, and then the other keys in insertion order. An object also cannot repeat a key. So the entry sequence need not follow the order of the product list, and the model does not require its names to be distinct.
- Only JSON data shapes matter. The data is a type parameter of the stores.
- Scores are exact reals. Float artefacts such as 0.7000000000000001 are not modelled. Scoring.Round4: `Math.round` is modelled as rounding half up, which is exact for the non-negative values it receives.
- CsvExport.Row: `score.toString()` is a parameter, because JavaScript number formatting is not modelled.
- Scoring.OverlapIgnoresWordOrder: stated for names whose words are ASCII letters and digits. A word with punctuation inside splits into several tokens, and names built from such words are not covered.
- Text.Lower: `toLowerCase` is modelled for ASCII letters only; non-ASCII case mapping is left out. `trim` and `\s` use JavaScript's full white-space set, and `\W` is ASCII-only in JavaScript itself.
- ImageSearch.SearchImages: the `catch` fallback to placeholder images is not wired in. The only throw is `encodeURIComponent` (lib/image-search.ts:24), which raises URIError on a lone surrogate in the query or the domain. A Dafny string holds only Unicode scalar values, so no modelled input reaches it. `generatePlaceholderImages` is modelled on its own.
- ImageSearch.GeneratedCount: a fractional `limit` is not modelled; limits are integers.
- TagForm.Submit: the number fields are integers. react-hook-form's string values, and its validation messages, are left out.
- TagForm.FirstRequest: the keyword field has no default in the form; the model uses the empty string.
- The two-second single results fetch after submitting `ScraperForm` (components/ScraperForm.tsx:86-92) is I/O and is left out.
- Toasts, alerts, `loadSampleData`, `downloadCSV`, uuid generation and all rendering are left out. They are side effects or fixed data.
- app/api/scrape/route.ts is HTTP wiring. It calls a method that lib/google-image-scraper.ts does not define, so there is no behaviour to model.
- ResultPoll.Tick: a reply whose JSON has no status behaves like any other quiet status; a fetch or parse failure is the `Error` reply.
- SerpSearch.ToResult: the `width` and `height` fields pass through as optional integers.
- ResultPoll.PollStopRule: ticks are modelled in sequence, reply k judged with counter k + 1 before the next tick starts. `setInterval` (components/SimpleScraperForm.tsx:108) does not wait for its async callback, the shared `attempts` is read after two awaits (lines 119 and 126), and `clearInterval` does not cancel callbacks in flight. With replies slower than a second a reply is judged against a later counter, more than 30 polls can be issued, and a late reply can still show results or raise a second alert after polling stopped. "At most 30 polls" holds only when ticks do not overlap.
- SerpSearch.SearchMultiple, ScraperV2.ScrapeImages, MockScraper.ScrapeImages: results are plain objects (`{}`), so a product named `__proto__` sets the prototype instead of adding a key (lib/google-image-scraper.ts:221, lib/scraper-v2.ts:66, lib/scraper.ts:46). The maps of the model do hold that key.
