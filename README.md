# A verified model of the mirroring web crawler

The crawler starts from a seed URL. It keeps a map from every known link to
whether that link is being crawled. On each tick it picks one link from the
map and crawls it. A crawl stores the page under the destination directory and
adds the links found on the page, when they lie under the seed URL, back into
the map. This project models three parts of the crawler in Dafny and proves
their properties:

- `parser.dfy` (module `Parser`) models the link extractor
  `findChildrenLinks`. It has three layers:
  - the regular expression `attr="(.*?)"` as a leftmost, non-overlapping scan
    (`MatchAt`, `Spans`, `Matches`);
  - the value extraction, relative-link resolution and scope filter
    (`Value`, `Resolve`, `Contribution`, `LinksOf`);
  - the imperative scanner and extractor loops (`FindAllMatches`,
    `FindChildrenLinks`), proved equal to those functions.
- `parser_vectors.dfy` (module `ParserVectors`) builds the unit test page out
  of anchor lines and computes the two expected results of the extractor's
  unit test. To do so it proves scanning facts through concatenations: a
  shifted suffix, a prefix without matches, and one anchor element.
- `crawler.dfy` (module `Crawler`) models `crawl`, the pipeline for one link,
  as a pure function:
  - `filepath.Ext`, modelled exactly;
  - the destination path;
  - the early exits in their fixed order.

  Its collaborators are the fields of an `Env`: URL parsing, file existence,
  fetching, writing, and path joining. The calls made to them are recorded, in
  order, as the run's effects.
- `scheduler.dfy` (module `Scheduler`) models the main loop of `main.go` as the
  class `Session`:
  - its `state` field is `crawledState`;
  - `SelectLink` is the range scan that chooses the link;
  - `Worker` is the worker goroutine, run to completion;
  - `Step` is one pass of the loop;
  - `Serve` is the loop over a sequence of events.

  Go's map iteration order is unspecified, so each scan takes the visiting
  order as a parameter (`IsEnumeration`); `Enumerate` produces one.
- `wrappers.dfy` (module `Wrappers`) holds `Option` and `IsPrefix`, which is
  Go's `strings.HasPrefix`.

The model treats the read-write lock as a no-op. Under that reading, the
scan's in-loop eviction deletes the link chosen so far (the variable `link`),
not the key being skipped (`url`). `ScanEvictsChosenLink` shows this, and
`ScanAllUnclaimed` shows that the branch never runs between ticks. With the
real lock the branch would block instead (see "Left out").

## Model

| member | source | states |
|---|---|---|
| Parser.ClosingQuote | parser.go:9 | A closing position, when one is found, lies inside the text at or after the value's start and holds a quote. That it is the first such quote is `ClosingQuoteIsFirst`. |
| Parser.MatchAt | parser.go:9-18 | A match at position `i` exists only where `attr="` occurs. It lies inside the text, is at least `attr=""` long and ends with a quote. |
| Parser.ClosingQuoteIsFirst | parser.go:9 | The lazy `(.*?)"` closes at the first quote after the opening, with no newline before it. When no quote closes the value, every later quote has a newline before it. |
| Parser.MatchAtShape | parser.go:9-18 | A match at position `i` is `attr="`, then a value with neither quote nor newline, then the closing quote. When `attr="` occurs but no match starts there, every later quote has a newline before it. |
| Parser.Spans | parser.go:18 | Every reported match lies inside the text, at or after the scan's starting position, and is non-empty. |
| Parser.SpansInOrder | parser.go:18 | Reported matches do not overlap: each ends before the next one starts. |
| Parser.SpansAreMatches | parser.go:18 | Every reported span is a match of `attr="(.*?)"` starting at its position. |
| Parser.SpansCoverEveryMatch | parser.go:18 | Leftmost matching: every position where a match could start lies inside some reported match, so the scan never passes over a match. |
| Parser.FindAllMatches | parser.go:18 | The scanning loop returns exactly the leftmost non-overlapping matches, in text order. |
| Parser.Matches | parser.go:18 | `FindAllString(string(data), -1)`: the texts of the scan's spans from position 0; `SpansAreMatches`, `SpansInOrder`, `SpansCoverEveryMatch` and `MatchShape` state what they are. |
| Parser.TrimPrefix | parser.go:21 | `strings.TrimPrefix`: drops the prefix exactly when the string starts with it, so the length shrinks by the prefix's length or stays the same. |
| Parser.MatchShape | parser.go:18-21 | Each match string starts with `attr="`, ends with a quote, has no quote or newline in between, and is long enough for the slice in line 21. |
| Parser.ValueBetweenQuotes | parser.go:21 | The extracted value of each match is exactly the text of the page between `attr="` and the first following quote on the same line. |
| Parser.ValueOfMatchText | parser.go:21 | `TrimPrefix` followed by the slice yields the match text without its `attr="` and without its closing quote. |
| Parser.Value | parser.go:21 | The value is the match without its `attr="` opening and its closing quote, so its length is the match's length minus both. |
| Wrappers.IsPrefix | parser.go:24-29 | `strings.HasPrefix`: the prefix is no longer than the string and equals its first characters; used for the `/` test and the scope test. |
| Parser.Resolve | parser.go:23-26 | A value that starts with `/` becomes the base URL followed by the value. Any other value is left unchanged. |
| Parser.Keep | parser.go:23-33 | A value yields at most one link. A yielded link is the resolved value and starts with the base URL. A value starting with `/` always yields `baseUrl + value`. |
| Parser.Contribution | parser.go:21-33 | The links of one match are `Keep` of its extracted value; the contract is carried by `Value` and `Keep`. |
| Parser.LinksOf | parser.go:20-34 | The links of a run of matches, in order, one contribution per match; its properties are `LinksOfMembership`, `LinksOfInScope`, `LinksOfLength` and `LinksOfAppend`. |
| Parser.ChildrenLinks | parser.go:13-38 | The `href` links followed by the `src` links; its properties are `HrefLinksPrecedeSrcLinks` and `ChildrenLinksBounds`. |
| Parser.FindChildrenLinks | parser.go:13-38 | The nested loops over attributes and matches return exactly the links that the specification functions define. There is no error result, because the source never returns one. |
| Parser.LinksOfMembership | parser.go:20-34 | A string is among the links exactly when some match's value, made absolute when it starts with `/`, equals it and starts with the base URL. Both directions are proved. |
| Parser.LinksOfInScope | parser.go:28-33 | Every link that a run of matches produces starts with the base URL. |
| Parser.LinksOfLength | parser.go:20-34 | Each match contributes at most one link. |
| Parser.LinksOfAppend | parser.go:20-34 | The links of two consecutive runs of matches are the links of the first run followed by those of the second, so document order is kept. |
| Parser.RelativeValueKept | parser.go:23-29 | A value that starts with `/` always yields the link `baseUrl + value`. |
| Parser.ForeignValueDropped | parser.go:28-29 | An absolute value that does not start with the base URL is dropped. The links are those of the matches before it followed by those after it. |
| Parser.HrefLinksPrecedeSrcLinks | parser.go:11-20 | The result is all `href`-derived links followed by all `src`-derived links. |
| Parser.ChildrenLinksBounds | parser.go:13-38 | Every returned link starts with the base URL. The number of links is at most the number of `href` and `src` matches together. |
| ParserVectors.SpansShift | parser.go:18 | The matches found in a suffix, from any position on, are the matches of the whole text from the shifted position on. |
| ParserVectors.PeelNoStart | parser.go:18 | A prefix without the first letter of the attribute contributes no match. |
| ParserVectors.PeelNoEquals | parser.go:18 | A prefix in which no `=` can follow an attribute-length run contributes no match. |
| ParserVectors.Segment | parser.go:18-21 | Text, then `attr="v"`, then the rest gives one match, `attr="v"`, followed by the matches of the rest. |
| ParserVectors.LongerNameMatches | parser.go:9-18 | The attribute name also matches at the end of a longer name: `data-src="/a"` yields the `src` match `src="/a"`. |
| ParserVectors.PageHref | parser_test.go:9-14 | On a page of anchor lines with plain values, the `href` matches are one per line, in order. |
| ParserVectors.PageSrc | parser_test.go:9-14 | The same page has no `src` match. |
| ParserVectors.PageLinks | parser.go:13-38 | On such a page, the extractor keeps, in order, each value that its resolution puts in scope. |
| ParserVectors.TestPageLinksExampleCom | parser_test.go:16-32 | On the test page with base `https://example.com`, the links are `https://example.com/abc/foo/img.jpg`, `https://example.com/baz/page.html` and `https://example.com/baz/media.mp3`, in that order. |
| ParserVectors.TestPageLinksExampleComAbc | parser_test.go:34-49 | With base `https://example.com/abc`, the links are `https://example.com/abc/abc/foo/img.jpg` and `https://example.com/abc/baz/media.mp3`. The absolute `example.com` page is dropped. |
| Crawler.Ext | crawler.go:26 | The extension is never longer than the path. Its exact shape is `ExtEmptyIff` and `ExtShape`. |
| Crawler.ExtEmptyIff | crawler.go:26-28 | The extension is empty exactly when no `.` follows the last `/` of the path. Both directions are proved. |
| Crawler.ExtShape | crawler.go:26 | A non-empty extension is a suffix of the path that starts with `.` and contains no other `.` and no `/`. |
| Crawler.DestinationPath | crawler.go:20-28 | The seed is stored at `Join(dir, "index.html")` with nothing appended. Any other link is stored at `Join(dir, path)`, with `.html` appended exactly when the path's last element has no `.`. |
| Crawler.Crawl | crawler.go:10-61 | A parse failure, and only a parse failure, ends the crawl with a parse error, before any stat, fetch or write. Every returned child link starts with the seed. |
| Crawler.EffectsInOrder | crawler.go:25-50 | The collaborator calls of a crawl are a non-empty prefix of: stat the file, fetch the URL, write the fetched body to that file. |
| Crawler.SkipsExisting | crawler.go:32 | The skip condition: overwrite is off, the link is not the seed, and the file already exists; `SkippedIff` and `FetchedUnlessSkipped` state its effect on the crawl. |
| Crawler.SkippedIff | crawler.go:30-36 | The crawl returns `(nil, nil)` exactly when overwrite is off, the link is not the seed and the file exists. It then makes only the stat call, with no fetch and no write. |
| Crawler.FetchedUnlessSkipped | crawler.go:32-38 | The URL is fetched exactly when the crawl is not skipped. The seed is always fetched, and so is every link when overwrite is on. |
| Crawler.FetchFailureWritesNothing | crawler.go:38-43 | A fetch failure ends the crawl with an error, or it was skipped before, and nothing is written. |
| Crawler.WriteFailureNoLinks | crawler.go:45-50 | A write failure ends the crawl with an error and no links, or it was skipped before; whenever the write was attempted, the outcome is the write error. |
| Crawler.CrawledChildren | crawler.go:52-61 | A crawl that succeeds has parsed and fetched. It returns the links of the fetched body scoped to the seed, not to the link being crawled. |
| Scheduler.LastUnclaimed | main.go:89-100 | The last key in visiting order with value `false`, or the initial link when there is none; its properties are `LastUnclaimedIsUnclaimed` and `LastUnclaimedIgnores`. |
| Scheduler.LastUnclaimedIsUnclaimed | main.go:89-100 | When no visited key has value `false`, the result is the initial link. Otherwise the result is a visited key with value `false`, and no key visited after it has value `false`. |
| Scheduler.Scan | main.go:86-101 | The chosen link is the initial link or a visited key with value `false`. The resulting map has no new keys and keeps every remaining key's value. |
| Scheduler.ScanChoosesLastUnclaimed | main.go:86-101 | The scan never stops early. The link it chooses is the last key in visiting order whose value is `false`, never a key being crawled. |
| Scheduler.ScanAllUnclaimed | main.go:86-101 | When no key is being crawled, the scan evicts nothing and chooses the last key visited. |
| Scheduler.ScanEvictsChosenLink | main.go:89-96 | The in-loop eviction deletes the link chosen so far, not the claimed key being skipped. |
| Scheduler.AddChildren | main.go:136-141 | Adding children keeps every old key, and every child ends up present with value `false`. |
| Scheduler.AddChildrenContents | main.go:136-141 | After the children are added, the keys are the old keys plus the children. Children have value `false`, and other keys keep their values. |
| Scheduler.AfterWorker | main.go:106-143 | After a worker, its own link is gone, even when it was among its children. Every other child is present with value `false`. Every other key keeps its presence and value. On an error or a skip, the only change is the removal of the link. A map with no claimed key stays so. |
| Scheduler.Session.constructor | main.go:41-70 | The initial state is exactly `{target ↦ false}`. The seed and the directory must be non-empty. |
| Scheduler.Session.SelectLink | main.go:86-101 | The loop returns the scan's choice and leaves the map the scan defines, including its in-loop evictions. |
| Scheduler.Session.Worker | main.go:106-143 | The worker marks its link, crawls it, adds its children as `false` and evicts its link. Its result is `crawl`'s, and the new map is `AfterWorker` of the old one. |
| Scheduler.Session.Step | main.go:72-146 | A quit leaves the map unchanged. A tick on an empty map completes with no dispatch. Otherwise the chosen link is a real key, namely the last one visited, and the map moves to `AfterWorker`. Between ticks no key is claimed and no key is empty. |
| Scheduler.Session.Serve | main.go:72-147 | The loop dispatches a worker on every tick until a quit or an empty map ends it, and keeps the state invariant throughout. A ghost trace of maps, starting at the old map and ending at the new one, ties each result to its tick: a quit leaves the map unchanged, `Completed` comes only from an empty map, and a dispatch crawls a key of the map with that tick's collaborators and moves the map to `AfterWorker`. A result is `Interrupted` exactly when its event is a quit. Every result before the last is a dispatch. When the loop ends by completing, the map is empty. |
| Scheduler.Enumerate | main.go:89 | Produces a visiting order that lists every key of the map exactly once. |

## Left out

- Logging with `fmt.Printf` is not modelled.
- Flag parsing is not modelled. The two `log.Fatal` checks become the preconditions of `Session`'s constructor. The `concurrency` and `interval` flags have no effect in the model.
- Signal delivery, the ticker period and context cancellation are left out. A quit is an `Event` at a tick boundary.
- Goroutines, the read-write lock, the wait group and the semaphore are left out. The worker runs to completion within its tick, which is what `waitGroup.Wait()` enforces.
- The model assumes `-concurrency` is at least 1. Then semaphore acquisition always succeeds, because it can fail only after cancellation, and cancellation happens only on quit. With a value of 0 or less, `semaphore.NewWeighted` (main.go:64) holds no token, `Acquire` (main.go:110) blocks, and `waitGroup.Wait()` (main.go:146) never returns on the first tick; that hang is not modelled.
- Scheduler.ScanEvictsChosenLink: the in-scan skip branch (main.go:90-96) is modelled as deleting `link` from the map. In the real program `evict` takes the write lock (main.go:152) while the scan still holds the read lock (main.go:88), so the branch would deadlock rather than delete. The branch is unreachable between ticks (`Scheduler.ScanAllUnclaimed`).
- I/O is abstracted into oracles: `url.Parse`, `os.Stat`, `fetchUrl` (client.go), `writeToFile` (writer.go) and `filepath.Join`.
  - These are the fields of `Crawler.Env`, and each `Event.Tick` carries the answers for that tick.
  - Path cleaning by `filepath.Join` is not modelled.
  - A response with a status other than 200 is an empty body without an error.
  - The `log.Fatalf` calls inside client.go and writer.go are out of scope.
- Page bodies are modelled as strings of characters. The UTF-8 decoding done by `string(data)` is not modelled.
- The attribute name is treated as literal text in the pattern. The two attributes in use, `href` and `src`, contain no regular-expression metacharacters.
- Parser.FindChildrenLinks: has no error result. The source returns a nil error on every path, so the extraction-error branch of `crawl` (crawler.go:52-57) is dead and is not modelled.
- Deduplication and termination are not claimed, because the source does not promise them. A finished link is evicted and can be re-added as a child, and the seed is always refetched.
- The package name of parser.go (`crawler` rather than `main`) is a build matter and does not change behaviour.
