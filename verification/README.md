# goscrape: a verified model of the crawler's admission step and dispatcher

goscrape is a small same-domain web crawler (`main.go`). A dispatcher loop keeps a FIFO
frontier of URLs seeded with `https://<domain>`. Four workers take URLs from it. Each
worker fetches the page, strips the query from every anchor's href, and admits the hrefs
that are new and in scope into a shared visited map. It then reports the admitted hrefs
back to the dispatcher as one batch.

This project models the two sequential pieces of that program in Dafny:

- `Scrape` models `ProcessHref`. It covers resolving the href a worker was handed, the
  admission loop over the fetched page's anchors, and the rule that only non-empty
  batches are reported. The visited map `urls` and the counter `uniqueUrls` are package
  variables in Go. Here they are passed in and handed back.
- `Dispatcher` models the loop of `main`. The outcome of each iteration's channel race
  is an input event: `Sent` (a worker took the popped URL) or `Received(batch)` (a
  report arrived first).
- `GoStrings` states the Go `strings` operations the code uses (`HasPrefix`,
  `Contains`, `Split(s, "?")[0]`) on `seq<char>`.
- `Seqs` and `Wrappers` hold small helpers: subsequences, duplicates, and `Option`.

Behaviour of the code that the model keeps, and that a reader might not expect:

- The domain test (main.go:73) runs on the stripped href before it is resolved. So a
  root-relative `/about` is rejected unless the path itself contains the domain
  (`Scrape.RootRelativeNeedsDomainInPath`).
- The visited set stores the stripped, unresolved href (main.go:78). `/x` and
  `https://<domain>/x` are therefore two different entries.
- The seed URL is never stored in `urls`. A page linking back to the domain root gets
  it admitted and fetched again (`Dispatcher.SeedIsAdmissible`).
- When a batch wins the race in the offering regime, the head popped at main.go:131 is
  overwritten on the next iteration. It is never put back
  (`Dispatcher.LosslessIff`, `Dispatcher.HeadDroppedByBatch`). A design that keeps
  the popped item at the head would behave differently. The model follows the code.
- The regime test is `len(next) == 0`, not an empty frontier. The two agree because the
  frontier never holds an empty string (`Dispatcher.StarvesOnlyWhenEmpty`).

## Model

| member | source | states |
|---|---|---|
| GoStrings.BeforeQuery | main.go:71 | the result is the longest prefix of the href that holds no `?`: a prefix, free of `?`, and either all of the href or followed by `?` in it |
| GoStrings.BeforeQueryUnique | main.go:71 | those three facts determine the stripped href uniquely |
| GoStrings.BeforeQueryIdempotent | main.go:71 | stripping the query twice gives the same string as stripping it once |
| GoStrings.ContainsAtSomeOffset | main.go:73 | the recursive `Contains` used for the domain test holds exactly when some offset of the href starts with the domain |
| Scrape.Resolve | main.go:19-25 | an empty href requests nothing; a root-relative href becomes `https://` + domain + href (prefix, suffix and length), which always contains the domain; any other href is requested unchanged |
| Scrape.ResolveIdempotent | main.go:23-25 | resolving a resolved URL changes nothing |
| Scrape.CandidateIff | main.go:68-77 | an anchor passes the attribute, domain and prefix tests exactly when it has an href whose stripped form is in scope, and what passes is that stripped form |
| Scrape.CandidatesSpec | main.go:66-77 | the page's candidates are exactly the stripped hrefs some anchor yields, and each is in scope: no `?`, contains the domain, starts with `/` or `http` |
| Scrape.AdmitSpec | main.go:73-86 | admission yields no duplicates and nothing already visited; an href is admitted iff it is a candidate not visited before; candidates' order is kept |
| Scrape.AdmitConcat | main.go:73-79 | admitting two pages one after the other, the second against the visited set the first left, equals admitting all their candidates at once, so an href found on several pages is admitted once |
| Scrape.QueryVariantsAdmittedOnce | main.go:71-78 | any non-empty set of anchors whose hrefs strip to the same in-scope href admits that href once, and not at all when it was already visited |
| Scrape.RootRelativeNeedsDomainInPath | main.go:73-77 | a root-relative href is admitted only if the path itself contains the domain |
| Scrape.AdmitAnchors | main.go:63-88 | the loop's batch is the specification's admission of the page's candidates: every element in scope, no duplicates, none previously visited, every unvisited candidate included, document order kept; `urls` becomes old `urls` plus the batch; `uniqueUrls` grows by the batch length |
| Scrape.ProcessHref | main.go:18-97 | the request is the resolved href, and none for an empty href; a report is sent iff the href is non-empty, the reply is status 200 with a parsed document, and admission yields a non-empty batch; the report's hrefs are in scope, distinct and new; the visited set and counter grow by exactly the report |
| Dispatcher.FifoOrder | main.go:126-148 | the frontier is a FIFO queue: the initial items followed by all received batches, in arrival order, equal the popped heads followed by the pending frontier |
| Dispatcher.DispatchedInOrder | main.go:129-147 | the URLs sent to workers are popped heads, in popping order, and none is empty |
| Dispatcher.LosslessIff | main.go:129-147 | every popped head is sent iff no batch ever arrives while the frontier is non-empty; otherwise the popped head is lost |
| Dispatcher.StarvesOnlyWhenEmpty | main.go:129-141 | when all batches hold in-scope hrefs, as reports do, the frontier never holds an empty string, and the loop starves exactly when the frontier is empty |
| Dispatcher.SeedIsAdmissible | main.go:126 | the seed `https://` + domain passes every admission test, so nothing stops a page from re-admitting it |
| Dispatcher.HeadDroppedByBatch | main.go:129-147 | if a batch wins the race against an offered head and no later batch brings that URL back, the head is never handed to a worker |
| Dispatcher.Run | main.go:126-148 | running the loop from `["https://" + domain]` over the events sends exactly the specification's dispatched URLs and leaves the specification's frontier; what went in equals what was popped followed by that frontier; the sent URLs are popped heads in order |

## Left out

- The HTTP fetch, the status-code read and closing the body (main.go:28-44) are network I/O. Their outcome is the `Response` parameter of `ProcessHref`: a transport error, or a status with the parsed anchors.
- HTML parsing with goquery and `doc.Find("a")` (main.go:47-56) is a foreign library. Its output is the sequence of optional href attributes, in document order.
- zerolog logging (main.go:31, 38-42, 50-52, 58-61, 81-84, 90-93, 106-109, 114) is observability only.
- `StartScrape`, the four goroutines and the channels (main.go:100-124, 139-147) are concurrency. Each loop iteration takes the winner of the channel race as an input event. A worker's report is modelled by `ProcessHref`'s `report` result.
- Admission is sequential. The race between two workers on `urls`' check-then-store, and the unsynchronised `uniqueUrls++` (main.go:73, 78-79), are not modelled.
- The infinite dispatcher loop (main.go:128) is run for a finite number of events. The permanent stall on an empty frontier with no worker busy (main.go:140) is a liveness property and is not modelled.
- `uniqueUrls` is an unbounded integer. Go's `int` is as wide as the platform word (32 or 64 bits), and neither width overflows at any realistic crawl size.
- Strings are `seq<char>`, while Go strings are byte sequences. Prefix tests, substring tests and splitting on `?` agree on valid UTF-8. `Scrape.Resolve`'s length clause counts characters, where Go's `len` counts bytes.
- Dispatcher events are not constrained by which workers hold a URL. A report can never win the race before the seed is sent (main.go:96, 102), and main.go:95 never sends an empty report, but the model admits such runs. Every dispatcher property here holds for all feasible runs, so it holds for the runs the program can produce.
- The domain is fixed to `amazon.com` in `main` (main.go:120). The model takes it as a parameter `parent`.
