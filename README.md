# anti_scraping: a Dafny model of the crawler and its read API

The repository is one Node.js server, `antiscrape.js`. At start-up it crawls
24 pages of an Amazon search for laptops, keeps the result items that have a
title and a price, writes each page's items to the MySQL table `randomdel` in
one batch insert, and, after each page that loads, waits 2 to 5 seconds. It also serves the
stored rows ten at a time on `GET /api/randomdel`, behind an HTTP Basic
authentication check.

This project models, in Dafny, the parts of that file that compute something:

- `crawl.dfy` (module `Crawl`): the `scrapeAmazon` loop as an imperative
  method. Each page's fetch-and-parse outcome and each random draw are inputs.
  The method returns the trace of its effects: fetch, insert, wait, log error.
  Lemmas state what the trace contains and in what order.
- `extract.dfy` (module `Extract`): the record filter inside the loop (the
  `.each` callback). It is a method with a loop, proved against a
  filter-and-map specification, with lemmas about which items are kept and in
  what order.
- `pacing.dfy` (module `Pacing`): `getRandomDelay`. `Math.random()` is a `Draw`, a real
  `u` with `0 <= u < 1`.
- `read_api.dfy` (module `ReadApi`): the page default, the offset, the
  `totalPages` ceiling, the handler's replies, and a sequence model of the
  table, used to state what clients read back.
- `auth.dfy` (module `BasicAuth`): the `basicAuth` decision. The header is
  meant to follow the Basic scheme of section 2 of RFC 7617, with a base64
  payload (section 4 of RFC 4648).
- `strings.dfy` (module `Strings`): the JavaScript string operations these rely
  on: `split`, `trim` and the decimal text of a page number.
- `seqs.dfy` (module `Seqs`): generic filter-and-map facts.
- `basics.dfy` (module `Basics`): `Option`, for JavaScript's `undefined`.

Where the code and the intended design differ, the model follows the code:

- After a failed fetch the crawler does not wait. The wait is inside the `try`.
- A page whose fetch and parse succeed always gets an insert call, even when its batch
  is empty.
- The `url` test can never fail. A missing `href` is concatenated as the text
  "undefined", so `url` always starts with the origin.
- The authentication scheme word is never checked.
- A configured user name or password that contains `:` can never match.
- With `BASIC_AUTH_PASSWORD` unset, a request passes exactly when its decoded
  credential is the user name alone, with no `:`, because
  `undefined === undefined`.

## Model

| member | source | states |
|---|---|---|
| Strings.Split | antiscrape.js:27 | `split` on one character: at least one field; no field holds the separator; the fields joined by the separator give back the input; more than one field iff the separator occurs |
| Strings.SplitJoin | antiscrape.js:27 | splitting a join of separator-free fields gives back exactly those fields |
| Strings.NoSeparatorIsOneField | antiscrape.js:25 | a string without the separator splits into itself alone (a header with no space has no second word) |
| Strings.SplitPrefix | antiscrape.js:25 | a separator-free head, the separator and a tail split into the head followed by the tail's fields |
| Strings.TrimStartSpec | antiscrape.js:77-79 | the result is the suffix of the input after its leading whitespace, and it does not start with whitespace |
| Strings.TrimEndSpec | antiscrape.js:77-79 | the result is the prefix of the input before its trailing whitespace, and it does not end with whitespace |
| Strings.TrimIsInnerText | antiscrape.js:77-79 | `trim()` returns the contiguous text between the leading and trailing whitespace, with no whitespace at either end |
| Strings.TrimEmptyIff | antiscrape.js:77-82 | a trimmed text is empty iff the input is all whitespace |
| Strings.DecimalDenotes | antiscrape.js:66 | `${page}` is a non-empty string of digits, with no leading zero, that denotes the page number |
| Strings.DecimalInjective | antiscrape.js:66 | different numbers have different decimal texts |
| BasicAuth.Decide | antiscrape.js:18-34 | 401 "Authorization header is missing" iff the header is absent or empty; a throw iff a non-empty header has no space; any other 401 says "Invalid username or password" |
| BasicAuth.FirstTwoFields | antiscrape.js:27-29 | for a user name and password without `:`, the first two `:`-fields equal user and password iff the decoded text is `user:password`, possibly followed by `:` and anything |
| BasicAuth.AcceptsIff | antiscrape.js:18-34 | with both credentials configured and free of `:`, a request passes iff its header has a second word whose decoding is `user:password`, possibly followed by `:` and anything; any other text after the password is rejected |
| BasicAuth.SchemeIgnored | antiscrape.js:25 | any two space-free scheme words in front of the same rest lead to the same decision |
| BasicAuth.AcceptsWellFormedHeader | antiscrape.js:25-30 | for a user name and password without `:`, `Basic <token>`, with a space-free token decoding to the configured `user:password`, is let through |
| BasicAuth.ColonPasswordNeverMatches | antiscrape.js:27-29 | a configured password containing `:` is never matched, whatever the header |
| BasicAuth.ColonUsernameNeverMatches | antiscrape.js:27-29 | a configured user name containing `:` is never matched, whatever the header |
| BasicAuth.UnsetUsernameRejectsAll | antiscrape.js:27-29 | with `BASIC_AUTH_USERNAME` unset no request is let through |
| BasicAuth.UnsetPasswordAcceptsBareUser | antiscrape.js:27-29 | with `BASIC_AUTH_PASSWORD` unset and a user name without `:`, a `Basic` header whose token decodes to the user name alone is let through |
| BasicAuth.UnsetPasswordIff | antiscrape.js:25-33 | with `BASIC_AUTH_PASSWORD` unset and a `:`-free user name, a request passes iff its header has a second word that decodes to exactly the user name |
| Pacing.Slice | antiscrape.js:56 | `Math.floor(u * width)` for `0 <= u < 1` lies in `[0, width)` |
| Pacing.RandomDelay | antiscrape.js:55-57 | `getRandomDelay(min, max)` lies in `[min, max]`, both ends included |
| Pacing.SliceInterval | antiscrape.js:56 | outcome `k` is drawn exactly when `u` is in `[k/width, (k+1)/width)`, so every outcome has the same share of `[0, 1)` |
| Pacing.EveryDelayReachable | antiscrape.js:55-57 | every integer in `[min, max]` is returned for some draw |
| Extract.AbsoluteUrlShape | antiscrape.js:80 | the URL always starts with the origin, followed by the `href`, or by "undefined" when there is none |
| Extract.KeptIsWellFormed | antiscrape.js:76-85 | a kept record has a non-empty title and price that do not start with whitespace, and an absolute URL |
| Extract.UrlTestNeverFails | antiscrape.js:80-82 | an item is kept iff its title text and its price text each have a non-whitespace character; the url test and the rating play no part |
| Extract.KeptRecordsInOrder | antiscrape.js:76-85 | the batch has one record per kept item, the trimmed `[title, price, rating, url]` of that item, in document order, and each is well formed |
| Extract.CollectProducts | antiscrape.js:74-85 | the `.each` loop pushes exactly the kept records, in order |
| Crawl.PageUrlDenotes | antiscrape.js:62-66 | the URL of page `n` is the fixed search URL followed by digits that denote `n` |
| Crawl.PageUrlInjective | antiscrape.js:66 | different pages have different URLs |
| Crawl.ScrapeAmazon | antiscrape.js:60-108 | the loop's trace is, page by page from 1 to 24: fetch; then log error on failure; or insert of the page's batch and then a wait on success |
| Crawl.FetchView | antiscrape.js:64-67 | one iteration fetches its own page exactly once, whatever the outcome |
| Crawl.InsertView | antiscrape.js:87-89 | one iteration inserts its page once if the page loaded, and not at all if it failed |
| Crawl.FailureView | antiscrape.js:104-106 | one iteration logs its page once if it failed, and not at all if it loaded |
| Crawl.DelayView | antiscrape.js:97-102 | one iteration waits once, for `getRandomDelay(2000, 5000)` of its draw, if the page loaded; a failed page has no wait |
| Crawl.TraceView | antiscrape.js:61-107 | any selection from the whole trace is the concatenation of the selections from each iteration, in page order |
| Crawl.FetchesEveryPageInOrder | antiscrape.js:61-67 | the fetched pages are exactly 1, 2, ..., n in ascending order, whatever each page yields |
| Crawl.FetchesPageUrls | antiscrape.js:62-67 | every fetch the loop makes goes to the URL of its own page, the search URL followed by the page number |
| Crawl.PagesWhereSpec | antiscrape.js:61-106 | the reference list of loaded (or failed) pages holds each such page of `1..n` once, in increasing order, and nothing else |
| Crawl.InsertsOnLoadedPages | antiscrape.js:87-89 | the pages inserted are exactly the loaded pages, each once, in page order, even when a batch is empty |
| Crawl.FailuresLogged | antiscrape.js:104-106 | the pages logged as failed are exactly the pages whose fetch or parse threw, each once, in page order |
| Crawl.WaitsFollowSuccesses | antiscrape.js:97-106 | the waits are, in order, `getRandomDelay(2000, 5000)` of the draw of each loaded page, so there are as many waits as loaded pages and a failed page has no wait |
| Crawl.DelaysBounded | antiscrape.js:98-102 | every wait is between 2000 and 5000 ms |
| Crawl.InsertedBatches | antiscrape.js:74-89 | every insert is for a loaded page and carries that page's kept records |
| Crawl.FailureMovesOnAtOnce | antiscrape.js:64-106 | the action after a failure on page `p` is the fetch of page `p + 1`, with no wait in between |
| ReadApi.RequestedPage | antiscrape.js:112 | the page is never 0; `NaN` and 0 give 1; any other value, negatives included, is used as it is |
| ReadApi.Offset | antiscrape.js:113-114 | the offset is a multiple of 10 whose tenth is `page - 1`, and it is negative iff the page is below 1 |
| ReadApi.TotalPages | antiscrape.js:129-130 | the page count is 0 iff there are no rows; otherwise `(pages - 1) * 10 < totalItems <= pages * 10` |
| ReadApi.TotalPagesUnique | antiscrape.js:130 | only one number satisfies that ceiling property |
| ReadApi.ListHandler | antiscrape.js:117-138 | a failed read gives 500 "Failed to retrieve products"; a failed count gives 500 "Failed to count products"; otherwise the reply holds the requested page, the count, its page total and the rows read |
| ReadApi.Route | antiscrape.js:111-138 | a request that `basicAuth` lets through gets the handler's reply; a 401 decision becomes a 401 reply with the same message; a throw becomes a 500; so data is served only to requests let through |
| ReadApi.NoHeaderNoData | antiscrape.js:21-22 | a request without an `Authorization` header gets 401 "Authorization header is missing" and no data |
| ReadApi.Select | antiscrape.js:116-117 | LIMIT/OFFSET on the table fails iff the offset is negative; otherwise it returns the at most `limit` rows that start at the offset |
| ReadApi.NegativePageFails | antiscrape.js:112-119 | a negative page number ends in a 500 reply |
| ReadApi.PageRows | antiscrape.js:112-117 | page `k >= 1` holds the rows from position `(k - 1) * 10` up to `k * 10`, cut off at the end of the table |
| ReadApi.PagesUpToPrefix | antiscrape.js:113-117 | pages 1 to `k`, read in order, give the first `10k` rows of the table |
| ReadApi.PagesCoverTable | antiscrape.js:112-130 | pages 1 to `totalPages`, read in order, give back the whole table, every row once |
| ReadApi.PageEmptyIff | antiscrape.js:112-130 | a page number of 1 or more gets rows iff it is at most `totalPages` |
| ReadApi.TenRowsPageTwo | antiscrape.js:112-136 | with ten rows stored, page 2 has no data and `totalPages` is 1 |
| ReadApi.Append | antiscrape.js:88-89 | a batch insert adds one row per record, in order, each with the next id |
| ReadApi.InsertedRecordReadBack | antiscrape.js:88-136 | a record written by a batch insert is read back with the same four fields, on a page and at a position fixed by where it was stored |

## Left out

- Network I/O (`axios.get` and its User-Agent header) is left out. Each page's fetch-and-parse result is an input, `PageOutcome`. A transport error, an error status and a parse exception are the same `Failed` outcome, as they are for the `catch`. `axios.get` has no timeout by default, so a fetch that never settles would stall the loop; `PageOutcome` has no such case, and the lemmas about pages 1 to 24 assume every fetch settles.
- HTML parsing and selector evaluation by cheerio are left out. Each result node arrives as the texts the four lookups return, and an absent `href` is `None`.
- MySQL is left out: the connection, SQL execution, and the asynchronous `db.query` callbacks. The insert is not awaited, so its success or failure cannot affect the loop. The model records the insert call and not its result, and the callback's log lines are not modelled. The order in which inserts complete is not modelled either.
- ReadApi.Select: reading a table as a slice in insertion order is an assumption about the store. `SELECT` without `ORDER BY` promises no order. A negative offset is taken to be an SQL error.
- ReadApi.Append: auto-increment ids are assumed to continue from the table's length, with no gaps.
- `Math.random()` is a real number in `[0, 1)`. Floating-point rounding of `u * (max - min + 1)` is not modelled.
- The wait itself (`setTimeout` and `await`) is modelled only as the `Wait` action.
- Pacing.RandomDelay: it requires `min <= max`. The source does not check this, but its only call passes (2000, 5000).
- `Buffer.from(..., 'base64').toString('ascii')` is the function parameter `decode`. Base64 and ASCII decoding are not modelled.
- `parseInt` is not modelled. Its result is an input: an integer, or `None` for `NaN`. Query parameters given as arrays, hexadecimal prefixes and values too large to be exact are left out with it.
- The thrown `TypeError` on a header without a space is modelled as `Crashed`/`InternalError`. The text of Express's default error page is not modelled.
- Console output other than the `catch`'s error log is left out: the "Waiting for ..." message of line 99 and the insert callback's success and error lines. The `catch`'s `console.error` is the `LogError` action. Dotenv, Express routing and server start-up are left out too. The crawl and the listener start without any ordering between them, and this is left out as well.
