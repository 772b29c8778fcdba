# Wayback Machine scraper: a Dafny model of the middleware and the mirror spider

The wayback-machine-scraper mirrors a web site as the Internet Archive holds
it over a time window. It is a Scrapy crawler with two parts.

`WaybackMachineMiddleware` sits between the spider and the network:

- It turns every ordinary request into an index (CDX) query about the URL.
- It reads the index listing and picks the captures that matter for the
  window: the last capture at or before the start, then the captures inside
  the window, skipping consecutive captures with the same content digest.
- It enqueues one request per picked capture, aimed at the raw archived copy
  (`https://web.archive.org/web/<timestamp>id_/<original>`).
- It hands each archived copy back to the spider under the original URL.
- It retries a server error at most three times.

`MirrorSpider` does the rest:

- It builds its start URLs and allowed domains from the command line.
- It passes only archived copies to its rules.
- It saves each copy under `<directory>/<host>/<path parts>/<timestamp>.snapshot`.

The model has these modules:

| module | what it holds |
|---|---|
| `Wrappers` | `Option` and `Result` |
| `Text` | the pieces of Python's `str` the code relies on: `isdigit`, `int`/`str` on decimals, `in`, `split`, `strip('/')` |
| `Timestamps` | the `%Y%m%d%H%M%S` format; a proleptic Gregorian calendar for `timestamp()`; `parse_time` and `set_time_range` as functions |
| `Selection` | `filter_snapshots` as a fold (`Scan`) over a row view of the listing; its properties as lemmas on the snapshots |
| `Http` | requests, responses and the metadata keys the middleware reads and writes, as datatypes |
| `Mediation` | `process_request`, `build_cdx_request`, `build_dict`, `build_snapshot_requests` and `process_response` as functions; their properties as lemmas |
| `Middleware` | the middleware object: a class holding the configured window, whose methods are the source's loops, each proved equal to the function it implements |
| `Spider` | the spider object: a class whose constructor runs the two loops of `__init__`; the `parse_start_url` and `save_page` checks |
| `Pipeline` | how the two parts meet: answers to index queries are never parsed or saved; an archived copy is saved under its archive timestamp |

Instants are whole seconds since 1970-01-01T00:00:00Z. Python raises
exceptions where the model returns `None` or a `Failure`, at the handler that
catches them. The scheduler's queue becomes the `enqueue` part of the
`Outcome` returned for a response.

Some behaviours of the code are easy to misread; the model follows the code:

- A lone capture before the window is not returned. The pending anchor is
  released only when a later valid capture lies past the window start
  (middleware.py:227-236). See `Selection.ScenarioLoneEarlyCapture`.
- A snapshot fetch that keeps failing with a server error is sent four
  times: the first attempt plus three retries (middleware.py:83-92). See
  `Mediation.RetriesAreBounded`.
- Every status of 300 or more is dropped from the listing, including 4xx and
  5xx captures (middleware.py:219-225).
- The index query asks about the text after the first `://` up to its first
  `:`, with slashes stripped at both ends (middleware.py:130-136). A port is
  dropped, and so is everything after any other colon; a query or fragment
  survives only when it holds no colon. See `Mediation.BaseUrlHostPart` and
  `Mediation.BaseUrlDropsAfterColon`.
- A setting of ten to thirteen digits, such as `YYYYMMDDHH`, is read as epoch
  seconds, not as a truncated timestamp (middleware.py:42-43). See
  `Timestamps.MidLengthIsEpoch`.

The middleware's handlers appear twice. `Mediation` states each as a
function of its inputs, which the lemmas reason about. The class
`Middleware.WaybackMachineMiddleware` holds the source's methods, with the
source's loops, and each method's contract says it returns what the function
gives. `ProcessResponse` and `BuildSnapshotRequests` hold no loop of their
own: they are the class's entry points, which call the loop methods
`BuildDicts`, `FilterSnapshots` and `RequestsOf`.

## Model

| member | source | states |
|---|---|---|
| Middleware.WaybackMachineMiddleware.FilterSnapshots | wayback_machine_scraper/middleware.py:207-247 | the loop with its `continue`s and `break` returns exactly `Selected` of its input for the configured window |
| Middleware.WaybackMachineMiddleware.BuildDict | wayback_machine_scraper/middleware.py:172-183 | the loop over the header returns the snapshot `ToSnapshot` describes, and fails on a row shorter than the header |
| Middleware.WaybackMachineMiddleware.BuildDicts | wayback_machine_scraper/middleware.py:185 | mapping `build_dict` over the rows gives `ToSnapshots`; one failing row fails the whole listing |
| Middleware.WaybackMachineMiddleware.RequestsOf | wayback_machine_scraper/middleware.py:187-205 | the loop over the selected snapshots builds `RequestsFor` them, skipping a snapshot without an `original` column |
| Middleware.WaybackMachineMiddleware.BuildSnapshotRequests | wayback_machine_scraper/middleware.py:159-205 | unparsable JSON and any value of length below 2 give no request; another non-listing value raises; a listing is parsed, selected from, then turned into requests (`SnapshotRequests`) |
| Middleware.WaybackMachineMiddleware.ProcessResponse | wayback_machine_scraper/middleware.py:75-124 | the handler returns `HandleResponse`: the error branch with its retry, the index branch, then URL restoration |
| Middleware.WaybackMachineMiddleware.SetTimeRange | wayback_machine_scraper/middleware.py:34-55 | the window becomes the first two parsed values; on a parse failure the field is left unchanged and the error is reported |
| Middleware.WaybackMachineMiddleware.Create | wayback_machine_scraper/middleware.py:23-28 | a missing or falsy setting is `NotConfigured`; otherwise the window is `ParseTimeRange` of the setting or its error |
| Selection.SelectedIsSubsequence | wayback_machine_scraper/middleware.py:212-245 | the result is the input rows at strictly increasing indices: input order, no row twice, and each row has a parsed time and a numeric status below 300 |
| Selection.SelectedDigestsDiffer | wayback_machine_scraper/middleware.py:229-245 | no two consecutive results share a digest, including the released anchor and the row after it |
| Selection.SelectedWithinWindow | wayback_machine_scraper/middleware.py:227-239 | every result after the first lies in [start, end]; the first lies in the window or is the last valid row before the crossing row |
| Selection.SelectedStartsWithAnchor | wayback_machine_scraper/middleware.py:227-233 | when every valid row before the first valid row after the start lies strictly before the start, and there is at least one, the first result is the last of them |
| Selection.SelectedOnlyAnchor | wayback_machine_scraper/middleware.py:227-239 | when every valid row before the first valid row after the start lies strictly before the start, there is at least one, and that first row after the start already lies past the end, the result is exactly the last of those earlier rows |
| Selection.SelectedStopsAtBreak | wayback_machine_scraper/middleware.py:238-239 | no row at or after the first valid row past the end (and not before the start) is returned |
| Selection.SelectedEmptyBeforeWindow | wayback_machine_scraper/middleware.py:227-236 | when every valid row lies before the start, the result is empty |
| Selection.SelectedCollapsesOnlyRepeats | wayback_machine_scraper/middleware.py:241-245 | every valid row inside the window before the break is returned, unless it repeats the digest of the last row returned before it |
| Selection.StoppedStays | wayback_machine_scraper/middleware.py:238-239 | after the `break`, later rows change nothing |
| Selection.ScenarioBoundaryAnchor | wayback_machine_scraper/middleware.py:207-247 | captures at T0 < T5 < T10 with digests A, A, B and window [T5, T10] give the captures at T5 and T10 |
| Selection.ScenarioLoneEarlyCapture | wayback_machine_scraper/middleware.py:227-236 | a single capture before the window gives an empty result |
| Selection.ScenarioRedirect | wayback_machine_scraper/middleware.py:219-225 | a 301 capture is never returned, whatever the window |
| Mediation.ProcessRequest | wayback_machine_scraper/middleware.py:57-73 | pass-through exactly for the robots.txt URL, a truthy `wayback_machine_url` or the index-query tag; otherwise an index query tagged with the request, marked as an index query, exempt from the duplicate filter, whose `url` parameter is the encoded `BaseUrl` of the request's URL |
| Mediation.CdxRequest | wayback_machine_scraper/middleware.py:126-154 | the index query's `url` parameter is the encoded base URL; it is tagged with the original request and the index-query flag, handles error statuses and is exempt from the duplicate filter |
| Mediation.CdxUrlReadsBack | wayback_machine_scraper/middleware.py:139-141 | the `url` parameter read back from a built index query URL is exactly the encoded URL it was built for |
| Mediation.BaseUrl | wayback_machine_scraper/middleware.py:129-136 | a rewritten URL has no slash at either end; with a scheme it is non-empty and holds no `:` |
| Mediation.BaseUrlHostPart | wayback_machine_scraper/middleware.py:129-136 | without `://`, the URL with slashes stripped; with it, the text after the first `://` up to its first `:` (or the end), slashes stripped, or the whole URL when that is empty |
| Mediation.BeforeColon | wayback_machine_scraper/middleware.py:132 | `split(':', 1)[0]` is the prefix without a colon that ends at the first colon or at the end |
| Mediation.BaseUrlDropsAfterColon | wayback_machine_scraper/middleware.py:130-134 | for a scheme without `:`, `<scheme>://<host>:<tail>` is asked about as `host` (colon-free, no slash at either end): a port is dropped with the path after it, and so is the rest of a path or query after a colon |
| Mediation.Parsed | wayback_machine_scraper/middleware.py:175-181 | the `datetime` entry is present exactly when `strptime` accepts the timestamp |
| Mediation.ToSnapshots | wayback_machine_scraper/middleware.py:185 | the listing parses exactly when every row does, one snapshot per row, in order |
| Mediation.RecordLookup | wayback_machine_scraper/middleware.py:174-182 | a header key maps to the column of its last occurrence |
| Mediation.RecordKeys | wayback_machine_scraper/middleware.py:174-182 | the dictionary's keys are exactly the header's keys |
| Mediation.SnapshotColumns | wayback_machine_scraper/middleware.py:172-183 | with the three columns present once, the snapshot carries those columns, and a parsed time exactly when the timestamp parses |
| Mediation.MissingColumnFails | wayback_machine_scraper/middleware.py:212-245 | a header without `timestamp`, `statuscode` or `digest` makes the listing fail at once; the code fails only when a row reaches the missing read (see `Mediation.ToSnapshot` under Left out) |
| Mediation.ToSnapshotTime | wayback_machine_scraper/middleware.py:175-178 | a snapshot's capture time is its `timestamp` column, parsed |
| Mediation.SnapshotUrlShape | wayback_machine_scraper/middleware.py:21 | a snapshot URL is the archive prefix followed by `<timestamp>id_/<original>` |
| Mediation.SnapshotUrlReadsBack | wayback_machine_scraper/middleware.py:21 | for a timestamp without `i`, the capture timestamp and the original URL are read back out of the archive URL built from them |
| Mediation.RequestsForTagged | wayback_machine_scraper/middleware.py:189-200 | every built request is a copy of the original request for one selected snapshot, tagged with the original request and its own archive URL, with the error statuses handled and the duplicate filter off |
| Mediation.RequestsForAll | wayback_machine_scraper/middleware.py:189-200 | with the original request known and every row carrying `original`, the requests follow the snapshots one to one, with their URLs and capture times |
| Mediation.TaggedRequestsPassThrough | wayback_machine_scraper/middleware.py:59-66 | loop avoidance: the index query and every enqueued snapshot request pass through `process_request` unchanged |
| Mediation.RetryRule | wayback_machine_scraper/middleware.py:79-92 | a retry happens exactly for a non-index response of status 500 or more with fewer than 3 retries; it is the same request, duplicate filter off, count raised by one, other metadata unchanged |
| Mediation.Retried | wayback_machine_scraper/middleware.py:85-91 | n retries keep the URL and raise the count by n |
| Mediation.RetriedKeepsTags | wayback_machine_scraper/middleware.py:88-90 | retrying keeps the index-query tag, the archive URL and the original request |
| Mediation.RetriesAreBounded | wayback_machine_scraper/middleware.py:83-92 | a fresh request that keeps failing with 5xx is retried three times; the fourth failure is handed on |
| Mediation.IndexResponseAnswered | wayback_machine_scraper/middleware.py:95-113 | a parsed index response becomes a 404 at the original URL when no request results, else a 200 there with the requests enqueued, whatever its own status |
| Mediation.EmptyIndexIsNotFound | wayback_machine_scraper/middleware.py:100-103 | a listing with only a header gives a 404 at the original URL and enqueues nothing |
| Mediation.EnqueuedFromListing | wayback_machine_scraper/middleware.py:100-113 | whatever is enqueued comes from a parsed listing: the requests for its selected rows |
| Mediation.OnlyIndexResponsesEnqueue | wayback_machine_scraper/middleware.py:95-113 | only responses to index queries enqueue anything |
| Mediation.SnapshotResponseRestored | wayback_machine_scraper/middleware.py:79-122 | a successful snapshot response comes back at the original URL with its status and body; an error response keeps the archive URL |
| Mediation.IdentityRestored | wayback_machine_scraper/middleware.py:119-122 | end to end: an enqueued snapshot request is let through, and a successful answer reaches the spider at the original URL |
| Mediation.EnqueuedWithinWindow | wayback_machine_scraper/middleware.py:186-200 | with an `original` column, every enqueued request after the first carries a capture time inside the window |
| Timestamps.ParseTimestamp | wayback_machine_scraper/middleware.py:177 | an accepted timestamp is fourteen ASCII digits making a valid date and time |
| Timestamps.RightPadZeros | wayback_machine_scraper/middleware.py:44 | the value's digits followed by zeros up to fourteen characters; a value of fourteen or more characters is unchanged, as `zfill` leaves it |
| Timestamps.ParseTimeInt | wayback_machine_scraper/middleware.py:40-47 | a value strictly between 10^8 and 10^13 is itself; a negative value is rejected; any other accepted value is the instant of a valid date and time |
| Timestamps.ParseTime | wayback_machine_scraper/middleware.py:38-50 | a string is accepted only when it is all ASCII digits (the other spellings `int()` accepts are listed under Left out) |
| Timestamps.StringMatchesInteger | wayback_machine_scraper/middleware.py:41 | a setting spelled as the digits of a number is read exactly as that number, through `int(str(time))` |
| Timestamps.ParseAll | wayback_machine_scraper/middleware.py:52 | one `parse_time` result per configured value, in order |
| Timestamps.ScalarIsPointWindow | wayback_machine_scraper/middleware.py:35-36 | a scalar setting is the window (t, t), or an invalid format |
| Timestamps.ListedWindow | wayback_machine_scraper/middleware.py:52-55 | a listed setting is accepted exactly when it has two or more values and all parse; the window is the first two |
| Timestamps.MidLengthIsEpoch | wayback_machine_scraper/middleware.py:42-43 | ten to thirteen digits without a leading zero are taken as epoch seconds |
| Timestamps.ShortValuesRejected | wayback_machine_scraper/middleware.py:44-45 | up to six digits never parse, because padding leaves the day as `00` |
| Timestamps.YearOnlyRejected | wayback_machine_scraper/middleware.py:44-45 | the year alone, `2020`, is rejected |
| Timestamps.DateParses | wayback_machine_scraper/middleware.py:41-47 | `YYYYMMDD` is midnight UTC of that day |
| Timestamps.FullTimestampParses | wayback_machine_scraper/middleware.py:41-47 | a fourteen-digit timestamp is read as that date and time, or rejected when it is not one |
| Timestamps.CanonicalDigits | wayback_machine_scraper/middleware.py:41 | `str(int(s)) == s` for digits without a leading zero |
| Timestamps.DaysBeforeYearClosedForm | wayback_machine_scraper/middleware.py:46-47 | the day count of the calendar has the closed Gregorian form |
| Timestamps.EpochOrigin | wayback_machine_scraper/middleware.py:46-47 | 1970-01-01T00:00:00Z is instant 0 |
| Timestamps.EpochChronological | wayback_machine_scraper/middleware.py:216 | `timestamp()` is strictly increasing and one to one, so comparing instants compares datetimes |
| Timestamps.FormatThenParse | wayback_machine_scraper/mirror_spider.py:89 | `strptime` reads back what `strftime` prints, for four-digit years |
| Timestamps.ParseThenFormat | wayback_machine_scraper/mirror_spider.py:89 | `strftime` prints back the timestamp `strptime` read, when it does not start with 0 |
| Text.NatToString | wayback_machine_scraper/middleware.py:44 | `str(n)` is a digit string with no leading zero |
| Text.NatToStringValue | wayback_machine_scraper/middleware.py:41 | `int(str(n)) == n` |
| Text.Split | wayback_machine_scraper/mirror_spider.py:37 | `split` always returns at least one piece |
| Text.SplitJoin | wayback_machine_scraper/mirror_spider.py:78 | joining the pieces of a split gives the string back, and no piece holds the separator |
| Text.StripSlashes | wayback_machine_scraper/middleware.py:132 | `strip('/')` leaves no slash at either end |
| Text.StripSlashesInfix | wayback_machine_scraper/middleware.py:132 | `strip('/')` is an infix of the string, and every character outside it is `/` |
| Spider.MirrorSpider.constructor | wayback_machine_scraper/mirror_spider.py:17-46 | the two loops of `__init__` set `allowed_domains` to `AllowedDomains` and `start_urls` to `StartUrls` of the domains, and store the directory and the unix flag |
| Spider.StartUrls | wayback_machine_scraper/mirror_spider.py:34-44 | exactly one start URL per domain, in input order |
| Spider.AllowedDomainsShape | wayback_machine_scraper/mirror_spider.py:26-43 | `allowed_domains` starts with the three archive domains in order, has no duplicate, holds every bare domain, and nothing else |
| Spider.ArchiveFirst | wayback_machine_scraper/mirror_spider.py:29-32 | the first loop appends all three archive domains |
| Spider.AppendNewKeepsPrefix | wayback_machine_scraper/mirror_spider.py:42-43 | guarded appends keep the list built so far as a prefix |
| Spider.AppendNewContents | wayback_machine_scraper/mirror_spider.py:42-43 | after the guarded appends the list holds exactly its old entries and the items |
| Spider.AppendNewDistinct | wayback_machine_scraper/mirror_spider.py:31 | guarded appends never add a duplicate |
| Spider.StartUrlShape | wayback_machine_scraper/mirror_spider.py:37-40 | a domain without `://` is fetched as `http://<domain>`; one with a single `://` is its own start URL |
| Spider.BareDomainShape | wayback_machine_scraper/mirror_spider.py:41 | the bare domain is the prefix of the unqualified URL that holds no `/` and ends at its first `/` or at its end |
| Spider.SplitOnce | wayback_machine_scraper/mirror_spider.py:78 | a URL splits into several pieces exactly when it holds `://` |
| Spider.MirrorSpider.SaveTargetFor | wayback_machine_scraper/mirror_spider.py:66-89 | nothing is saved exactly when the capture time is absent, the status is 404 or the URL has no `://` |
| Spider.DirectoryParts | wayback_machine_scraper/mirror_spider.py:78 | the directory parts joined by `/` give the URL between its first and any second `://`, and no part holds `/` |
| Spider.UnixName | wayback_machine_scraper/mirror_spider.py:86-87 | the unix file stem ends in `.0`, and for instants from 1970 on its digits read back to the capture's epoch seconds |
| Spider.FileNamedAfterTimestamp | wayback_machine_scraper/mirror_spider.py:85-89 | outside unix mode the file is `<archive timestamp>.snapshot` |
| Pipeline.IndexAnswersIgnored | wayback_machine_scraper/mirror_spider.py:48-74 | the answers built for an index query carry no capture time: they are neither handed to the rules nor saved |
| Pipeline.IndexListingsStopAtGate | wayback_machine_scraper/mirror_spider.py:48-51 | any answer at an index query URL, even a raw listing handed on, fails `ProceedsToRules`: the URL holds `cdx/search/cdx` |
| Pipeline.SelectedTimesParsed | wayback_machine_scraper/middleware.py:175-186 | every selected snapshot has a capture time, the one its `timestamp` column parses to |
| Pipeline.EnqueuedFromRow | wayback_machine_scraper/middleware.py:186-200 | anything enqueued comes from a parsed listing, and each enqueued request is the original request re-aimed at one of that listing's selected snapshots, which has an original URL and a parsed capture time |
| Pipeline.SnapshotAnswerSaved | wayback_machine_scraper/mirror_spider.py:48-78 | a successful answer to a snapshot request reaches the rules unless its original URL is an index query, and is saved exactly when that URL has a scheme |
| Pipeline.SnapshotFileName | wayback_machine_scraper/mirror_spider.py:85-89 | the file an archived copy is saved under is named after the timestamp in the archive URL it was fetched from |

## Left out

- `json.loads` is not modelled. A body is already classified: a list of rows of strings, unparsable text, or another JSON value with its length when it has one.
- JSON rows whose entries are not strings are not modelled.
- Logging is not modelled. It changes no value.
- The scheduler is not modelled. `enqueue_request` becomes the `enqueue` list of the outcome. An exception from it, which the code logs and skips, is not modelled.
- `pathname2url` is a parameter of the middleware, an arbitrary `string -> string`. Its failure, which would make `process_request` return None, is not modelled.
- `response.text` on a body that is not text is not modelled.
- Scrapy's binding of `response.meta` to the request's metadata is assumed. The spider's checks take that metadata as a parameter.
- Only ASCII digits are accepted by `isdigit`, `int` and `strptime`. So are only exact fourteen-digit timestamps: `strptime`'s leniency with one-digit fields and spaces, and Unicode digits, are not modelled.
- Timestamps.ParseTime: a string setting is accepted only when it is all ASCII digits. Python's `int()` also accepts other spellings of the same integer, which the model rejects: surrounding whitespace (`" 20200101 "`), a leading `+`, single underscores between digits (`"2020_0101"` reads as 20200101 and is then taken as 2020-01-01), and non-ASCII decimal digits. A leading `-` is rejected by both, since a negative value never parses.
- Float settings and `datetime` objects as settings are not modelled.
- Instants are whole seconds; the float arithmetic of `timestamp()` is not modelled.
- Mediation.ToSnapshot: a header without `timestamp`, `statuscode` or `digest` fails the listing when it is parsed. In the code the `KeyError` comes from the selector, and the `digest` column is read only for rows that reach the digest check, so a listing whose rows all stop earlier does not fail there.
- Middleware.WaybackMachineMiddleware.BuildDict: the same eager check as `ToSnapshot`. The dictionary's `datetime` entry is folded into the snapshot, so a header column named `datetime` is not modelled.
- Timestamps.ParseTimeRange: a list with exactly one value is rejected as `MissingBound`. In the code it is accepted and fails later, when the selector reads the window's end.
- Request metadata sharing between copies of a request is not modelled. In the code, the retry writes `retry_times` into the failing request's own metadata before copying it.
- `handle_httpstatus_list` is a flag in the model. Scrapy's use of it to pass error responses through is not modelled.
- Windows `quote_plus` on the directory parts is not modelled.
- The unix file name (`timestamp()` printed as a float) is modelled for whole seconds only.
- Rule dispatch through `_link_allowed` and the `allow`/`deny` patterns of `parse_start_url` is not modelled. `Spider.ProceedsToRules` stops at the two checks before it.
- Writing the file, `os.makedirs` and `os.path.join` are not modelled. `SaveTargetFor` gives the directory parts and the file name.
- `__main__.py` is not part of this model. It is argument parsing and crawler start-up.
- `closed` is not modelled. It only logs.
