# CDN cache-miss throughput sampler, modelled in Dafny

The tool gathers data on how fast Rust's nightly `llvm-tools` artifact downloads
from the two CDN edges (Fastly, CloudFront) and from the S3 origin bucket when the
edges do not serve it from cache. Its `main` walks back one day at a time from
today. For each day it downloads the artifact from Fastly, then CloudFront, then S3.
It keeps a row of the three throughputs (KB/s) only when all three downloads are
usable. A download is unusable when the request fails, when the status is not a
success, or when the edge's `x-cache` header starts with its cache-hit marker
(`HIT` for Fastly, `Hit` for CloudFront). The run stops once it holds `samples`
rows or has tried `attempts` days (defaults 5 and 20). Two step sources, one
walking the calendar and one walking a crate's published versions, give the three
URLs for their current step.

Modules:

- `Wrappers` (`wrappers.dfy`): `Option`.
- `Decimal` (`decimal.dfy`): zero-padded decimal rendering and its parser.
- `Calendar` (`calendar.dfy`): proleptic Gregorian dates as chrono's `NaiveDate`
  has them. It covers `NextDay`, `PrevDay`, `DaysBefore` (`d - Duration::days(k)`),
  an independent day count `DayNumber` that measures them, and the `%Y-%m-%d`
  rendering with a parser for the round trip.
- `Dist` (`dist.dfy`): the three `https://…/dist/<day>/<artifact>` URLs that
  `main.rs` and `releases.rs` both build.
- `Releases` (`releases.dfy`): class `ReleasesCommand`, the backwards calendar cursor.
- `Crates` (`crates.dfy`): class `CratesCommand`, the forward cursor over versions.
- `Sampler` (`sampler.dfy`): `download` over an abstract reply, `download_artifacts`,
  and `main`'s sampling loop. The loop's specification is `Rows`, the rows that
  probing a sequence of days yields, and `StopsAt`, the loop's exit condition.

The network is a parameter: `Network = string -> Reply` gives the reply the server
sends for a URL. A reply is `SendFailed` or carries a status, headers, body length
and whole elapsed seconds. The clock is a parameter too: the loop takes `today`, and
`ReleasesCommand.NextStep` takes the current UTC date.

Choices the code makes, which the model keeps:

- `download_artifacts` stops at the first unusable download (the `?` operator).
  CloudFront is not requested after a Fastly failure, and S3 is not requested after
  a CloudFront failure. `DownloadArtifacts` returns the requested URLs to show this.
- `download` does not guard against a duration of zero seconds. The `f64` quotient
  is then infinite (or NaN for an empty body). The `as usize` cast turns it into
  `usize::MAX` (or 0). A negative duration gives 0. `Throughput` models exactly this.
- `main` computes its days itself (`today - attempts` days) and never uses either
  step source. The two classes are modelled on their own.
- A transport error, a bad status and a cache hit all give `None`. The code does not
  tell them apart in its result, and neither does the model.

## Model

| member | source | states |
|---|---|---|
| `Sampler.Throughput` | src/main.rs:143-145 | positive duration: the result is the real quotient bytes/1000/seconds truncated (`r*1000*s <= bytes < (r+1)*1000*s`); zero duration: `usize::MAX`, or 0 for an empty body; negative duration: 0 |
| `Sampler.Download` | src/main.rs:93-146 | a send failure or non-success status gives None; a success gives None exactly when the named header starts with the hit marker; otherwise the throughput of body length over elapsed seconds |
| `Sampler.NonAsciiHeaderExcluded` | src/main.rs:119-124 | a successful reply whose `x-cache` holds a non-ASCII character is outside what `Download` accepts, since `to_str().unwrap()` panics on it |
| `Sampler.TenMegabytesInTenSeconds` | src/main.rs:143-145 | 10,000,000 bytes in 10 s is 1000 KB/s |
| `Sampler.CacheHitMarkerIsPrefix` | src/main.rs:118-130 | the marker is a case-sensitive prefix: `HIT, cached` is a Fastly hit, `MISS` and `hit` are measured |
| `Sampler.ServerErrorIsUnusable` | src/main.rs:110-116 | any non-success status gives None whatever the headers |
| `Sampler.S3NeverCacheHit` | src/main.rs:87-91 | S3 passes no header, so every successful S3 reply is measured |
| `Sampler.DownloadFromFastly` | src/main.rs:77-80 | the Fastly download is usable exactly when the reply is a success whose `x-cache` does not start with `HIT`, and then it is the throughput of that reply |
| `Sampler.DownloadFromCloudFront` | src/main.rs:82-85 | the CloudFront download is usable exactly when the reply is a success whose `x-cache` does not start with `Hit`, and then it is the throughput of that reply |
| `Sampler.DownloadFromS3` | src/main.rs:87-91 | the S3 download is usable exactly when the reply is a success, and then it is the throughput of that reply |
| `Sampler.EdgeUrlShape` | src/main.rs:77-91 | each of the three URLs is exactly its own host, `/dist/`, the day, `/` and the artifact name (length fixed) |
| `Sampler.DownloadArtifacts` | src/main.rs:64-91 | a row exists iff all three downloads are usable, and it carries the day and their three results; the URLs requested are a prefix of Fastly, CloudFront, S3 that goes past a download only if it was usable |
| `Sampler.DayLabelNames` | src/main.rs:39-41 | the label of attempt k parses back to a date exactly k days before today |
| `Sampler.DaysDistinct` | src/main.rs:38-41 | the labels of two different attempts differ |
| `Sampler.EdgeUrlsDistinct` | src/main.rs:77-91 | two edge URLs coincide only for the same path and the same day |
| `Sampler.RequestsNeverRepeat` | src/main.rs:38-91 | across a run, no URL is requested twice |
| `Sampler.Days` | src/main.rs:36-41 | the labels of the first n probed days, one per attempt |
| `Sampler.Outcomes` | src/main.rs:45-49 | one outcome per probed day, and a row's day is the day it was probed for |
| `Sampler.Sample` | src/main.rs:33-52 | probes `today`, `today-1`, … one day per attempt; returns exactly the rows of the probed days; stops only when a budget is met, and both loop conditions held before the last attempt |
| `Sampler.OutputWithinBudgets` | src/main.rs:38-52 | when the loop stops it holds at most `samples` rows and at most one row per attempt, with attempts at most `attempts` |
| `Sampler.EveryAttemptWasNeeded` | src/main.rs:38 | every attempt made was made while fewer than `samples` rows were held |
| `Sampler.NoBudgetNoProbe` | src/main.rs:38 | with `attempts = 0` or `samples = 0` nothing is probed and nothing is reported |
| `Sampler.AllMeasuredFillsBudget` | src/main.rs:38-52 | when every download is usable the loop makes `min(attempts, samples)` attempts and reports one row per probed day, in probe order |
| `Sampler.RowsNewestFirst` | src/main.rs:36-49 | the rows' dates read back from their labels lie within the probed days and are strictly decreasing, so no day repeats |
| `Sampler.RowsGrow` | src/main.rs:47-49 | a later attempt never drops an earlier row: rows only grow by appending |
| `Sampler.KeptBound` | src/main.rs:47-49 | each attempt adds at most one row |
| `Sampler.KeptAll` | src/main.rs:47-49 | when no attempt is dropped, each attempt yields its own row, in order |
| `Calendar.NextDay` | src/releases.rs:20-25 | the day after a valid date is a valid date |
| `Calendar.PrevDay` | src/releases.rs:27 | the day before a valid date is a valid date |
| `Calendar.DaysBefore` | src/main.rs:39 | k days before a valid date is a valid date |
| `Calendar.PrevDayNumber` | src/releases.rs:27 | stepping one day back lowers the day count by exactly one |
| `Calendar.NextDayNumber` | src/releases.rs:20-25 | "tomorrow" is exactly one day later on the day count |
| `Calendar.PrevDayUndoesNextDay` | src/releases.rs:20-27 | one day forward then one back (and back then forward) is the identity |
| `Calendar.DaysBeforeNumber` | src/main.rs:39 | `d - k days` is exactly k days earlier on the day count |
| `Calendar.YearLength` | src/main.rs:39 | the day count gives each year 366 days in a Gregorian leap year and 365 otherwise |
| `Calendar.ParseFormat` | src/releases.rs:58-60 | the `%Y-%m-%d` rendering of a valid date parses back to that date |
| `Calendar.FormatInjective` | src/releases.rs:58-60 | distinct dates render differently |
| `Calendar.FormatYear` | src/main.rs:40 | `%Y` is at least four characters: four digits for years 0 to 9999, otherwise a sign (`-` or `+`) followed by digits |
| `Calendar.FormatLayout` | src/releases.rs:58-60 | for any year the rendering is the year, `-`, two month digits, `-`, two day digits |
| `Calendar.FormatShape` | src/releases.rs:58-60 | for years 0 to 9999 the rendering is ten characters, digits with `-` at positions 4 and 7 |
| `Decimal.ParsePadded` | src/releases.rs:58-60 | a zero-padded decimal field reads back as its number |
| `Decimal.PaddedLength` | src/releases.rs:58-60 | below 10^w a field padded to w is exactly w wide |
| `Releases.FormatStep` | src/releases.rs:58-60 | the label parses back to the day, and for years 0 to 9999 it is ten characters, digits except `-` at positions 4 and 7 (`YYYY-MM-DD`) |
| `Releases.ReleasesCommand.constructor` | src/releases.rs:7-16 | no day is current, so all three URL getters give None |
| `Releases.ReleasesCommand.NextStep` | src/releases.rs:19-31 | the first step yields today (tomorrow minus one day); every later step yields the day before the previous one, so step n is n-1 days before today; it always yields a day, and the URL getters then point at that day |
| `Releases.ReleasesCommand.FastlyUrl` | src/releases.rs:41-47 | None before the first step, else the Fastly URL of the current day; reads state only |
| `Releases.ReleasesCommand.CloudFrontUrl` | src/releases.rs:33-39 | None before the first step, else the CloudFront URL of the current day; reads state only |
| `Releases.ReleasesCommand.S3Url` | src/releases.rs:49-55 | None before the first step, else the S3 URL of the current day; reads state only |
| `Releases.WalkBack` | src/releases.rs:19-31 | three steps of a fresh cursor yield today, yesterday and the day before |
| `Dist.UrlShape` | src/main.rs:77-91 | the URL is host, `/dist/`, the day, then `/` and the artifact name |
| `Dist.UrlInjective` | src/releases.rs:33-55 | on one host the URL determines the day |
| `Dist.HostsNeverCollide` | src/main.rs:77-91 | the Fastly, CloudFront and S3 URLs never coincide, for any days |
| `Crates.CrateUrl` | src/crates.rs:62-87 | the URL is the host, `/crates/`, the crate name, `/`, the crate name again, `-`, the version, then `.crate` |
| `Crates.CrateUrlInjective` | src/crates.rs:62-87 | for one crate on one host the URL determines the version |
| `Crates.HostsNeverCollide` | src/crates.rs:62-87 | the three crate URLs differ, differing only in host |
| `Crates.CratesCommand.constructor` | src/crates.rs:46-50 | the cursor holds the whole list and no version is current |
| `Crates.CratesCommand.NextStep` | src/crates.rs:55-60 | yields the versions in list order, each once, then None forever; the current version is always what was last yielded |
| `Crates.CratesCommand.FastlyUrl` | src/crates.rs:71-78 | None without a current version, else the Fastly URL of the version last yielded |
| `Crates.CratesCommand.CloudFrontUrl` | src/crates.rs:62-69 | None without a current version, else the CloudFront URL of the version last yielded |
| `Crates.CratesCommand.S3Url` | src/crates.rs:80-87 | None without a current version, else the S3 URL of the version last yielded |
| `Crates.WalkVersions` | src/crates.rs:55-87 | a cursor over two versions yields both in order and then None; its URLs follow the current version and vanish after exhaustion |

## Left out

- HTTP transport: the client, the ten-minute timeout, and reading the status, headers and body. They are abstracted into `Reply`.
- Fetching and parsing the crates.io version list (JSON, semver). The `CratesCommand` constructor takes the version strings as rendered.
- Reading the clock: `today` and the elapsed seconds are parameters.
- Command-line parsing, logging, and printing the report table. Only the defaults 20 and 5 are kept, as constants.
- The `Command` interface both step sources implement is not declared. Traits are outside the Dafny subset used here, and `main` never dispatches through it. Both classes have `NextStep`, `FastlyUrl`, `CloudFrontUrl` and `S3Url`.
- Sampler.Throughput: `f64` rounding is not modelled. For positive durations the model returns the exact real quotient truncated. The two can differ only for very large byte counts or at exact integer boundaries after rounding.
- Sampler.Download: panics are preconditions, not outcomes. A successful edge reply must carry `x-cache` (the `expect` at src/main.rs:122), and its value must be visible ASCII or tab (the `to_str().unwrap()` at src/main.rs:123-124). Header names are looked up as given, in lower case, instead of case-insensitively, and a header holds one value (the code reads the first of repeated values).
- Sampler.Download: reading a body never fails here, because `Reply` always carries a body length. The code panics when reading the error body fails (`text().unwrap()` at src/main.rs:113) and when reading the artifact fails, for instance on the timeout (`bytes().unwrap()` at src/main.rs:132). Such replies are excluded inputs.
- Sampler.Sample: requires that the edges always send `x-cache` with a successful reply. This covers every day, including days the loop never reaches, while the code only panics on a day it probes. It returns the probed day labels; their count is the final `attempts`.
- Sampler.Sample: chrono panics when `date - Duration::days(attempts)` leaves its date range (src/main.rs:39). Years are unbounded here, so the model never panics there.
- Releases.ReleasesCommand.NextStep: the current UTC date is a parameter. chrono's year range and the `unwrap` on date overflow are not modelled, because years are unbounded here.
- Sampler.Reply: body lengths and throughputs are unbounded naturals, not `usize`.
