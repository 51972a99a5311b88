/**
 * The sampling run: walk back one day at a time from today, download the
 * day's nightly artifact from Fastly, CloudFront and S3 in that order, and
 * keep a row of the three throughputs for each day on which all three
 * downloads were usable.  The run stops once it holds `samples` rows or has
 * tried `attempts` days.
 *
 * The network is a parameter: `Network` maps a URL to the reply the server
 * gives.  The run requests each URL at most once, so one reply per URL is
 * all it can observe.
 */
module Sampler {
  import opened Wrappers
  import Calendar
  import Dist

  /** Command-line defaults for the attempt and sample budgets. */
  const DEFAULT_ATTEMPTS: nat := 20
  const DEFAULT_SAMPLES: nat := 5

  /** The largest `usize` on a 64-bit target. */
  const USIZE_MAX: nat := 0xFFFF_FFFF_FFFF_FFFF

  const CACHE_HEADER := "x-cache"
  const FASTLY_HIT := "HIT"
  const CLOUDFRONT_HIT := "Hit"

  /**
   * What one GET request comes back with.  `SendFailed` is a transport error
   * before the response headers arrive (connection failure, the ten-minute
   * timeout expiring before then).  A reply carries its status
   * code, its headers (names in lower case, as the HTTP client stores them),
   * the length of its body and the whole seconds that elapsed between just
   * before the request and just after the body was read.
   */
  datatype Reply =
    | SendFailed
    | Reply(status: int, headers: map<string, string>, bodyLength: nat, elapsedSeconds: int)

  type Network = string -> Reply

  /** One row of the report: a day and the three throughputs in KB/s. */
  datatype Stats = Stats(day: string, fastly: nat, cloudfront: nat, s3: nat)

  /** The outcome of probing one day, with the URLs requested, in order. */
  datatype Attempt = Attempt(stats: Option<Stats>, requested: seq<string>)

  predicate IsSuccess(status: int) {
    200 <= status <= 299
  }

  /**
   * `bytes as f64 / 1000.0 / seconds as f64`, cast to `usize`.  For a positive
   * duration this is the quotient truncated.  A zero duration divides by zero:
   * the infinite quotient saturates to `usize::MAX`, and 0/0 is NaN, which
   * casts to 0.  A negative duration gives a negative quotient, which casts to 0.
   */
  function Throughput(bytes: nat, seconds: int): (kbps: nat)
    ensures seconds > 0 ==> kbps * (1000 * seconds) <= bytes < (kbps + 1) * (1000 * seconds)
    ensures seconds == 0 ==> kbps == if bytes == 0 then 0 else USIZE_MAX
    ensures seconds < 0 ==> kbps == 0
  {
    if seconds > 0 then bytes / (1000 * seconds)
    else if seconds == 0 then (if bytes == 0 then 0 else USIZE_MAX)
    else 0
  }

  /**
   * The download would panic on a successful reply that lacks the cache
   * header it was told to inspect, or whose value is not visible ASCII (tab,
   * space to tilde), which the header's `to_str` rejects; callers never let
   * that happen.
   */
  predicate CacheHeaderReadable(reply: Reply, header: Option<string>, value: Option<string>) {
    reply.Reply? && IsSuccess(reply.status) && header.Some? && value.Some? ==>
      header.value in reply.headers &&
      forall c :: c in reply.headers[header.value] ==> ' ' <= c <= '~' || c == '\t'
  }

  /** Whether the reply's cache header starts with the cache-hit marker (case-sensitive). */
  predicate IsCacheHit(reply: Reply, header: Option<string>, value: Option<string>)
    requires CacheHeaderReadable(reply, header, value)
    requires reply.Reply? && IsSuccess(reply.status)
  {
    header.Some? && value.Some? && value.value <= reply.headers[header.value]
  }

  /**
   * `download`: the throughput of a usable reply.  A transport error, a
   * non-success status, or a cache hit reported by the named header all give
   * nothing.
   */
  function Download(reply: Reply, header: Option<string>, value: Option<string>): (kbps: Option<nat>)
    requires CacheHeaderReadable(reply, header, value)
    ensures reply.SendFailed? ==> kbps == None
    ensures reply.Reply? && !IsSuccess(reply.status) ==> kbps == None
    ensures reply.Reply? && IsSuccess(reply.status) ==>
      (kbps == None <==> IsCacheHit(reply, header, value))
    ensures kbps.Some? ==> kbps.value == Throughput(reply.bodyLength, reply.elapsedSeconds)
  {
    match reply
    case SendFailed => None
    case Reply(status, headers, bodyLength, elapsedSeconds) =>
      if !IsSuccess(status) then None
      else if header.Some? && value.Some? && value.value <= headers[header.value] then None
      else Some(Throughput(bodyLength, elapsedSeconds))
  }

  // The URLs `download_from_fastly`, `download_from_cloudfront` and
  // `download_from_s3` build: the day's artifact under `/dist/` on each host.

  function FastlyUrl(day: string): string {
    Dist.Url(Dist.FASTLY_HOST, day)
  }

  function CloudFrontUrl(day: string): string {
    Dist.Url(Dist.CLOUDFRONT_HOST, day)
  }

  function S3Url(day: string): string {
    Dist.Url(Dist.S3_HOST, day)
  }

  /** Each edge URL is its host, then the day's artifact under `/dist/`. */
  lemma EdgeUrlShape(day: string)
    ensures |FastlyUrl(day)| == |Dist.FASTLY_HOST| + |day| + 7 + |Dist.ARTIFACT|
    ensures FastlyUrl(day)[..|Dist.FASTLY_HOST|] == Dist.FASTLY_HOST
    ensures FastlyUrl(day)[|Dist.FASTLY_HOST|..|Dist.FASTLY_HOST| + 6] == "/dist/"
    ensures FastlyUrl(day)[|Dist.FASTLY_HOST| + 6..|Dist.FASTLY_HOST| + 6 + |day|] == day
    ensures |CloudFrontUrl(day)| == |Dist.CLOUDFRONT_HOST| + |day| + 7 + |Dist.ARTIFACT|
    ensures CloudFrontUrl(day)[..|Dist.CLOUDFRONT_HOST|] == Dist.CLOUDFRONT_HOST
    ensures CloudFrontUrl(day)[|Dist.CLOUDFRONT_HOST|..|Dist.CLOUDFRONT_HOST| + 6] == "/dist/"
    ensures CloudFrontUrl(day)[|Dist.CLOUDFRONT_HOST| + 6..|Dist.CLOUDFRONT_HOST| + 6 + |day|] == day
    ensures |S3Url(day)| == |Dist.S3_HOST| + |day| + 7 + |Dist.ARTIFACT|
    ensures S3Url(day)[..|Dist.S3_HOST|] == Dist.S3_HOST
    ensures S3Url(day)[|Dist.S3_HOST|..|Dist.S3_HOST| + 6] == "/dist/"
    ensures S3Url(day)[|Dist.S3_HOST| + 6..|Dist.S3_HOST| + 6 + |day|] == day
    ensures forall url :: url in [FastlyUrl(day), CloudFrontUrl(day), S3Url(day)] ==>
      url[|url| - |Dist.ARTIFACT| - 1..] == "/" + Dist.ARTIFACT
  {
    Dist.UrlShape(Dist.FASTLY_HOST, day);
    Dist.UrlShape(Dist.CLOUDFRONT_HOST, day);
    Dist.UrlShape(Dist.S3_HOST, day);
  }

  /** The network never makes either edge's download panic for this day. */
  predicate EdgeHeadersReadable(day: string, net: Network) {
    CacheHeaderReadable(net(FastlyUrl(day)), Some(CACHE_HEADER), Some(FASTLY_HIT)) &&
    CacheHeaderReadable(net(CloudFrontUrl(day)), Some(CACHE_HEADER), Some(CLOUDFRONT_HIT))
  }

  /** Fastly's reply is a cache hit when its `x-cache` starts with `HIT`. */
  function DownloadFromFastly(day: string, net: Network): (kbps: Option<nat>)
    requires CacheHeaderReadable(net(FastlyUrl(day)), Some(CACHE_HEADER), Some(FASTLY_HIT))
    ensures var reply := net(FastlyUrl(day));
      kbps.Some? <==> reply.Reply? && IsSuccess(reply.status) && !(FASTLY_HIT <= reply.headers[CACHE_HEADER])
    ensures kbps.Some? ==>
      kbps.value == Throughput(net(FastlyUrl(day)).bodyLength, net(FastlyUrl(day)).elapsedSeconds)
  {
    Download(net(FastlyUrl(day)), Some(CACHE_HEADER), Some(FASTLY_HIT))
  }

  /** CloudFront's reply is a cache hit when its `x-cache` starts with `Hit`. */
  function DownloadFromCloudFront(day: string, net: Network): (kbps: Option<nat>)
    requires CacheHeaderReadable(net(CloudFrontUrl(day)), Some(CACHE_HEADER), Some(CLOUDFRONT_HIT))
    ensures var reply := net(CloudFrontUrl(day));
      kbps.Some? <==> reply.Reply? && IsSuccess(reply.status) && !(CLOUDFRONT_HIT <= reply.headers[CACHE_HEADER])
    ensures kbps.Some? ==>
      kbps.value == Throughput(net(CloudFrontUrl(day)).bodyLength, net(CloudFrontUrl(day)).elapsedSeconds)
  {
    Download(net(CloudFrontUrl(day)), Some(CACHE_HEADER), Some(CLOUDFRONT_HIT))
  }

  /** S3 is downloaded without a cache check: every successful reply is measured. */
  function DownloadFromS3(day: string, net: Network): (kbps: Option<nat>)
    ensures kbps.Some? <==> net(S3Url(day)).Reply? && IsSuccess(net(S3Url(day)).status)
    ensures kbps.Some? ==> kbps.value == Throughput(net(S3Url(day)).bodyLength, net(S3Url(day)).elapsedSeconds)
  {
    Download(net(S3Url(day)), None, None)
  }

  /**
   * `download_artifacts`: a row for the day only when all three downloads are
   * usable.  The downloads run in the order Fastly, CloudFront, S3 and the
   * first unusable one ends the attempt, so the URLs requested are a prefix
   * of that order.
   */
  function DownloadArtifacts(day: string, net: Network): (a: Attempt)
    requires EdgeHeadersReadable(day, net)
    ensures a.stats.Some? <==>
      DownloadFromFastly(day, net).Some? && DownloadFromCloudFront(day, net).Some? &&
      DownloadFromS3(day, net).Some?
    ensures a.stats.Some? ==> a.stats.value == Stats(day,
      DownloadFromFastly(day, net).value, DownloadFromCloudFront(day, net).value,
      DownloadFromS3(day, net).value)
    ensures 1 <= |a.requested| <= 3
    ensures a.requested == [FastlyUrl(day), CloudFrontUrl(day), S3Url(day)][..|a.requested|]
    ensures |a.requested| > 1 <==> DownloadFromFastly(day, net).Some?
    ensures |a.requested| > 2 <==> DownloadFromFastly(day, net).Some? && DownloadFromCloudFront(day, net).Some?
  {
    match DownloadFromFastly(day, net)
    case None => Attempt(None, [FastlyUrl(day)])
    case Some(fastly) =>
      match DownloadFromCloudFront(day, net)
      case None => Attempt(None, [FastlyUrl(day), CloudFrontUrl(day)])
      case Some(cloudfront) =>
        match DownloadFromS3(day, net)
        case None => Attempt(None, [FastlyUrl(day), CloudFrontUrl(day), S3Url(day)])
        case Some(s3) =>
          Attempt(Some(Stats(day, fastly, cloudfront, s3)), [FastlyUrl(day), CloudFrontUrl(day), S3Url(day)])
  }

  /** A cache header holding a non-ASCII character is outside the model, as `to_str` fails on it. */
  lemma NonAsciiHeaderExcluded()
    ensures !CacheHeaderReadable(Reply(200, map[CACHE_HEADER := "HIT\U{e9}"], 5000, 1), Some(CACHE_HEADER), Some(FASTLY_HIT))
  {
    var value := "HIT\U{e9}";
    assert value[3] in value;
  }

  /** 10,000,000 bytes in 10 seconds is exactly 1000 KB/s. */
  lemma TenMegabytesInTenSeconds(headers: map<string, string>)
    ensures Download(Reply(200, headers, 10_000_000, 10), None, None) == Some(1000)
  {
  }

  /**
   * The cache-hit marker is matched as a case-sensitive prefix: "HIT, cached"
   * is a Fastly hit, "MISS" and "hit" are not.
   */
  lemma CacheHitMarkerIsPrefix()
    ensures Download(Reply(200, map[CACHE_HEADER := "HIT, cached"], 10_000_000, 10),
      Some(CACHE_HEADER), Some(FASTLY_HIT)) == None
    ensures Download(Reply(200, map[CACHE_HEADER := "MISS"], 10_000_000, 10),
      Some(CACHE_HEADER), Some(FASTLY_HIT)) == Some(1000)
    ensures Download(Reply(200, map[CACHE_HEADER := "hit"], 10_000_000, 10),
      Some(CACHE_HEADER), Some(FASTLY_HIT)) == Some(1000)
  {
    assert FASTLY_HIT <= "HIT, cached";
    assert "MISS"[0] != FASTLY_HIT[0];
    assert "hit"[0] != FASTLY_HIT[0];
  }

  /** A non-success status is unusable whatever the headers say. */
  lemma ServerErrorIsUnusable(status: int, headers: map<string, string>, bytes: nat, seconds: int,
                              header: Option<string>, value: Option<string>)
    requires !IsSuccess(status)
    ensures Download(Reply(status, headers, bytes, seconds), header, value) == None
  {
  }

  /** S3 is never taken for a cache hit: any successful S3 reply is measured. */
  lemma S3NeverCacheHit(day: string, net: Network)
    ensures DownloadFromS3(day, net).Some? <==> net(S3Url(day)).Reply? && IsSuccess(net(S3Url(day)).status)
  {
  }

  /** The label of the day probed on attempt `k`: `k` days before today. */
  function DayLabel(today: Calendar.Date, k: nat): string
    requires Calendar.Valid(today)
  {
    Calendar.Format(Calendar.DaysBefore(today, k))
  }

  /** The label of attempt `k` reads back as the date `k` days before today. */
  lemma DayLabelNames(today: Calendar.Date, k: nat)
    requires Calendar.Valid(today)
    ensures Calendar.Parse(DayLabel(today, k)).Some?
    ensures Calendar.DayNumber(Calendar.Parse(DayLabel(today, k)).value) == Calendar.DayNumber(today) - k
  {
    Calendar.ParseFormat(Calendar.DaysBefore(today, k));
    Calendar.DaysBeforeNumber(today, k);
  }

  /** The labels of the days probed by the first `n` attempts, in order. */
  function Days(today: Calendar.Date, n: nat): (days: seq<string>)
    requires Calendar.Valid(today)
    ensures |days| == n
  {
    if n == 0 then [] else Days(today, n - 1) + [DayLabel(today, n - 1)]
  }

  /**
   * Both edges always send the cache header with a successful reply, so no
   * download in the run panics.
   */
  ghost predicate EdgesSendCacheHeader(net: Network) {
    forall day :: EdgeHeadersReadable(day, net)
  }

  /** What `download_artifacts` gives for each of `days`, in order. */
  function Outcomes(days: seq<string>, net: Network): (outcomes: seq<Option<Stats>>)
    requires EdgesSendCacheHeader(net)
    ensures |outcomes| == |days|
    ensures forall k :: 0 <= k < |days| && outcomes[k].Some? ==> outcomes[k].value.day == days[k]
  {
    if days == [] then []
    else Outcomes(days[..|days| - 1], net) + [DownloadArtifacts(days[|days| - 1], net).stats]
  }

  /** The rows among some outcomes, in order: the days that were not dropped. */
  function Kept(outcomes: seq<Option<Stats>>): seq<Stats> {
    if outcomes == [] then []
    else
      var earlier := Kept(outcomes[..|outcomes| - 1]);
      match outcomes[|outcomes| - 1]
      case Some(row) => earlier + [row]
      case None => earlier
  }

  /** The rows that probing `days` in order produces. */
  function Rows(days: seq<string>, net: Network): seq<Stats>
    requires EdgesSendCacheHeader(net)
  {
    Kept(Outcomes(days, net))
  }

  /**
   * The run stopped after probing `days`: no budget was exceeded, one of the
   * two loop conditions failed, and both held before the last attempt made
   * (and so, by RowsGrow, before every attempt).
   */
  predicate StopsAt(maxAttempts: nat, samples: nat, days: seq<string>, net: Network)
    requires EdgesSendCacheHeader(net)
  {
    |days| <= maxAttempts &&
    (|days| == maxAttempts || |Rows(days, net)| >= samples) &&
    (|days| > 0 ==> |Rows(days[..|days| - 1], net)| < samples)
  }

  /**
   * `main`'s sampling loop, from the date of `today` on.  Returns the rows
   * and the labels of the days probed, one per attempt, in order.
   */
  method Sample(today: Calendar.Date, maxAttempts: nat, samples: nat, net: Network)
    returns (output: seq<Stats>, probed: seq<string>)
    requires Calendar.Valid(today) && EdgesSendCacheHeader(net)
    ensures probed == Days(today, |probed|)
    ensures StopsAt(maxAttempts, samples, probed, net)
    ensures output == Rows(probed, net) && |output| <= samples
  {
    output, probed := [], [];
    var attempts := 0;
    while |output| < samples && attempts < maxAttempts
      invariant attempts == |probed| <= maxAttempts
      invariant probed == Days(today, attempts)
      invariant output == Rows(probed, net) && |output| <= samples
      invariant attempts > 0 ==> |Rows(probed[..attempts - 1], net)| < samples
    {
      var day := DayLabel(today, attempts);
      var attempt := DownloadArtifacts(day, net);
      if attempt.stats.Some? {
        output := output + [attempt.stats.value];
      }
      ghost var before := probed;
      probed := probed + [day];
      assert probed[..attempts] == before;
      assert Outcomes(probed, net) == Outcomes(before, net) + [attempt.stats];
      attempts := attempts + 1;
    }
  }

  // Properties of the run, stated over the specification functions.

  lemma {:induction false} DaysAt(today: Calendar.Date, n: nat, k: nat)
    requires Calendar.Valid(today) && k < n
    ensures Days(today, n)[k] == DayLabel(today, k)
  {
    if k < n - 1 {
      DaysAt(today, n - 1, k);
    }
  }

  lemma {:induction false} OutcomesAt(days: seq<string>, net: Network, k: nat)
    requires EdgesSendCacheHeader(net) && k < |days|
    ensures Outcomes(days, net)[k] == DownloadArtifacts(days[k], net).stats
  {
    if k < |days| - 1 {
      OutcomesAt(days[..|days| - 1], net, k);
    }
  }

  lemma {:induction false} OutcomesPrefix(days: seq<string>, net: Network, j: nat)
    requires EdgesSendCacheHeader(net) && j <= |days|
    ensures Outcomes(days[..j], net) == Outcomes(days, net)[..j]
  {
    if j < |days| {
      var shorter := days[..|days| - 1];
      assert shorter[..j] == days[..j];
      OutcomesPrefix(shorter, net, j);
      var last := DownloadArtifacts(days[|days| - 1], net).stats;
      assert Outcomes(days, net) == Outcomes(shorter, net) + [last];
      assert (Outcomes(shorter, net) + [last])[..j] == Outcomes(shorter, net)[..j];
    } else {
      assert days[..j] == days;
    }
  }

  /** More outcomes never lose a row: earlier rows are a prefix of later ones. */
  lemma {:induction false} KeptGrow(outcomes: seq<Option<Stats>>, j: nat)
    requires j <= |outcomes|
    ensures Kept(outcomes[..j]) <= Kept(outcomes)
  {
    if j < |outcomes| {
      var shorter := outcomes[..|outcomes| - 1];
      assert shorter[..j] == outcomes[..j];
      KeptGrow(shorter, j);
    } else {
      assert outcomes[..j] == outcomes;
    }
  }

  /** Each outcome contributes at most one row. */
  lemma {:induction false} KeptBound(outcomes: seq<Option<Stats>>)
    ensures |Kept(outcomes)| <= |outcomes|
  {
    if outcomes != [] {
      KeptBound(outcomes[..|outcomes| - 1]);
    }
  }

  /** When no outcome is dropped, each one yields its row, in order. */
  lemma {:induction false} KeptAll(outcomes: seq<Option<Stats>>)
    requires forall k :: 0 <= k < |outcomes| ==> outcomes[k].Some?
    ensures |Kept(outcomes)| == |outcomes|
    ensures forall k :: 0 <= k < |outcomes| ==> Kept(outcomes)[k] == outcomes[k].value
  {
    if outcomes != [] {
      KeptAll(outcomes[..|outcomes| - 1]);
    }
  }

  /** Probing more days never loses a row. */
  lemma RowsGrow(days: seq<string>, j: nat, net: Network)
    requires EdgesSendCacheHeader(net) && j <= |days|
    ensures Rows(days[..j], net) <= Rows(days, net)
  {
    OutcomesPrefix(days, net, j);
    KeptGrow(Outcomes(days, net), j);
  }

  /** When the run stops, the loop condition held before every attempt it made. */
  lemma EveryAttemptWasNeeded(maxAttempts: nat, samples: nat, days: seq<string>, net: Network, j: nat)
    requires EdgesSendCacheHeader(net) && StopsAt(maxAttempts, samples, days, net)
    requires j < |days|
    ensures |Rows(days[..j], net)| < samples
  {
    var last := days[..|days| - 1];
    RowsGrow(last, j, net);
    assert last[..j] == days[..j];
  }

  /** The run never holds more than `samples` rows, nor more rows than attempts. */
  lemma OutputWithinBudgets(maxAttempts: nat, samples: nat, days: seq<string>, net: Network)
    requires EdgesSendCacheHeader(net) && StopsAt(maxAttempts, samples, days, net)
    ensures |Rows(days, net)| <= samples && |Rows(days, net)| <= |days| <= maxAttempts
  {
    KeptBound(Outcomes(days, net));
    if days != [] {
      var outcomes := Outcomes(days, net);
      OutcomesPrefix(days, net, |days| - 1);
      assert outcomes[..|outcomes| - 1] == Outcomes(days[..|days| - 1], net);
    }
  }

  /** With no attempts, or no samples wanted, nothing is probed and nothing is reported. */
  lemma NoBudgetNoProbe(maxAttempts: nat, samples: nat, days: seq<string>, net: Network)
    requires EdgesSendCacheHeader(net) && StopsAt(maxAttempts, samples, days, net)
    requires maxAttempts == 0 || samples == 0
    ensures days == [] && Rows(days, net) == []
  {
  }

  /**
   * When every download is usable the run makes `min(attempts, samples)`
   * attempts and reports one row per probed day, in order.
   */
  lemma AllMeasuredFillsBudget(maxAttempts: nat, samples: nat, days: seq<string>, net: Network)
    requires EdgesSendCacheHeader(net) && StopsAt(maxAttempts, samples, days, net)
    requires forall k :: 0 <= k < |days| ==> DownloadArtifacts(days[k], net).stats.Some?
    ensures |days| == (if maxAttempts < samples then maxAttempts else samples)
    ensures |Rows(days, net)| == |days|
    ensures forall k :: 0 <= k < |days| ==> Rows(days, net)[k].day == days[k]
  {
    var outcomes := Outcomes(days, net);
    forall k | 0 <= k < |days|
      ensures outcomes[k].Some?
    {
      OutcomesAt(days, net, k);
    }
    KeptAll(outcomes);
    if days != [] {
      OutcomesPrefix(days, net, |days| - 1);
      KeptAll(outcomes[..|days| - 1]);
    }
  }

  /** The date a row reports, read back from its label. */
  function RowDate(row: Stats): Option<Calendar.Date> {
    Calendar.Parse(row.day)
  }

  /**
   * The rows from outcomes of days each no older than the `n`th day before
   * `today`, listed newest first.
   */
  ghost predicate NewestFirst(rows: seq<Stats>, today: Calendar.Date, n: nat)
    requires Calendar.Valid(today)
  {
    (forall i :: 0 <= i < |rows| ==>
      RowDate(rows[i]).Some? &&
      Calendar.DayNumber(today) - n < Calendar.DayNumber(RowDate(rows[i]).value) <= Calendar.DayNumber(today)) &&
    (forall i, j :: 0 <= i < j < |rows| ==>
      Calendar.DayNumber(RowDate(rows[i]).value) > Calendar.DayNumber(RowDate(rows[j]).value))
  }

  /** Appending the row of the next older day keeps the rows newest first. */
  lemma AppendOlderDay(rows: seq<Stats>, row: Stats, today: Calendar.Date, n: nat)
    requires Calendar.Valid(today) && NewestFirst(rows, today, n)
    requires RowDate(row).Some? && Calendar.DayNumber(RowDate(row).value) == Calendar.DayNumber(today) - n
    ensures NewestFirst(rows + [row], today, n + 1)
  {
  }

  lemma {:induction false} KeptNewestFirst(outcomes: seq<Option<Stats>>, today: Calendar.Date)
    requires Calendar.Valid(today)
    requires forall k :: 0 <= k < |outcomes| && outcomes[k].Some? ==>
      outcomes[k].value.day == Calendar.Format(Calendar.DaysBefore(today, k))
    ensures NewestFirst(Kept(outcomes), today, |outcomes|)
  {
    if outcomes != [] {
      var n := |outcomes|;
      var prefix := outcomes[..n - 1];
      KeptNewestFirst(prefix, today);
      if outcomes[n - 1].Some? {
        var date := Calendar.DaysBefore(today, n - 1);
        Calendar.ParseFormat(date);
        Calendar.DaysBeforeNumber(today, n - 1);
        AppendOlderDay(Kept(prefix), outcomes[n - 1].value, today, n - 1);
        assert Kept(outcomes) == Kept(prefix) + [outcomes[n - 1].value];
      } else {
        assert Kept(outcomes) == Kept(prefix);
      }
    }
  }

  /**
   * The rows of a run from `today` name days no older than the last one
   * probed, newest first, so no day appears twice.
   */
  lemma RowsNewestFirst(today: Calendar.Date, n: nat, net: Network)
    requires Calendar.Valid(today) && EdgesSendCacheHeader(net)
    ensures NewestFirst(Rows(Days(today, n), net), today, n)
    ensures forall i, j :: 0 <= i < j < |Rows(Days(today, n), net)| ==>
      Rows(Days(today, n), net)[i].day != Rows(Days(today, n), net)[j].day
  {
    var outcomes := Outcomes(Days(today, n), net);
    forall k | 0 <= k < n
      ensures Days(today, n)[k] == Calendar.Format(Calendar.DaysBefore(today, k))
    {
      DaysAt(today, n, k);
    }
    KeptNewestFirst(outcomes, today);
  }

  /** The days of a run are pairwise distinct: no day is probed twice. */
  lemma DaysDistinct(today: Calendar.Date, n: nat, i: nat, j: nat)
    requires Calendar.Valid(today) && i < j < n
    ensures Days(today, n)[i] != Days(today, n)[j]
  {
    DaysAt(today, n, i);
    DaysAt(today, n, j);
    if Days(today, n)[i] == Days(today, n)[j] {
      Calendar.FormatInjective(Calendar.DaysBefore(today, i), Calendar.DaysBefore(today, j));
      Calendar.DaysBeforeNumber(today, i);
      Calendar.DaysBeforeNumber(today, j);
    }
  }

  /** The three edge URLs of two days coincide only for the same edge and the same day. */
  lemma EdgeUrlsDistinct(a: string, b: string, u: nat, v: nat)
    requires u < 3 && v < 3
    requires [FastlyUrl(a), CloudFrontUrl(a), S3Url(a)][u] == [FastlyUrl(b), CloudFrontUrl(b), S3Url(b)][v]
    ensures u == v && a == b
  {
    Dist.HostsNeverCollide(a, b);
    Dist.HostsNeverCollide(b, a);
    if u == 0 && v == 0 {
      Dist.UrlInjective(Dist.FASTLY_HOST, a, b);
    } else if u == 1 && v == 1 {
      Dist.UrlInjective(Dist.CLOUDFRONT_HOST, a, b);
    } else if u == 2 && v == 2 {
      Dist.UrlInjective(Dist.S3_HOST, a, b);
    }
  }

  /**
   * A run requests every URL at most once: request `u` of attempt `i` and
   * request `v` of attempt `j` differ unless they are the same request.
   */
  lemma RequestsNeverRepeat(today: Calendar.Date, n: nat, net: Network, i: nat, u: nat, j: nat, v: nat)
    requires Calendar.Valid(today) && EdgesSendCacheHeader(net) && i < n && j < n
    requires u < |DownloadArtifacts(Days(today, n)[i], net).requested|
    requires v < |DownloadArtifacts(Days(today, n)[j], net).requested|
    requires i != j || u != v
    ensures DownloadArtifacts(Days(today, n)[i], net).requested[u] !=
            DownloadArtifacts(Days(today, n)[j], net).requested[v]
  {
    var a, b := Days(today, n)[i], Days(today, n)[j];
    if DownloadArtifacts(a, net).requested[u] == DownloadArtifacts(b, net).requested[v] {
      EdgeUrlsDistinct(a, b, u, v);
      if i < j {
        DaysDistinct(today, n, i, j);
      } else if j < i {
        DaysDistinct(today, n, j, i);
      }
    }
  }
}
