/**
  Turning log lines into per-URL statistics (01/src/log_analyzer/analyzer.py):
  `parse_log_lines`, one result per line, and `aggregate_stats`, which counts
  lines and parse errors, fills one bucket per URL and applies the
  error-ratio gate.  Request times are exact reals here.
*/
module LogStats {
  import opened Base
  import opened Seqs
  import opened Text
  import opened Dicts

  // ---- parse_log_lines ----

  /** `\d+(?:\.\d+)?`: the shape of the request time `LOG_LINE_RE` captures. */
  predicate IsTimeText(t: string)
  {
    IsDigits(t) || exists i :: 0 < i < |t| - 1 && t[i] == '.' && IsDigits(t[..i]) && IsDigits(t[i + 1..])
  }

  /**
    What `LOG_LINE_RE.search(line)` captures: the URL and the request-time
    text, or nothing. The regular expression itself is not modelled; the
    one fact used about it is that a captured time has the shape above.
  */
  type LineMatcher = string -> Option<(string, string)>

  ghost predicate TimesAreDecimal(matcher: LineMatcher)
  {
    forall line :: matcher(line).Some? ==> IsTimeText(matcher(line).value.1)
  }

  /** `float(text)` on a time of the captured shape: digits, optionally a point and more digits. */
  function DecimalValue(t: string): (r: real)
    requires IsTimeText(t)
    ensures r >= 0.0
  {
    TimeTextParts(t);
    match LastIndexOfElem(t, '.')
    case None => DigitsValue(t) as real
    case Some(i) => DigitsValue(t[..i]) as real + DigitsValue(t[i + 1..]) as real / Pow10(|t| - i - 1) as real
  }

  /** Where the point of a time text is, and that digits surround it. */
  lemma TimeTextParts(t: string)
    requires IsTimeText(t)
    ensures LastIndexOfElem(t, '.').None? ==> IsDigits(t)
    ensures LastIndexOfElem(t, '.').Some? ==>
      var i := LastIndexOfElem(t, '.').value; IsDigits(t[..i]) && IsDigits(t[i + 1..])
  {
  }

  /** One parse result: the URL and the request time, or None for a line that does not match. */
  type Parsed = Option<(string, real)>

  /**
    `parse_log_lines`: exactly one result per line, None exactly for a line
    that does not match. `float` cannot fail on the captured text, so the
    `except ValueError` branch never yields.
  */
  function ParseLogLines(lines: seq<string>, matcher: LineMatcher): (r: seq<Parsed>)
    requires TimesAreDecimal(matcher)
    ensures |r| == |lines|
    ensures forall i :: 0 <= i < |lines| ==> (r[i].None? <==> matcher(lines[i]).None?)
    ensures forall i :: 0 <= i < |lines| && r[i].Some? ==>
      r[i].value.0 == matcher(lines[i]).value.0 && r[i].value.1 >= 0.0
  {
    seq(|lines|, i requires 0 <= i < |lines| =>
      match matcher(lines[i])
      case None => None
      case Some(m) => Some((m.0, DecimalValue(m.1))))
  }

  // ---- what aggregate_stats computes, stated on the parse results ----

  /** `UrlStats`: a URL's count, time sum, time maximum and the times themselves. */
  datatype UrlStats = UrlStats(count: int, timeSum: real, timeMax: real, times: seq<real>)

  function Sum(ts: seq<real>): real
  {
    if ts == [] then 0.0 else Sum(ts[..|ts| - 1]) + ts[|ts| - 1]
  }

  function Max(a: real, b: real): real
  {
    if a >= b then a else b
  }

  /** `max` over the times, starting from 0.0. */
  function MaxOr0(ts: seq<real>): (m: real)
    ensures m >= 0.0
    ensures forall i :: 0 <= i < |ts| ==> ts[i] <= m
    ensures m == 0.0 || exists i :: 0 <= i < |ts| && ts[i] == m
  {
    if ts == [] then 0.0
    else
      var m' := MaxOr0(ts[..|ts| - 1]);
      assert forall i :: 0 <= i < |ts| - 1 ==> ts[..|ts| - 1][i] == ts[i];
      Max(m', ts[|ts| - 1])
  }

  /** The bucket a URL with these times must have. */
  function Bucket(ts: seq<real>): UrlStats
  {
    UrlStats(|ts|, Sum(ts), MaxOr0(ts), ts)
  }

  /** The times of the lines for `url`, in line order. */
  function TimesOf(parsed: seq<Parsed>, url: string): seq<real>
  {
    if parsed == [] then []
    else
      var last := parsed[|parsed| - 1];
      TimesOf(parsed[..|parsed| - 1], url) + if last.Some? && last.value.0 == url then [last.value.1] else []
  }

  /** The URLs seen, each once, in order of first appearance. */
  function Urls(parsed: seq<Parsed>): seq<string>
  {
    if parsed == [] then []
    else
      var last := parsed[|parsed| - 1];
      var us := Urls(parsed[..|parsed| - 1]);
      if last.Some? && last.value.0 !in us then us + [last.value.0] else us
  }

  /** The number of lines that did not parse. */
  function ErrorCount(parsed: seq<Parsed>): nat
  {
    if parsed == [] then 0 else ErrorCount(parsed[..|parsed| - 1]) + if parsed[|parsed| - 1].None? then 1 else 0
  }

  /** The sum of all request times. */
  function TotalTime(parsed: seq<Parsed>): real
  {
    if parsed == [] then 0.0
    else
      var last := parsed[|parsed| - 1];
      TotalTime(parsed[..|parsed| - 1]) + if last.Some? then last.value.1 else 0.0
  }

  /**
    `stats` is the table for these parse results: one entry per URL, in order
    of first appearance, holding the bucket of exactly that URL's times.
  */
  ghost predicate StatsFor(stats: Dict<string, UrlStats>, parsed: seq<Parsed>)
  {
    Keys(stats) == Urls(parsed)
    && (forall u :: u in KeySet(stats) <==> u in Urls(parsed))
    && forall u :: u in Urls(parsed) ==> Get(stats, u) == Some(Bucket(TimesOf(parsed, u)))
  }

  /** The gate: an empty log, or one with a larger share of errors than the threshold (compared exactly, not in doubles), yields nothing. */
  predicate PassesGate(total: nat, errors: nat, threshold: real)
  {
    total != 0 && !(errors as real / total as real > threshold)
  }

  // ---- aggregate_stats ----

  /**
    `aggregate_stats` over the lines of the chosen log: None when the gate
    refuses them, else the per-URL table, the line count and the total time.
  */
  method AggregateStats(lines: seq<string>, matcher: LineMatcher, errorThreshold: real)
    returns (r: Option<(Dict<string, UrlStats>, int, real)>)
    requires TimesAreDecimal(matcher)
    ensures var parsed := ParseLogLines(lines, matcher);
      r.Some? <==> PassesGate(|lines|, ErrorCount(parsed), errorThreshold)
    ensures var parsed := ParseLogLines(lines, matcher);
      r.Some? ==> StatsFor(r.value.0, parsed) && r.value.1 == |lines| && r.value.2 == TotalTime(parsed)
  {
    var parsedLines := ParseLogLines(lines, matcher);
    var total := 0;
    var errors := 0;
    var totalTime := 0.0;
    var stats: Dict<string, UrlStats> := [];
    for i := 0 to |parsedLines|
      invariant total == i
      invariant errors == ErrorCount(parsedLines[..i])
      invariant totalTime == TotalTime(parsedLines[..i])
      invariant StatsFor(stats, parsedLines[..i])
    {
      var parsed := parsedLines[i];
      CountersStep(parsedLines, i);
      total := total + 1;
      if parsed.None? {
        errors := errors + 1;
        continue;
      }
      var (url, requestTime) := parsed.value;
      totalTime := totalTime + requestTime;
      StatsStep(stats, parsedLines[..i + 1]);
      stats := AddTime(stats, url, requestTime);
    }
    assert parsedLines[..|parsedLines|] == parsedLines;
    if total == 0 {
      return None;
    }
    var errorRatio := errors as real / total as real;
    if errorRatio > errorThreshold {
      return None;
    }
    return Some((stats, total, totalTime));
  }

  /**
    The loop body for a parsed line: `stats.setdefault(url, UrlStats(...))`,
    then the bucket's count, sum, maximum and times are updated in place.
  */
  method AddTime(stats: Dict<string, UrlStats>, url: string, requestTime: real) returns (r: Dict<string, UrlStats>)
    ensures var blank := UrlStats(0, 0.0, 0.0, []);
      r == match Get(stats, url)
        case Some(b) => Put(stats, url, Updated(b, requestTime))
        case None => Put(Put(stats, url, blank), url, Updated(blank, requestTime))
  {
    r := stats;
    var bucket: UrlStats;
    var existing := Get(r, url);
    if existing.Some? {
      bucket := existing.value;
    } else {
      bucket := UrlStats(0, 0.0, 0.0, []);
      r := Put(r, url, bucket);
    }
    ghost var before := bucket;
    bucket := bucket.(count := bucket.count + 1);
    bucket := bucket.(timeSum := bucket.timeSum + requestTime);
    bucket := bucket.(timeMax := Max(bucket.timeMax, requestTime));
    bucket := bucket.(times := bucket.times + [requestTime]);
    assert bucket == Updated(before, requestTime);
    r := Put(r, url, bucket);
  }

  /** The counters and the URL table over one more parse result. */
  lemma CountersStep(parsed: seq<Parsed>, i: nat)
    requires i < |parsed|
    ensures var p := parsed[..i + 1];
      p[..i] == parsed[..i] && p[i] == parsed[i]
      && ErrorCount(p) == ErrorCount(parsed[..i]) + (if parsed[i].None? then 1 else 0)
      && TotalTime(p) == TotalTime(parsed[..i]) + (if parsed[i].Some? then parsed[i].value.1 else 0.0)
      && (parsed[i].None? ==> forall stats :: StatsFor(stats, parsed[..i]) ==> StatsFor(stats, p))
  {
    var p := parsed[..i + 1];
    assert p[..i] == parsed[..i];
    UrlsStep(p);
  }

  /** The bucket after one more time: `setdefault`, then the four in-place updates. */
  function Updated(b: UrlStats, t: real): UrlStats
  {
    UrlStats(b.count + 1, b.timeSum + t, Max(b.timeMax, t), b.times + [t])
  }

  /** One parsed line keeps the table right: its URL's bucket takes the time, a new URL goes last. */
  lemma StatsStep(stats: Dict<string, UrlStats>, parsed: seq<Parsed>)
    requires parsed != [] && parsed[|parsed| - 1].Some?
    requires StatsFor(stats, parsed[..|parsed| - 1])
    ensures var (u, t) := parsed[|parsed| - 1].value;
      var blank := UrlStats(0, 0.0, 0.0, []);
      match Get(stats, u)
      case Some(b) => StatsFor(Put(stats, u, Updated(b, t)), parsed)
      case None => StatsFor(Put(Put(stats, u, blank), u, Updated(blank, t)), parsed)
  {
    var (u, t) := parsed[|parsed| - 1].value;
    match Get(stats, u)
    case Some(b) => SeenStep(stats, parsed, b);
    case None => NewStep(stats, parsed);
  }

  /** A URL already in the table: its bucket takes the time. */
  lemma SeenStep(stats: Dict<string, UrlStats>, parsed: seq<Parsed>, b: UrlStats)
    requires parsed != [] && parsed[|parsed| - 1].Some?
    requires StatsFor(stats, parsed[..|parsed| - 1])
    requires Get(stats, parsed[|parsed| - 1].value.0) == Some(b)
    ensures var (u, t) := parsed[|parsed| - 1].value;
      StatsFor(Put(stats, u, Updated(b, t)), parsed)
  {
    var init := parsed[..|parsed| - 1];
    var (u, t) := parsed[|parsed| - 1].value;
    assert u in Urls(init);
    assert b == Bucket(TimesOf(init, u));
    StatsPut(stats, parsed, Put(stats, u, Updated(b, t)));
  }

  /** A new URL: `setdefault` appends a blank bucket, which then takes the time. */
  lemma NewStep(stats: Dict<string, UrlStats>, parsed: seq<Parsed>)
    requires parsed != [] && parsed[|parsed| - 1].Some?
    requires StatsFor(stats, parsed[..|parsed| - 1])
    requires Get(stats, parsed[|parsed| - 1].value.0).None?
    ensures var (u, t) := parsed[|parsed| - 1].value;
      var blank := UrlStats(0, 0.0, 0.0, []);
      StatsFor(Put(Put(stats, u, blank), u, Updated(blank, t)), parsed)
  {
    var init := parsed[..|parsed| - 1];
    var (u, t) := parsed[|parsed| - 1].value;
    var blank := UrlStats(0, 0.0, 0.0, []);
    assert u !in Urls(init);
    UnseenHasNoTimes(init, u);
    assert Bucket([]) == blank;
    PutTwice(stats, u, blank, Updated(blank, t));
    StatsPut(stats, parsed, Put(Put(stats, u, blank), u, Updated(blank, t)));
  }

  /** A table that differs from the old one only in the last URL's bucket, which took the time, is right. */
  lemma StatsPut(stats: Dict<string, UrlStats>, parsed: seq<Parsed>, r: Dict<string, UrlStats>)
    requires parsed != [] && parsed[|parsed| - 1].Some?
    requires StatsFor(stats, parsed[..|parsed| - 1])
    requires var (u, t) := parsed[|parsed| - 1].value;
      && Get(r, u) == Some(Updated(Bucket(TimesOf(parsed[..|parsed| - 1], u)), t))
      && (forall k :: k != u ==> Get(r, k) == Get(stats, k))
      && KeySet(r) == KeySet(stats) + {u}
      && Keys(r) == if u in KeySet(stats) then Keys(stats) else Keys(stats) + [u]
    ensures StatsFor(r, parsed)
  {
    var init := parsed[..|parsed| - 1];
    var (u, t) := parsed[|parsed| - 1].value;
    UrlsStep(parsed);
    assert u in KeySet(stats) <==> u in Urls(init);
    assert Keys(r) == Urls(parsed);
    assert forall x :: x in KeySet(r) <==> x in Urls(parsed);
    BucketTakesTime(TimesOf(init, u), t, TimesOf(parsed, u));
    forall x | x in Urls(parsed) && x != u ensures Get(r, x) == Some(Bucket(TimesOf(parsed, x))) {
      assert x in Urls(init);
      assert TimesOf(parsed, x) == TimesOf(init, x);
    }
  }

  /** The bucket of one more time is the updated bucket. */
  lemma BucketTakesTime(ts: seq<real>, t: real, ts': seq<real>)
    requires ts' == ts + [t]
    ensures Bucket(ts') == Updated(Bucket(ts), t)
  {
    assert ts'[..|ts|] == ts;
  }

  /** How one more parse result changes the URL list and the times of each URL. */
  lemma UrlsStep(parsed: seq<Parsed>)
    requires parsed != []
    ensures var init, last := parsed[..|parsed| - 1], parsed[|parsed| - 1];
      (last.None? ==> Urls(parsed) == Urls(init) && forall u :: TimesOf(parsed, u) == TimesOf(init, u))
      && (last.Some? ==>
            Urls(parsed) == (if last.value.0 in Urls(init) then Urls(init) else Urls(init) + [last.value.0])
            && TimesOf(parsed, last.value.0) == TimesOf(init, last.value.0) + [last.value.1]
            && (last.value.0 !in Urls(init) ==> TimesOf(init, last.value.0) == [])
            && forall u :: u != last.value.0 ==> TimesOf(parsed, u) == TimesOf(init, u))
  {
    var init := parsed[..|parsed| - 1];
    if parsed[|parsed| - 1].Some? && parsed[|parsed| - 1].value.0 !in Urls(init) {
      UnseenHasNoTimes(init, parsed[|parsed| - 1].value.0);
    }
  }

  /** A URL that was never seen has no times. */
  lemma {:induction false} UnseenHasNoTimes(parsed: seq<Parsed>, url: string)
    requires url !in Urls(parsed)
    ensures TimesOf(parsed, url) == []
  {
    if parsed != [] {
      UnseenHasNoTimes(parsed[..|parsed| - 1], url);
    }
  }

  /** The URL list has no repeats. */
  lemma {:induction false} UrlsDistinct(parsed: seq<Parsed>)
    ensures forall i, j :: 0 <= i < j < |Urls(parsed)| ==> Urls(parsed)[i] != Urls(parsed)[j]
  {
    if parsed != [] {
      UrlsDistinct(parsed[..|parsed| - 1]);
    }
  }

  // ---- properties of the aggregate ----

  /** A time written as digits, a point and digits has the value they spell. */
  lemma DecimalOfParts(t: string, a: string, f: string)
    requires IsDigits(a) && IsDigits(f)
    requires |t| == |a| + 1 + |f| && t[..|a|] == a && t[|a|] == '.' && t[|a| + 1..] == f
    ensures IsTimeText(t)
    ensures DecimalValue(t) == DigitsValue(a) as real + DigitsValue(f) as real / Pow10(|f|) as real
  {
    PointOfParts(t, a, f);
    TimeTextParts(t);
  }

  lemma PointOfParts(t: string, a: string, f: string)
    requires IsDigits(a) && IsDigits(f)
    requires |t| == |a| + 1 + |f| && t[..|a|] == a && t[|a|] == '.' && t[|a| + 1..] == f
    ensures IsTimeText(t)
    ensures LastIndexOfElem(t, '.') == Some(|a|)
  {
    assert LastIndexOfElem(t, '.').Some?;
  }

  /** Every line unparsable: each counts as an error. */
  lemma {:induction false} ErrorCountAll(parsed: seq<Parsed>)
    requires forall i :: 0 <= i < |parsed| ==> parsed[i].None?
    ensures ErrorCount(parsed) == |parsed|
  {
    if parsed != [] {
      ErrorCountAll(parsed[..|parsed| - 1]);
    }
  }

  /** A non-empty log in which no line parses fails any threshold below 1. */
  lemma AllBadLinesRejected(lines: seq<string>, matcher: LineMatcher, errorThreshold: real)
    requires TimesAreDecimal(matcher)
    requires |lines| > 0 && forall i :: 0 <= i < |lines| ==> matcher(lines[i]).None?
    requires errorThreshold < 1.0
    ensures !PassesGate(|lines|, ErrorCount(ParseLogLines(lines, matcher)), errorThreshold)
  {
    ErrorCountAll(ParseLogLines(lines, matcher));
  }

  /** The sum of the counts in a table (its buckets' `count` fields). */
  function CountSum(stats: Dict<string, UrlStats>): int
  {
    if stats == [] then 0 else CountSum(stats[..|stats| - 1]) + stats[|stats| - 1].1.count
  }

  /** The number of times recorded for the URLs `us`. */
  function TimesCount(us: seq<string>, parsed: seq<Parsed>): nat
  {
    if us == [] then 0 else TimesCount(us[..|us| - 1], parsed) + |TimesOf(parsed, us[|us| - 1])|
  }

  /** One more time for `url` adds one to the count over URL lists holding it once. */
  lemma {:induction false} TimesCountShift(us: seq<string>, p: seq<Parsed>, q: seq<Parsed>, url: string)
    requires Distinct(us)
    requires forall u :: u != url ==> TimesOf(q, u) == TimesOf(p, u)
    requires |TimesOf(q, url)| == |TimesOf(p, url)| + 1
    ensures TimesCount(us, q) == TimesCount(us, p) + if url in us then 1 else 0
  {
    if us != [] {
      var init, last := us[..|us| - 1], us[|us| - 1];
      DistinctInit(us);
      TimesCountShift(init, p, q, url);
      assert TimesCount(us, q) == TimesCount(init, q) + |TimesOf(q, last)|;
      assert TimesCount(us, p) == TimesCount(init, p) + |TimesOf(p, last)|;
      InitOrLast(us, url);
    }
  }

  /** No string occurs twice. */
  predicate Distinct(us: seq<string>)
  {
    forall i, j :: 0 <= i < j < |us| ==> us[i] != us[j]
  }

  lemma DistinctInit(us: seq<string>)
    requires Distinct(us) && us != []
    ensures Distinct(us[..|us| - 1]) && us[|us| - 1] !in us[..|us| - 1]
  {
    var init := us[..|us| - 1];
    forall i, j | 0 <= i < j < |init| ensures init[i] != init[j] {
      assert init[i] == us[i] && init[j] == us[j];
    }
    forall i | 0 <= i < |init| ensures init[i] != us[|us| - 1] {
      assert init[i] == us[i];
    }
  }

  lemma InitOrLast(us: seq<string>, x: string)
    requires us != []
    ensures x in us <==> x in us[..|us| - 1] || x == us[|us| - 1]
  {
    assert us == us[..|us| - 1] + [us[|us| - 1]];
  }

  /** Nothing new for any URL leaves the count as it was. */
  lemma {:induction false} TimesCountSame(us: seq<string>, p: seq<Parsed>, q: seq<Parsed>)
    requires forall u :: TimesOf(q, u) == TimesOf(p, u)
    ensures TimesCount(us, q) == TimesCount(us, p)
  {
    if us != [] {
      TimesCountSame(us[..|us| - 1], p, q);
    }
  }

  /** Every parsed line lands in exactly one URL's times. */
  lemma {:induction false} TimesCountTotal(parsed: seq<Parsed>)
    ensures TimesCount(Urls(parsed), parsed) == |parsed| - ErrorCount(parsed)
  {
    if parsed != [] {
      var init := parsed[..|parsed| - 1];
      var last := parsed[|parsed| - 1];
      TimesCountTotal(init);
      UrlsStep(parsed);
      UrlsDistinct(parsed);
      if last.None? {
        TimesCountSame(Urls(init), init, parsed);
      } else {
        var u := last.value.0;
        UrlsDistinct(init);
        TimesCountShift(Urls(init), init, parsed, u);
        if u !in Urls(init) {
          assert Urls(parsed)[..|Urls(parsed)| - 1] == Urls(init);
        }
      }
    }
  }

  /** A table's counts, entry by entry, are the numbers of times of its URLs. */
  lemma {:induction false} CountSumPrefix(stats: Dict<string, UrlStats>, parsed: seq<Parsed>, n: nat)
    requires StatsFor(stats, parsed) && n <= |stats|
    requires DistinctKeys(stats)
    ensures CountSum(stats[..n]) == TimesCount(Urls(parsed)[..n], parsed)
  {
    if n > 0 {
      var us, x := Urls(parsed), stats[n - 1].0;
      CountSumPrefix(stats, parsed, n - 1);
      assert stats[..n][..n - 1] == stats[..n - 1];
      assert CountSum(stats[..n]) == CountSum(stats[..n - 1]) + stats[n - 1].1.count;
      assert us[..n][..n - 1] == us[..n - 1];
      assert TimesCount(us[..n], parsed) == TimesCount(us[..n - 1], parsed) + |TimesOf(parsed, us[n - 1])|;
      assert Keys(stats)[n - 1] == x == us[n - 1];
      assert x in us;
      GetAt(stats, n - 1);
      assert Some(stats[n - 1].1) == Some(Bucket(TimesOf(parsed, x)));
    }
  }

  /** The bucket counts add up to the lines that parsed: total minus errors. */
  lemma BucketCountsAddUp(stats: Dict<string, UrlStats>, parsed: seq<Parsed>)
    requires StatsFor(stats, parsed)
    ensures CountSum(stats) == |parsed| - ErrorCount(parsed)
  {
    UrlsDistinct(parsed);
    assert DistinctKeys(stats) by {
      forall i, j | 0 <= i < j < |stats| ensures stats[i].0 != stats[j].0 {
        assert Keys(stats)[i] == stats[i].0 && Keys(stats)[j] == stats[j].0;
      }
    }
    CountSumPrefix(stats, parsed, |stats|);
    assert stats[..|stats|] == stats;
    assert Urls(parsed)[..|stats|] == Urls(parsed);
    TimesCountTotal(parsed);
  }
}
