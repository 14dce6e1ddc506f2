/**
  Choosing the log to analyse (01/src/log_analyzer/analyzer.py): the
  `LOG_NAME_RE` file-name pattern, `strptime(stamp, "%Y%m%d")` on its date
  stamp, and `find_latest_log`, which keeps the regular file with the
  newest date.
*/
module LogFiles {
  import opened Base
  import opened Seqs
  import opened Text

  const NamePrefix: string := "nginx-access-ui.log-"

  /**
    `LOG_NAME_RE.match(name)` and its group: the prefix, eight digits, an
    optional `.gz`, then the end of the name -- where Python's `$` also
    matches just before one final newline.
  */
  function MatchLogName(name: string): (r: Option<string>)
    ensures r.Some? ==> |r.value| == 8 && IsDigits(r.value)
    ensures r.Some? ==> |name| >= |NamePrefix| + 8 && name[..|NamePrefix| + 8] == NamePrefix + r.value
  {
    var n := |NamePrefix|;
    if |name| >= n + 8 && name[..n] == NamePrefix && IsDigits(name[n..n + 8])
       && var tail := name[n + 8..]; tail == "" || tail == ".gz" || tail == "\n" || tail == ".gz\n"
    then Some(name[n..n + 8])
    else None
  }

  /** The name of the log stamped `stamp`, gzipped or not. */
  function LogName(stamp: string, gzip: bool): string
  {
    NamePrefix + stamp + (if gzip then ".gz" else "")
  }

  /** Both plain and gzipped log names match, and give back their stamp. */
  lemma LogNameMatches(stamp: string, gzip: bool)
    requires |stamp| == 8 && IsDigits(stamp)
    ensures MatchLogName(LogName(stamp, gzip)) == Some(stamp)
  {
    var name := LogName(stamp, gzip);
    var n := |NamePrefix|;
    assert name[..n] == NamePrefix && name[n..n + 8] == stamp;
    assert name[n + 8..] == if gzip then ".gz" else "";
  }

  /** A matching name is a log name, possibly followed by one newline. */
  lemma MatchedNameShape(name: string)
    requires MatchLogName(name).Some?
    ensures var stamp := MatchLogName(name).value;
      name == LogName(stamp, false) || name == LogName(stamp, true)
      || name == LogName(stamp, false) + "\n" || name == LogName(stamp, true) + "\n"
  {
    var n := |NamePrefix|;
    var stamp := MatchLogName(name).value;
    assert name == name[..n] + name[n..n + 8] + name[n + 8..];
  }

  /** After the stamp, any ending other than `.gz` (and the newline `$` allows) is refused: `.bz2` is. */
  lemma OtherEndingRefused(stamp: string, ending: string)
    requires |stamp| == 8
    requires ending != "" && ending != ".gz" && ending != "\n" && ending != ".gz\n"
    ensures MatchLogName(NamePrefix + stamp + ending).None?
  {
    var name := NamePrefix + stamp + ending;
    assert name[|NamePrefix| + 8..] == ending;
  }

  lemma Bz2Refused(stamp: string)
    requires |stamp| == 8
    ensures MatchLogName(NamePrefix + stamp + ".bz2").None?
  {
    var e := ".bz2";
    assert |e| == 4 && e[1] == 'b';
    OtherEndingRefused(stamp, e);
  }

  // ---- datetime.strptime(stamp, "%Y%m%d") ----

  datatype Date = Date(year: int, month: int, day: int)

  /** `a < b` on datetimes: by year, then month, then day. */
  predicate Before(a: Date, b: Date)
  {
    a.year < b.year || (a.year == b.year && (a.month < b.month || (a.month == b.month && a.day < b.day)))
  }

  predicate IsLeap(y: int)
  {
    y % 4 == 0 && (y % 100 != 0 || y % 400 == 0)
  }

  function DaysIn(y: int, m: int): int
  {
    if m == 2 then (if IsLeap(y) then 29 else 28)
    else if m == 4 || m == 6 || m == 9 || m == 11 then 30
    else 31
  }

  /** A date `datetime` accepts (the year has four digits, so it is at most 9999). */
  predicate ValidDate(d: Date)
  {
    1 <= d.year && 1 <= d.month <= 12 && 1 <= d.day <= DaysIn(d.year, d.month)
  }

  /** The year, month and day an eight-digit stamp spells. */
  function StampFields(stamp: string): Date
    requires |stamp| == 8 && IsDigits(stamp)
  {
    Date(DigitsValue(stamp[..4]), DigitsValue(stamp[4..6]), DigitsValue(stamp[6..]))
  }

  /**
    `strptime(stamp, "%Y%m%d")` on eight digits: month and day must take two
    digits each for the whole stamp to be consumed, which leaves exactly the
    calendar dates; anything else raises ValueError (whose text, which
    names the stamp, is not modelled word for word).
  */
  function ParseDate(stamp: string): (r: Result<Date, Exception>)
    requires |stamp| == 8 && IsDigits(stamp)
    ensures r.Success? ==> ValidDate(r.value) && r.value == StampFields(stamp)
    ensures r.Failure? ==> r.error.ValueError? && !ValidDate(StampFields(stamp))
  {
    var d := StampFields(stamp);
    if ValidDate(d) then Success(d) else Failure(ValueError(stamp))
  }

  /** The stamp read as one number: year, month, day with two digits each for the last two. */
  lemma {:induction false} StampValue(stamp: string)
    requires |stamp| == 8 && IsDigits(stamp)
    ensures var d := StampFields(stamp);
      DigitsValue(stamp) == d.year * 10000 + d.month * 100 + d.day && d.month < 100 && d.day < 100
  {
    var y, m, dd := stamp[..4], stamp[4..6], stamp[6..];
    assert stamp == (y + m) + dd;
    assert y + m == stamp[..6];
    DigitsValueConcat(y, m);
    DigitsValueConcat(y + m, dd);
    DigitsValueBound(m);
    DigitsValueBound(dd);
    assert Pow10(2) == 100;
  }

  /**
    Comparing parsed dates is comparing the stamps as numbers, so the newest
    log is the one with the greatest stamp.
  */
  lemma LaterStampLaterDate(s: string, t: string)
    requires |s| == 8 && IsDigits(s) && |t| == 8 && IsDigits(t)
    ensures Before(StampFields(s), StampFields(t)) <==> DigitsValue(s) < DigitsValue(t)
  {
    StampValue(s);
    StampValue(t);
  }

  // ---- find_latest_log ----

  /** A directory entry: its name and whether it is a regular file. */
  datatype Entry = Entry(name: string, isFile: bool)

  /** `LogFileInfo`: the chosen file (by name), its date and whether it is gzipped. */
  datatype LogFileInfo = LogFileInfo(name: string, date: Date, isGzip: bool)

  predicate EndsWith(s: string, suffix: string)
  {
    |suffix| <= |s| && s[|s| - |suffix|..] == suffix
  }

  /** An entry the loop looks at: a regular file whose name matches. */
  predicate IsLog(e: Entry)
  {
    e.isFile && MatchLogName(e.name).Some?
  }

  function StampDate(e: Entry): Result<Date, Exception>
    requires IsLog(e)
  {
    ParseDate(MatchLogName(e.name).value)
  }

  /** One iteration of the loop, on the best log so far. */
  function Consider(latest: Option<LogFileInfo>, e: Entry): (r: Result<Option<LogFileInfo>, Exception>)
    ensures r.Failure? <==> IsLog(e) && StampDate(e).Failure?
    ensures r.Success? && r.value != latest ==> r.value.Some? && IsLog(e) && r.value.value.name == e.name
    ensures r.Success? && latest.Some? ==> r.value.Some?
    ensures r.Success? && r.value.Some? && r.value != latest ==> r.value.value.isGzip == EndsWith(e.name, ".gz")
  {
    if !IsLog(e) then Success(latest)
    else match StampDate(e)
      case Failure(x) => Failure(x)
      case Success(d) =>
        if latest.None? || Before(latest.value.date, d) then Success(Some(LogFileInfo(e.name, d, EndsWith(e.name, ".gz"))))
        else Success(latest)
  }

  /** The loop over the directory's entries, in the order the directory lists them. */
  function Latest(entries: seq<Entry>): (r: Result<Option<LogFileInfo>, Exception>)
    ensures r.Success? && r.value.Some? ==> r.value.value.isGzip == EndsWith(r.value.value.name, ".gz")
  {
    if entries == [] then Success(None)
    else match Latest(entries[..|entries| - 1])
      case Failure(x) => Failure(x)
      case Success(latest) => Consider(latest, entries[|entries| - 1])
  }

  /**
    `find_latest_log`: `dir` is the directory's listing, or None when the
    path is missing or not a directory.
  */
  method FindLatestLog(dir: Option<seq<Entry>>) returns (r: Result<Option<LogFileInfo>, Exception>)
    ensures r == if dir.None? then Success(None) else Latest(dir.value)
  {
    var latest: Option<LogFileInfo> := None;
    if dir.None? {
      return Success(None);
    }
    var entries := dir.value;
    var i := 0;
    while i < |entries|
      invariant 0 <= i <= |entries|
      invariant Latest(entries[..i]) == Success(latest)
    {
      var entry := entries[i];
      assert entries[..i + 1][..i] == entries[..i];
      if !entry.isFile {
        i := i + 1;
        continue;
      }
      var m := MatchLogName(entry.name);
      if m.None? {
        i := i + 1;
        continue;
      }
      var logDate := ParseDate(m.value);
      if logDate.Failure? {
        FailureSticks(entries, i + 1);
        return Failure(logDate.error);
      }
      var isGzip := EndsWith(entry.name, ".gz");
      if latest.None? || Before(latest.value.date, logDate.value) {
        latest := Some(LogFileInfo(entry.name, logDate.value, isGzip));
      }
      i := i + 1;
    }
    assert entries[..i] == entries;
    return Success(latest);
  }

  /** No log is found exactly when no regular file has a matching name. */
  lemma {:induction false} NoneIffNoLog(entries: seq<Entry>)
    ensures Latest(entries) == Success(None) <==> forall k :: 0 <= k < |entries| ==> !IsLog(entries[k])
  {
    if entries != [] {
      var init := entries[..|entries| - 1];
      NoneIffNoLog(init);
      assert forall k :: 0 <= k < |init| ==> init[k] == entries[k];
    }
  }

  /** The search fails exactly when some matching regular file carries an impossible date. */
  lemma {:induction false} FailsIffBadStamp(entries: seq<Entry>)
    ensures Latest(entries).Failure? <==> exists k :: 0 <= k < |entries| && IsLog(entries[k]) && StampDate(entries[k]).Failure?
    ensures Latest(entries).Failure? ==> Latest(entries).error.ValueError?
  {
    if entries != [] {
      var init := entries[..|entries| - 1];
      FailsIffBadStamp(init);
      assert forall k :: 0 <= k < |init| ==> init[k] == entries[k];
    }
  }

  /** Once a stamp fails to parse, the rest of the listing is never looked at. */
  lemma {:induction false} FailureSticks(entries: seq<Entry>, i: nat)
    requires i <= |entries| && Latest(entries[..i]).Failure?
    ensures Latest(entries) == Latest(entries[..i])
    decreases |entries| - i
  {
    if i < |entries| {
      assert entries[..i + 1][..i] == entries[..i];
      FailureSticks(entries, i + 1);
    } else {
      assert entries[..i] == entries;
    }
  }

  /** Entry `k` is a log whose name, date and gzip flag are those of `info`. */
  predicate ChosenAt(entries: seq<Entry>, k: int, info: LogFileInfo)
  {
    0 <= k < |entries| && IsLog(entries[k]) && entries[k].name == info.name
    && StampDate(entries[k]) == Success(info.date)
    && info.isGzip == EndsWith(info.name, ".gz")
  }

  /** No log among the first `n` entries is dated after `date`. */
  predicate NoneLater(entries: seq<Entry>, n: int, date: Date)
    requires 0 <= n <= |entries|
  {
    forall j :: 0 <= j < n && IsLog(entries[j]) && StampDate(entries[j]).Success? ==>
      !Before(date, StampDate(entries[j]).value)
  }

  /** Every log among the first `n` entries is dated before `date`. */
  predicate AllEarlier(entries: seq<Entry>, n: int, date: Date)
    requires 0 <= n <= |entries|
  {
    forall j :: 0 <= j < n && IsLog(entries[j]) && StampDate(entries[j]).Success? ==>
      Before(StampDate(entries[j]).value, date)
  }

  /** `Before` is a strict total order. */
  lemma BeforeOrder(a: Date, b: Date, c: Date)
    ensures !Before(a, a)
    ensures Before(a, b) ==> !Before(b, a)
    ensures !Before(a, b) && Before(a, c) ==> Before(b, c)
  {
  }

  /** When one step changes the best log, it takes the entry it looked at, which is newer. */
  lemma ConsiderPicks(latest: Option<LogFileInfo>, e: Entry, info: LogFileInfo)
    requires Consider(latest, e) == Success(Some(info)) && latest != Some(info)
    ensures IsLog(e) && e.name == info.name && StampDate(e) == Success(info.date)
    ensures info.isGzip == EndsWith(info.name, ".gz")
    ensures latest.Some? ==> Before(latest.value.date, info.date)
  {
  }

  /** The first log found is chosen, and is not beaten by any earlier entry, none being a log. */
  lemma FirstLogChosen(entries: seq<Entry>, info: LogFileInfo)
    requires |entries| > 0 && forall j :: 0 <= j < |entries| - 1 ==> !IsLog(entries[j])
    requires Consider(None, entries[|entries| - 1]) == Success(Some(info))
    ensures ChosenAt(entries, |entries| - 1, info) && NoneLater(entries, |entries|, info.date)
      && AllEarlier(entries, |entries| - 1, info.date)
  {
    ConsiderPicks(None, entries[|entries| - 1], info);
    BeforeOrder(info.date, info.date, info.date);
  }

  /** A later log replaces the best so far, which beat everything before it. */
  lemma NewerLogChosen(entries: seq<Entry>, best: LogFileInfo, info: LogFileInfo)
    requires |entries| > 0
    requires NoneLater(entries, |entries| - 1, best.date)
    requires ChosenAt(entries, |entries| - 1, info) && Before(best.date, info.date)
    ensures NoneLater(entries, |entries|, info.date) && AllEarlier(entries, |entries| - 1, info.date)
  {
    var n := |entries|;
    forall j | 0 <= j < n - 1 && IsLog(entries[j]) && StampDate(entries[j]).Success?
      ensures Before(StampDate(entries[j]).value, info.date)
    {
      BeforeOrder(best.date, StampDate(entries[j]).value, info.date);
    }
    forall j | 0 <= j < n && IsLog(entries[j]) && StampDate(entries[j]).Success?
      ensures !Before(info.date, StampDate(entries[j]).value)
    {
      var d := StampDate(entries[j]).value;
      BeforeOrder(d, info.date, d);
    }
  }

  /** A log that is not newer leaves the best so far in place. */
  lemma OlderLogSkipped(entries: seq<Entry>, k: nat, best: LogFileInfo)
    requires |entries| > 0 && k < |entries| - 1
    requires var init := entries[..|entries| - 1];
      ChosenAt(init, k, best) && NoneLater(init, |init|, best.date) && AllEarlier(init, k, best.date)
    requires var last := entries[|entries| - 1];
      !IsLog(last) || StampDate(last).Failure? || !Before(best.date, StampDate(last).value)
    ensures ChosenAt(entries, k, best) && NoneLater(entries, |entries|, best.date) && AllEarlier(entries, k, best.date)
  {
    var init := entries[..|entries| - 1];
    assert forall j :: 0 <= j < |init| ==> init[j] == entries[j];
  }

  /**
    The log found is one of the matching regular files: its date is its
    stamp, `is_gzip` tells whether its name ends in `.gz`, no log has a later
    date, and every log listed before it has an earlier one (the first of
    equal dates wins).
  */
  lemma {:induction false} LatestIsNewest(entries: seq<Entry>)
    requires Latest(entries).Success? && Latest(entries).value.Some?
    ensures var info := Latest(entries).value.value;
      exists k :: ChosenAt(entries, k, info) && NoneLater(entries, |entries|, info.date) && AllEarlier(entries, k, info.date)
  {
    var n := |entries|;
    var init := entries[..n - 1];
    var prev := Latest(init);
    var info := Latest(entries).value.value;
    if prev.value.None? {
      NoneIffNoLog(init);
      assert forall j :: 0 <= j < n - 1 ==> init[j] == entries[j];
      FirstLogChosen(entries, info);
    } else {
      LatestIsNewest(init);
      var best := prev.value.value;
      var k :| ChosenAt(init, k, best) && NoneLater(init, n - 1, best.date) && AllEarlier(init, k, best.date);
      if info == best && !(IsLog(entries[n - 1]) && StampDate(entries[n - 1]).Success? && Before(best.date, StampDate(entries[n - 1]).value)) {
        OlderLogSkipped(entries, k, best);
      } else {
        assert forall j :: 0 <= j < n - 1 ==> init[j] == entries[j];
        NewerLogChosen(entries, best, info);
      }
    }
  }
}
