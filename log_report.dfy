/**
  `build_report_rows` (01/src/log_analyzer/analyzer.py): one row per URL
  bucket, sorted by `time_sum` from largest to smallest with Python's stable
  sort, then cut to `report_size` with Python slice semantics.
*/
module LogReport {
  import opened Base
  import opened Dicts
  import opened LogStats

  /** A report row; the median column is not modelled. */
  datatype ReportRow = ReportRow(
    url: string, count: int, countPerc: real, timeSum: real, timePerc: real, timeAvg: real, timeMax: real)

  /** The row for one URL: its bucket's figures and the shares of the totals (0.0 when a total is 0). */
  function RowOf(url: string, data: UrlStats, totalCount: int, totalTime: real): (row: ReportRow)
    ensures row.url == url && row.count == data.count && row.timeSum == data.timeSum && row.timeMax == data.timeMax
    ensures data.count != 0 ==> row.timeAvg * data.count as real == data.timeSum
    ensures totalCount != 0 ==> row.countPerc * totalCount as real == data.count as real * 100.0
    ensures totalTime != 0.0 ==> row.timePerc * totalTime == data.timeSum * 100.0
    ensures data.count == 0 ==> row.timeAvg == 0.0
    ensures totalCount == 0 ==> row.countPerc == 0.0
    ensures totalTime == 0.0 ==> row.timePerc == 0.0
  {
    ReportRow(
      url, data.count,
      if totalCount != 0 then data.count as real * 100.0 / totalCount as real else 0.0,
      data.timeSum,
      if totalTime != 0.0 then data.timeSum * 100.0 / totalTime else 0.0,
      if data.count != 0 then data.timeSum / data.count as real else 0.0,
      data.timeMax)
  }

  /** The rows of `stats`, in its order. */
  function RowsOf(stats: Dict<string, UrlStats>, totalCount: int, totalTime: real): (rows: seq<ReportRow>)
    ensures |rows| == |stats|
    ensures forall i :: 0 <= i < |stats| ==> rows[i] == RowOf(stats[i].0, stats[i].1, totalCount, totalTime)
  {
    seq(|stats|, i requires 0 <= i < |stats| => RowOf(stats[i].0, stats[i].1, totalCount, totalTime))
  }

  // ---- Stable sort by time_sum, largest first ----

  predicate SortedDesc(rows: seq<ReportRow>)
  {
    forall i, j :: 0 <= i < j < |rows| ==> rows[i].timeSum >= rows[j].timeSum
  }

  /** Put `x` after every row whose `time_sum` is at least its own. */
  function Insert(x: ReportRow, rows: seq<ReportRow>): (r: seq<ReportRow>)
    ensures multiset(r) == multiset(rows) + multiset{x}
    ensures |r| == |rows| + 1
    ensures r[0] == x || (rows != [] && r[0] == rows[0])
  {
    if rows == [] then [x]
    else if rows[0].timeSum < x.timeSum then [x] + rows
    else
      assert rows == [rows[0]] + rows[1..];
      [rows[0]] + Insert(x, rows[1..])
  }

  /** Inserting keeps rows sorted. */
  lemma {:induction false} InsertSorted(x: ReportRow, rows: seq<ReportRow>)
    requires SortedDesc(rows)
    ensures SortedDesc(Insert(x, rows))
  {
    if rows == [] {
    } else if rows[0].timeSum < x.timeSum {
      SortedCons(x, rows);
    } else {
      var tail := rows[1..];
      assert SortedDesc(tail);
      InsertSorted(x, tail);
      var rest := Insert(x, tail);
      assert rest[0] == x || rest[0] == rows[1];
      SortedCons(rows[0], rest);
    }
  }

  /** A row no smaller than the head of sorted rows can go in front of them. */
  lemma SortedCons(a: ReportRow, rows: seq<ReportRow>)
    requires SortedDesc(rows)
    requires rows != [] ==> a.timeSum >= rows[0].timeSum
    ensures SortedDesc([a] + rows)
  {
    var r := [a] + rows;
    forall i, j | 0 <= i < j < |r| ensures r[i].timeSum >= r[j].timeSum {
      if i == 0 {
        assert r[j] == rows[j - 1];
        assert rows[0].timeSum >= rows[j - 1].timeSum || j == 1;
      } else {
        assert r[i] == rows[i - 1] && r[j] == rows[j - 1];
      }
    }
  }

  /** Python's stable sort, largest `time_sum` first. */
  function SortDesc(rows: seq<ReportRow>): (r: seq<ReportRow>)
    ensures SortedDesc(r)
    ensures multiset(r) == multiset(rows)
    ensures |r| == |rows|
  {
    if rows == [] then []
    else
      var init := rows[..|rows| - 1];
      assert rows == init + [rows[|rows| - 1]];
      InsertSorted(rows[|rows| - 1], SortDesc(init));
      Insert(rows[|rows| - 1], SortDesc(init))
  }

  /** `[row]` when its `time_sum` is `k`, else nothing. */
  function Tag(row: ReportRow, k: real): seq<ReportRow>
  {
    if row.timeSum == k then [row] else []
  }

  /** The rows with `time_sum == k`, in order. */
  function WithTimeSum(rows: seq<ReportRow>, k: real): seq<ReportRow>
  {
    if rows == [] then [] else Tag(rows[0], k) + WithTimeSum(rows[1..], k)
  }

  lemma {:induction false} WithTimeSumConcat(a: seq<ReportRow>, b: seq<ReportRow>, k: real)
    ensures WithTimeSum(a + b, k) == WithTimeSum(a, k) + WithTimeSum(b, k)
  {
    if a == [] {
      assert a + b == b;
    } else {
      assert (a + b)[1..] == a[1..] + b;
      WithTimeSumConcat(a[1..], b, k);
    }
  }

  /** Inserting into sorted rows puts `x` after every row with its `time_sum`. */
  lemma {:induction false} InsertStable(x: ReportRow, rows: seq<ReportRow>, k: real)
    requires SortedDesc(rows)
    ensures WithTimeSum(Insert(x, rows), k) == WithTimeSum(rows, k) + Tag(x, k)
    decreases |rows|, 1
  {
    if rows == [] {
      WithTimeSumCons(x, [], k);
    } else if rows[0].timeSum < x.timeSum {
      WithTimeSumCons(x, rows, k);
      if x.timeSum == k {
        NoneEqual(rows, k);
      }
    } else {
      InsertBehind(x, rows, k);
    }
  }

  lemma {:induction false} InsertBehind(x: ReportRow, rows: seq<ReportRow>, k: real)
    requires SortedDesc(rows) && rows != [] && rows[0].timeSum >= x.timeSum
    ensures WithTimeSum(Insert(x, rows), k) == WithTimeSum(rows, k) + Tag(x, k)
    decreases |rows|, 0
  {
    var head, tail := rows[0], rows[1..];
    var rest := Insert(x, tail);
    assert Insert(x, rows) == [head] + rest;
    assert SortedDesc(tail);
    InsertStable(x, tail, k);
    WithTimeSumCons(head, rest, k);
    Seqs.ConsTail(rows);
    WithTimeSumCons(head, tail, k);
    AppendAssoc(Tag(head, k), WithTimeSum(tail, k), Tag(x, k));
  }

  lemma WithTimeSumCons(a: ReportRow, rows: seq<ReportRow>, k: real)
    ensures WithTimeSum([a] + rows, k) == Tag(a, k) + WithTimeSum(rows, k)
  {
    assert ([a] + rows)[1..] == rows;
  }

  lemma AppendAssoc(a: seq<ReportRow>, b: seq<ReportRow>, c: seq<ReportRow>)
    ensures a + (b + c) == (a + b) + c
  {
  }

  /** Sorted rows that start below `k` hold no row equal to `k`. */
  lemma {:induction false} NoneEqual(rows: seq<ReportRow>, k: real)
    requires SortedDesc(rows) && rows != [] && rows[0].timeSum < k
    ensures WithTimeSum(rows, k) == []
  {
    if |rows| > 1 {
      assert SortedDesc(rows[1..]);
      NoneEqual(rows[1..], k);
    }
  }

  /** The sort is stable: rows with equal `time_sum` keep their order. */
  lemma {:induction false} SortStable(rows: seq<ReportRow>, k: real)
    ensures WithTimeSum(SortDesc(rows), k) == WithTimeSum(rows, k)
  {
    if rows != [] {
      var init, last := rows[..|rows| - 1], rows[|rows| - 1];
      var sorted := SortDesc(init);
      SortDescStep(rows);
      SortStable(init, k);
      InsertStable(last, sorted, k);
      WithTimeSumLast(rows, k);
    }
  }

  lemma SortDescStep(rows: seq<ReportRow>)
    requires rows != []
    ensures SortDesc(rows) == Insert(rows[|rows| - 1], SortDesc(rows[..|rows| - 1]))
  {
  }

  lemma WithTimeSumLast(rows: seq<ReportRow>, k: real)
    requires rows != []
    ensures WithTimeSum(rows, k) == WithTimeSum(rows[..|rows| - 1], k) + Tag(rows[|rows| - 1], k)
  {
    var init, last := rows[..|rows| - 1], rows[|rows| - 1];
    assert rows == init + [last];
    WithTimeSumConcat(init, [last], k);
    WithTimeSumCons(last, [], k);
    assert [last] + [] == [last];
  }

  // ---- rows[:report_size] ----

  /** Python's `rows[:n]`: a negative `n` counts from the end, and the slice never overruns. */
  function Head<T>(rows: seq<T>, n: int): (r: seq<T>)
    ensures |r| == if n >= 0 then (if n < |rows| then n else |rows|) else (if |rows| + n > 0 then |rows| + n else 0)
    ensures r == rows[..|r|]
  {
    if n >= 0 then (if n < |rows| then rows[..n] else rows)
    else if |rows| + n > 0 then rows[..|rows| + n] else []
  }

  // ---- build_report_rows ----

  /** `build_report_rows`: the rows, sorted, then cut to `report_size`. */
  method BuildReportRows(stats: Dict<string, UrlStats>, totalCount: int, totalTime: real, reportSize: int)
    returns (rows: seq<ReportRow>)
    ensures rows == Head(SortDesc(RowsOf(stats, totalCount, totalTime)), reportSize)
  {
    rows := [];
    for i := 0 to |stats|
      invariant rows == RowsOf(stats[..i], totalCount, totalTime)
    {
      var (url, data) := stats[i];
      rows := rows + [RowOf(url, data, totalCount, totalTime)];
    }
    assert stats[..|stats|] == stats;
    rows := SortDesc(rows);
    rows := Head(rows, reportSize);
  }

  /**
    What the report holds: at most `report_size` rows (none for a size of 0
    or below `-|stats|`), largest `time_sum` first, each row copying the
    count and sums of one URL's bucket; with room for every row, every row
    of the table is there.
  */
  lemma ReportRowsShape(stats: Dict<string, UrlStats>, totalCount: int, totalTime: real, reportSize: int)
    ensures var rows := Head(SortDesc(RowsOf(stats, totalCount, totalTime)), reportSize);
      |rows| <= |stats| && (reportSize >= 0 ==> |rows| <= reportSize)
      && SortedDesc(rows)
      && (reportSize >= |stats| ==> multiset(rows) == multiset(RowsOf(stats, totalCount, totalTime)))
      && forall r :: r in rows ==> exists i :: (0 <= i < |stats| && r.url == stats[i].0
           && r.count == stats[i].1.count && r.timeSum == stats[i].1.timeSum && r.timeMax == stats[i].1.timeMax)
  {
    var all := RowsOf(stats, totalCount, totalTime);
    var sorted := SortDesc(all);
    var rows := Head(sorted, reportSize);
    forall r | r in rows ensures exists i :: (0 <= i < |stats| && r.url == stats[i].0
      && r.count == stats[i].1.count && r.timeSum == stats[i].1.timeSum && r.timeMax == stats[i].1.timeMax)
    {
      assert r in multiset(sorted);
      var i :| 0 <= i < |all| && all[i] == r;
    }
  }

  /** No two rows share a URL. */
  predicate DistinctUrls(rows: seq<ReportRow>)
  {
    forall i, j :: 0 <= i < j < |rows| ==> rows[i].url != rows[j].url
  }

  /** Inserting a row whose URL is new keeps the URLs distinct. */
  lemma {:induction false} InsertDistinct(x: ReportRow, rows: seq<ReportRow>)
    requires DistinctUrls(rows)
    requires forall r :: r in rows ==> r.url != x.url
    ensures DistinctUrls(Insert(x, rows))
  {
    if rows != [] && rows[0].timeSum >= x.timeSum {
      var tail := rows[1..];
      assert DistinctUrls(tail) by {
        forall i, j | 0 <= i < j < |tail| ensures tail[i].url != tail[j].url {
          assert tail[i] == rows[i + 1] && tail[j] == rows[j + 1];
        }
      }
      InsertDistinct(x, tail);
      var rest := Insert(x, tail);
      var r := [rows[0]] + rest;
      assert Insert(x, rows) == r;
      forall i, j | 0 <= i < j < |r| ensures r[i].url != r[j].url {
        if i == 0 {
          assert r[j] == rest[j - 1] && rest[j - 1] in multiset(rest);
          if r[j] != x {
            var k :| 0 <= k < |tail| && tail[k] == r[j];
            assert tail[k] == rows[k + 1];
          }
        } else {
          assert r[i] == rest[i - 1] && r[j] == rest[j - 1];
        }
      }
    } else if rows != [] {
      var r := [x] + rows;
      forall i, j | 0 <= i < j < |r| ensures r[i].url != r[j].url {
        if i == 0 {
          assert r[j] == rows[j - 1] && r[j] in rows;
        } else {
          assert r[i] == rows[i - 1] && r[j] == rows[j - 1];
        }
      }
    }
  }

  /** Sorting keeps distinct URLs distinct. */
  lemma {:induction false} SortDescDistinct(rows: seq<ReportRow>)
    requires DistinctUrls(rows)
    ensures DistinctUrls(SortDesc(rows))
  {
    if rows != [] {
      var init, last := rows[..|rows| - 1], rows[|rows| - 1];
      assert DistinctUrls(init) by {
        forall i, j | 0 <= i < j < |init| ensures init[i].url != init[j].url {
          assert init[i] == rows[i] && init[j] == rows[j];
        }
      }
      SortDescDistinct(init);
      var sorted := SortDesc(init);
      forall r | r in sorted ensures r.url != last.url {
        assert r in multiset(init);
        var k :| 0 <= k < |init| && init[k] == r;
        assert rows[k] == r;
      }
      SortDescStep(rows);
      InsertDistinct(last, sorted);
    }
  }

  /** A table with distinct URLs gives a report with at most one row per URL. */
  lemma ReportRowsDistinct(stats: Dict<string, UrlStats>, totalCount: int, totalTime: real, reportSize: int)
    requires DistinctKeys(stats)
    ensures var rows := Head(SortDesc(RowsOf(stats, totalCount, totalTime)), reportSize);
      forall i, j :: 0 <= i < j < |rows| ==> rows[i].url != rows[j].url
  {
    var all := RowsOf(stats, totalCount, totalTime);
    assert DistinctUrls(all) by {
      forall i, j | 0 <= i < j < |all| ensures all[i].url != all[j].url {
        assert all[i].url == stats[i].0 && all[j].url == stats[j].0;
      }
    }
    SortDescDistinct(all);
    var sorted := SortDesc(all);
    var rows := Head(sorted, reportSize);
    assert rows == sorted[..|rows|];
    forall i, j | 0 <= i < j < |rows| ensures rows[i].url != rows[j].url {
      assert rows[i] == sorted[i] && rows[j] == sorted[j];
    }
  }

  /** The first row has the largest `time_sum` of all buckets. */
  lemma FirstRowIsSlowest(stats: Dict<string, UrlStats>, totalCount: int, totalTime: real, reportSize: int)
    requires reportSize > 0 && |stats| > 0
    ensures var rows := Head(SortDesc(RowsOf(stats, totalCount, totalTime)), reportSize);
      rows != [] && forall i :: 0 <= i < |stats| ==> rows[0].timeSum >= stats[i].1.timeSum
  {
    var all := RowsOf(stats, totalCount, totalTime);
    var sorted := SortDesc(all);
    forall i | 0 <= i < |stats| ensures sorted[0].timeSum >= stats[i].1.timeSum {
      assert all[i] in multiset(sorted);
      var j :| 0 <= j < |sorted| && sorted[j] == all[i];
    }
  }
}
