/** CleanupScheduler's hourly `cleanupOldData`: drop history rows and
    connection-log rows older than 48 hours, then cap every (host, metric)
    series at its newest 2880 rows. */
module Cleanup {
  import opened Domain
  import opened HistoryRepository

  const RetentionSeconds: int := 48 * 3600
  const MaxRecordsPerMetric: nat := 2880

  /** The rows of one (host, metric) series. */
  function PairRows(rows: seq<HistoryRow>, host: int, metricKey: string): set<HistoryRow>
  {
    set y | y in rows && OfPair(y, host, metricKey)
  }

  /** The rows of `x`'s series that are strictly newer than `x`. */
  function NewerOfPair(rows: seq<HistoryRow>, x: HistoryRow): set<HistoryRow>
  {
    set y | y in rows && OfPair(y, x.host, x.metric) && y.ts > x.ts
  }

  /** `enforceCountBasedRetention(max)`: a row stays when fewer than `max`
      rows of its series are newer than it. */
  function KeepNewest(rows: seq<HistoryRow>, max: nat): (r: seq<HistoryRow>)
    ensures forall x :: x in r <==> x in rows && |NewerOfPair(rows, x)| < max
    ensures UniqueKeys(rows) ==> UniqueKeys(r)
  {
    FilterRows(rows, (x: HistoryRow) => |NewerOfPair(rows, x)| < max)
  }

  /** The number of rows of a series, duplicates counted. */
  function CountOfPair(rows: seq<HistoryRow>, host: int, metricKey: string): nat
  {
    if rows == [] then 0
    else (if OfPair(rows[0], host, metricKey) then 1 else 0) + CountOfPair(rows[1..], host, metricKey)
  }

  /** Under unique primary keys counting rows and counting distinct rows agree. */
  lemma {:induction false} CountIsPairSize(rows: seq<HistoryRow>, host: int, metricKey: string)
    requires UniqueKeys(rows)
    ensures CountOfPair(rows, host, metricKey) == |PairRows(rows, host, metricKey)|
  {
    if rows != [] {
      var x := rows[0];
      var rest := rows[1..];
      assert rows == [x] + rest;
      UniqueKeysCons(x, rest);
      CountIsPairSize(rest, host, metricKey);
      assert x !in rest;
      if OfPair(x, host, metricKey) {
        assert PairRows(rows, host, metricKey) == PairRows(rest, host, metricKey) + {x};
      } else {
        assert PairRows(rows, host, metricKey) == PairRows(rest, host, metricKey);
      }
    }
  }

  lemma SameKeySameRow(rows: seq<HistoryRow>, a: HistoryRow, b: HistoryRow)
    requires UniqueKeys(rows) && a in rows && b in rows && KeyOf(a) == KeyOf(b)
    ensures a == b
  {
    var i :| 0 <= i < |rows| && rows[i] == a;
    var j :| 0 <= j < |rows| && rows[j] == b;
  }

  /** A row of least timestamp in a non-empty set. */
  lemma Oldest(k: set<HistoryRow>) returns (x: HistoryRow)
    requires k != {}
    ensures x in k && forall y :: y in k ==> x.ts <= y.ts
  {
    var y :| y in k;
    if k == {y} {
      x := y;
    } else {
      var m := Oldest(k - {y});
      x := if y.ts < m.ts then y else m;
    }
  }

  lemma SubsetSize(a: set<HistoryRow>, b: set<HistoryRow>)
    requires a <= b
    ensures |a| <= |b|
  {
    assert b == a + (b - a);
  }

  /** After the cap no series has more than `max` rows. */
  lemma KeepNewestCapsEverySeries(rows: seq<HistoryRow>, max: nat, host: int, metricKey: string)
    requires UniqueKeys(rows)
    ensures |PairRows(KeepNewest(rows, max), host, metricKey)| <= max
  {
    var kept := PairRows(KeepNewest(rows, max), host, metricKey);
    if kept != {} {
      var oldest := Oldest(kept);
      var newer := NewerOfPair(rows, oldest);
      forall y | y in kept - {oldest} ensures y in newer {
        if y.ts == oldest.ts {
          SameKeySameRow(rows, y, oldest);
        }
      }
      SubsetSize(kept - {oldest}, newer);
    }
  }

  /** The rows kept are the newest of their series: every dropped row is
      older than every kept row of the same series. */
  lemma KeptRowsAreTheNewest(rows: seq<HistoryRow>, max: nat, kept: HistoryRow, dropped: HistoryRow)
    requires UniqueKeys(rows)
    requires kept in KeepNewest(rows, max)
    requires dropped in rows && dropped !in KeepNewest(rows, max)
    requires OfPair(dropped, kept.host, kept.metric)
    ensures dropped.ts < kept.ts
  {
    if dropped.ts == kept.ts {
      SameKeySameRow(rows, dropped, kept);
    } else if dropped.ts > kept.ts {
      var a := NewerOfPair(rows, dropped);
      var b := NewerOfPair(rows, kept);
      assert a + {dropped} <= b;
      SubsetSize(a + {dropped}, b);
    }
  }

  /** A series with at most `max` rows loses none of them. */
  lemma ShortSeriesKeptWhole(rows: seq<HistoryRow>, max: nat, x: HistoryRow)
    requires x in rows && |PairRows(rows, x.host, x.metric)| <= max
    ensures x in KeepNewest(rows, max)
  {
    var series := PairRows(rows, x.host, x.metric);
    assert NewerOfPair(rows, x) <= series - {x};
    SubsetSize(NewerOfPair(rows, x), series - {x});
  }

  /** Capping twice caps once. */
  lemma KeepNewestIdempotent(rows: seq<HistoryRow>, max: nat)
    ensures KeepNewest(KeepNewest(rows, max), max) == KeepNewest(rows, max)
  {
    var kept := KeepNewest(rows, max);
    forall x | x in kept ensures |NewerOfPair(kept, x)| < max {
      SubsetSize(NewerOfPair(kept, x), NewerOfPair(rows, x));
    }
  }

  /** `ZabbixConnectionStatusRepository.deleteOlderThan(cutoff)`. */
  function DeleteConnOlderThan(log: seq<ConnRow>, cutoff: int): (r: seq<ConnRow>)
    ensures forall c :: c in r <==> c in log && c.ts >= cutoff
    ensures (forall c :: c in log ==> c.ts >= cutoff) ==> r == log
  {
    if log == [] then []
    else
      var rest := DeleteConnOlderThan(log[1..], cutoff);
      assert forall c :: c in log <==> c == log[0] || c in log[1..];
      if log[0].ts >= cutoff then [log[0]] + rest else rest
  }

  /** `cleanupOldData` at time `now`: hosts, text values and events are left
      alone; no history or connection row older than 48 hours survives;
      history rows only go, never appear. */
  function CleanupOldData(s: Store, now: int): (r: Store)
    ensures r.hosts == s.hosts && r.texts == s.texts && r.events == s.events
    ensures forall x :: x in r.history ==> x in s.history && x.ts >= now - RetentionSeconds
    ensures forall c :: c in r.connLog <==> c in s.connLog && c.ts >= now - RetentionSeconds
    ensures UniqueKeys(s.history) ==> UniqueKeys(r.history)
  {
    var cutoff := now - RetentionSeconds;
    var recent := DeleteOlderThan(s.history, cutoff);
    s.(history := KeepNewest(recent, MaxRecordsPerMetric), connLog := DeleteConnOlderThan(s.connLog, cutoff))
  }

  /** After cleanup every series has at most 2880 rows. */
  lemma CleanupCapsEverySeries(s: Store, now: int, host: int, metricKey: string)
    requires UniqueKeys(s.history)
    ensures CountOfPair(CleanupOldData(s, now).history, host, metricKey) <= MaxRecordsPerMetric
  {
    var recent := DeleteOlderThan(s.history, now - RetentionSeconds);
    KeepNewestCapsEverySeries(recent, MaxRecordsPerMetric, host, metricKey);
    CountIsPairSize(CleanupOldData(s, now).history, host, metricKey);
  }

  /** A history row within the 48 hours survives exactly when fewer than 2880
      rows of its series within the 48 hours are newer. */
  lemma CleanupKeepsRecentNewest(s: Store, now: int, x: HistoryRow)
    requires x in s.history && x.ts >= now - RetentionSeconds
    ensures x in CleanupOldData(s, now).history <==>
              |NewerOfPair(DeleteOlderThan(s.history, now - RetentionSeconds), x)| < MaxRecordsPerMetric
  {
  }

  /** A second cleanup at the same instant changes nothing. */
  lemma CleanupIdempotent(s: Store, now: int)
    ensures CleanupOldData(CleanupOldData(s, now), now) == CleanupOldData(s, now)
  {
    var once := CleanupOldData(s, now);
    var cutoff := now - RetentionSeconds;
    assert DeleteOlderThan(once.history, cutoff) == once.history;
    KeepNewestIdempotent(DeleteOlderThan(s.history, cutoff), MaxRecordsPerMetric);
    assert DeleteConnOlderThan(once.connLog, cutoff) == once.connLog;
  }
}
