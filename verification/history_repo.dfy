/** MetricHistoryRepository over the metric_history table, modelled as a
    sequence of rows whose primary key is (host, metric, timestamp). */
module HistoryRepository {
  import opened Wrappers
  import opened Domain
  import opened Sorting

  // ---------------------------------------------------------------------
  // Writes

  /** Position of the row with primary key `k`, if any. */
  function IndexOfKey(rows: seq<HistoryRow>, k: HistoryKey): (r: Option<nat>)
    ensures r.None? <==> forall i :: 0 <= i < |rows| ==> KeyOf(rows[i]) != k
    ensures r.Some? ==> r.value < |rows| && KeyOf(rows[r.value]) == k
  {
    if rows == [] then None
    else if KeyOf(rows[0]) == k then Some(0)
    else
      var r := IndexOfKey(rows[1..], k);
      if r.Some? then Some(r.value + 1) else None
  }

  /** `save` of one entity with an assigned composite id: JPA merges it, so a
      row with the same key is overwritten and otherwise the row is added. */
  function Save(rows: seq<HistoryRow>, row: HistoryRow): (r: seq<HistoryRow>)
    ensures UniqueKeys(rows) ==> UniqueKeys(r)
    ensures row in r
    ensures forall x :: x in r ==> x == row || x in rows
    ensures forall x :: x in rows && KeyOf(x) != KeyOf(row) ==> x in r
  {
    match IndexOfKey(rows, KeyOf(row))
    case Some(i) =>
      var r := rows[i := row];
      assert r[i] == row;
      assert UniqueKeys(rows) ==> UniqueKeys(r) by {
        if UniqueKeys(rows) {
          forall a, b | 0 <= a < |r| && 0 <= b < |r| && a != b ensures KeyOf(r[a]) != KeyOf(r[b]) {
            if a != i && b != i {
              assert r[a] == rows[a] && r[b] == rows[b];
            } else if a == i {
              assert r[b] == rows[b];
            } else {
              assert r[a] == rows[a];
            }
          }
        }
      }
      assert forall x :: x in rows && KeyOf(x) != KeyOf(row) ==> x in r by {
        forall x | x in rows && KeyOf(x) != KeyOf(row) ensures x in r {
          var k :| 0 <= k < |rows| && rows[k] == x;
          assert r[k] == x;
        }
      }
      r
    case None =>
      var r := rows + [row];
      assert UniqueKeys(rows) ==> UniqueKeys(r) by {
        if UniqueKeys(rows) {
          forall a, b | 0 <= a < |r| && 0 <= b < |r| && a != b ensures KeyOf(r[a]) != KeyOf(r[b]) {
          }
        }
      }
      r
  }

  /** `saveAll`: the batch saved one row after another. */
  function SaveAll(rows: seq<HistoryRow>, batch: seq<HistoryRow>): (r: seq<HistoryRow>)
    ensures UniqueKeys(rows) ==> UniqueKeys(r)
    ensures forall x :: x in r ==> x in batch || x in rows
    ensures forall x :: x in rows && (forall b :: b in batch ==> KeyOf(b) != KeyOf(x)) ==> x in r
    ensures UniqueKeys(batch) ==> forall b :: b in batch ==> b in r
    decreases |batch|
  {
    if batch == [] then rows
    else
      var next := Save(rows, batch[0]);
      var r := SaveAll(next, batch[1..]);
      assert forall b :: b in batch[1..] ==> b in batch;
      assert UniqueKeys(batch) ==> batch[0] in r by {
        if UniqueKeys(batch) {
          UniqueKeysCons(batch[0], batch[1..]);
          assert batch == [batch[0]] + batch[1..];
        }
      }
      assert UniqueKeys(batch) ==> UniqueKeys(batch[1..]) by {
        assert batch == [batch[0]] + batch[1..];
        UniqueKeysCons(batch[0], batch[1..]);
      }
      r
  }

  /** The rows for which `keep` holds, in their original order. */
  function FilterRows(rows: seq<HistoryRow>, keep: HistoryRow -> bool): (r: seq<HistoryRow>)
    ensures forall x :: x in r <==> x in rows && keep(x)
    ensures |r| <= |rows|
    ensures UniqueKeys(rows) ==> UniqueKeys(r)
    ensures (forall x :: x in rows ==> keep(x)) ==> r == rows
  {
    if rows == [] then []
    else
      var rest := FilterRows(rows[1..], keep);
      assert rows == [rows[0]] + rows[1..];
      UniqueKeysCons(rows[0], rows[1..]);
      if keep(rows[0]) then
        UniqueKeysCons(rows[0], rest);
        [rows[0]] + rest
      else rest
  }

  /** `deleteOlderThan(cutoff)`: exactly the rows stamped before the cutoff go. */
  function DeleteOlderThan(rows: seq<HistoryRow>, cutoff: int): (r: seq<HistoryRow>)
    ensures forall x :: x in r <==> x in rows && x.ts >= cutoff
    ensures UniqueKeys(rows) ==> UniqueKeys(r)
    ensures (forall x :: x in rows ==> x.ts >= cutoff) ==> r == rows
  {
    FilterRows(rows, (x: HistoryRow) => x.ts >= cutoff)
  }

  // ---------------------------------------------------------------------
  // Queries

  predicate OfPair(x: HistoryRow, host: int, metricKey: string)
  {
    x.host == host && x.metric == metricKey
  }

  /** `findFirstByHostIdAndMetricMetricKeyOrderByTimestampDesc`: a newest row of
      the pair, or none when the pair has no rows. */
  function Latest(rows: seq<HistoryRow>, host: int, metricKey: string): (r: Option<HistoryRow>)
    ensures r.None? <==> forall x :: x in rows ==> !OfPair(x, host, metricKey)
    ensures r.Some? ==> r.value in rows && OfPair(r.value, host, metricKey)
    ensures r.Some? ==> forall x :: x in rows && OfPair(x, host, metricKey) ==> x.ts <= r.value.ts
  {
    if rows == [] then None
    else
      var rest := Latest(rows[1..], host, metricKey);
      assert forall x :: x in rows ==> x == rows[0] || x in rows[1..];
      if !OfPair(rows[0], host, metricKey) then rest
      else if rest.Some? && rest.value.ts > rows[0].ts then rest
      else Some(rows[0])
  }

  function Timestamp(x: HistoryRow): int
  {
    x.ts
  }

  /** `findByHostIdAndMetricMetricKeyAndTimestampAfterOrderByTimestampAsc`: the
      pair's rows strictly after `start`, oldest first. */
  function RangeAfter(rows: seq<HistoryRow>, host: int, metricKey: string, start: int): (r: seq<HistoryRow>)
    ensures forall x :: x in r <==> x in rows && OfPair(x, host, metricKey) && x.ts > start
    ensures SortedBy(r, Timestamp)
    ensures multiset(r) == multiset(FilterRows(rows, (x: HistoryRow) => OfPair(x, host, metricKey) && x.ts > start))
  {
    var matching := FilterRows(rows, (x: HistoryRow) => OfPair(x, host, metricKey) && x.ts > start);
    var r := SortBy(matching, Timestamp);
    assert forall x :: x in r <==> x in multiset(r);
    assert forall x :: x in matching <==> x in multiset(matching);
    r
  }

  function SumValues(rows: seq<HistoryRow>): real
  {
    if rows == [] then 0.0 else rows[0].value + SumValues(rows[1..])
  }

  /** The pair's rows stamped at or after `start`, in store order. */
  function InWindow(rows: seq<HistoryRow>, host: int, metricKey: string, start: int): (r: seq<HistoryRow>)
    ensures forall x :: x in r <==> x in rows && OfPair(x, host, metricKey) && x.ts >= start
  {
    if rows == [] then []
    else if OfPair(rows[0], host, metricKey) && rows[0].ts >= start then
      [rows[0]] + InWindow(rows[1..], host, metricKey, start)
    else InWindow(rows[1..], host, metricKey, start)
  }

  /** 100 times the mean value of the rows. */
  function MeanPercent(rows: seq<HistoryRow>): real
    requires |rows| > 0
  {
    SumValues(rows) / (|rows| as real) * 100.0
  }

  /** `calculateAvailability`: 100 times the mean value of the pair's rows at or
      after `start`; absent (SQL NULL) when there are none. */
  function Availability(rows: seq<HistoryRow>, host: int, metricKey: string, start: int): (r: Option<real>)
    ensures r.None? <==> forall x :: x in rows ==> !(OfPair(x, host, metricKey) && x.ts >= start)
  {
    var matching := InWindow(rows, host, metricKey, start);
    if |matching| == 0 then None
    else
      assert matching[0] in matching;
      Some(MeanPercent(matching))
  }

  lemma {:induction false} SumWithinCount(rows: seq<HistoryRow>)
    requires forall x :: x in rows ==> 0.0 <= x.value <= 1.0
    ensures 0.0 <= SumValues(rows) <= |rows| as real
  {
    if rows != [] {
      assert forall x :: x in rows[1..] ==> x in rows;
      SumWithinCount(rows[1..]);
    }
  }

  lemma MeanIsFraction(sum: real, n: real)
    requires n > 0.0 && 0.0 <= sum <= n
    ensures 0.0 <= sum / n * 100.0 <= 100.0
  {
    var mean := sum / n;
    assert mean * n == sum;
  }

  /** An availability computed from 0/1 (or in-between) readings is a percentage. */
  lemma AvailabilityIsPercentage(rows: seq<HistoryRow>, host: int, metricKey: string, start: int)
    requires forall x :: x in rows && OfPair(x, host, metricKey) && x.ts >= start ==> 0.0 <= x.value <= 1.0
    ensures var a := Availability(rows, host, metricKey, start);
            a.Some? ==> 0.0 <= a.value <= 100.0
  {
    var matching := InWindow(rows, host, metricKey, start);
    if |matching| > 0 {
      SumWithinCount(matching);
      MeanIsFraction(SumValues(matching), |matching| as real);
    }
  }

  lemma {:induction false} SumAppend(a: seq<HistoryRow>, b: seq<HistoryRow>)
    ensures SumValues(a + b) == SumValues(a) + SumValues(b)
  {
    if a != [] {
      assert (a + b)[0] == a[0];
      assert (a + b)[1..] == a[1..] + b;
      SumAppend(a[1..], b);
    } else {
      assert a + b == b;
    }
  }

  /** The sum of the values does not depend on the order of the rows. */
  lemma {:induction false} SumPermutation(a: seq<HistoryRow>, b: seq<HistoryRow>)
    requires multiset(a) == multiset(b)
    ensures SumValues(a) == SumValues(b)
    decreases |a|
  {
    if a == [] {
      assert |b| == |multiset(b)| == 0;
    } else {
      var x := a[0];
      assert x in multiset(b);
      var i :| 0 <= i < |b| && b[i] == x;
      var rest := b[..i] + b[i + 1..];
      assert b == b[..i] + [x] + b[i + 1..];
      assert a == [x] + a[1..];
      assert multiset(a) == multiset{x} + multiset(a[1..]);
      assert multiset(b) == multiset(b[..i]) + multiset{x} + multiset(b[i + 1..]);
      assert multiset(rest) == multiset(b[..i]) + multiset(b[i + 1..]);
      assert multiset(a[1..]) == multiset(a) - multiset{x};
      assert multiset(rest) == multiset(b) - multiset{x};
      SumPermutation(a[1..], rest);
      SumAppend(b[..i] + [x], b[i + 1..]);
      SumAppend(b[..i], [x]);
      SumAppend(b[..i], b[i + 1..]);
    }
  }

  /** The window keeps every copy of a row inside it and none of the others. */
  lemma {:induction false} InWindowCounts(rows: seq<HistoryRow>, host: int, metricKey: string, start: int, x: HistoryRow)
    ensures multiset(InWindow(rows, host, metricKey, start))[x]
            == if OfPair(x, host, metricKey) && x.ts >= start then multiset(rows)[x] else 0
  {
    if rows != [] {
      assert rows == [rows[0]] + rows[1..];
      InWindowCounts(rows[1..], host, metricKey, start, x);
    }
  }

  lemma InWindowPermutation(a: seq<HistoryRow>, b: seq<HistoryRow>, host: int, metricKey: string, start: int)
    requires multiset(a) == multiset(b)
    ensures multiset(InWindow(a, host, metricKey, start)) == multiset(InWindow(b, host, metricKey, start))
  {
    forall x
      ensures multiset(InWindow(a, host, metricKey, start))[x] == multiset(InWindow(b, host, metricKey, start))[x]
    {
      InWindowCounts(a, host, metricKey, start, x);
      InWindowCounts(b, host, metricKey, start, x);
    }
  }

  /** Availability is a property of the rows as a bag: the store's order
      does not matter, as for an SQL aggregate. */
  lemma AvailabilityOrderFree(rows1: seq<HistoryRow>, rows2: seq<HistoryRow>, host: int, metricKey: string, start: int)
    requires multiset(rows1) == multiset(rows2)
    ensures Availability(rows1, host, metricKey, start) == Availability(rows2, host, metricKey, start)
  {
    var m1 := InWindow(rows1, host, metricKey, start);
    var m2 := InWindow(rows2, host, metricKey, start);
    InWindowPermutation(rows1, rows2, host, metricKey, start);
    assert |m1| == |multiset(m1)| == |multiset(m2)| == |m2|;
    SumPermutation(m1, m2);
  }

  lemma StepBetween(n: real, sum: real, v: real, lo: real, hi: real, next: real)
    requires n * lo <= sum <= n * hi && lo <= v <= hi && next == n + 1.0
    ensures next * lo <= v + sum <= next * hi
  {
    assert next * lo == n * lo + lo;
    assert next * hi == n * hi + hi;
  }

  lemma {:induction false} SumBetween(rows: seq<HistoryRow>, lo: real, hi: real)
    requires forall x :: x in rows ==> lo <= x.value <= hi
    ensures |rows| as real * lo <= SumValues(rows) <= |rows| as real * hi
    decreases |rows|, 1
  {
    if rows != [] {
      var tail := rows[1..];
      assert rows[0] in rows;
      var v := rows[0].value;
      assert lo <= v <= hi;
      SumTailBetween(rows, lo, hi);
      StepBetween(|tail| as real, SumValues(tail), v, lo, hi, |rows| as real);
    }
  }

  lemma {:induction false} SumTailBetween(rows: seq<HistoryRow>, lo: real, hi: real)
    requires rows != []
    requires forall x :: x in rows ==> lo <= x.value <= hi
    ensures |rows[1..]| as real * lo <= SumValues(rows[1..]) <= |rows[1..]| as real * hi
    decreases |rows|, 0
  {
    assert forall x :: x in rows[1..] ==> x in rows;
    SumBetween(rows[1..], lo, hi);
  }

  lemma MeanBetween(sum: real, n: real, lo: real, hi: real)
    requires n > 0.0 && n * lo <= sum <= n * hi
    ensures 100.0 * lo <= sum / n * 100.0 <= 100.0 * hi
  {
    var mean := sum / n;
    assert mean * n == sum;
  }

  /** The mean lies between the least and the greatest reading: readings
      bounded by `lo` and `hi` give an availability between 100 lo and 100 hi. */
  lemma AvailabilityBetween(rows: seq<HistoryRow>, host: int, metricKey: string, start: int, lo: real, hi: real)
    requires forall x :: x in rows && OfPair(x, host, metricKey) && x.ts >= start ==> lo <= x.value <= hi
    ensures var a := Availability(rows, host, metricKey, start);
            a.Some? ==> 100.0 * lo <= a.value <= 100.0 * hi
  {
    var matching := InWindow(rows, host, metricKey, start);
    if |matching| > 0 {
      SumBetween(matching, lo, hi);
      MeanBetween(SumValues(matching), |matching| as real, lo, hi);
    }
  }

  /** When every matching reading is `v`, the availability is exactly 100 v. */
  lemma AvailabilityOfConstant(rows: seq<HistoryRow>, host: int, metricKey: string, start: int, v: real)
    requires forall x :: x in rows && OfPair(x, host, metricKey) && x.ts >= start ==> x.value == v
    requires exists x :: x in rows && OfPair(x, host, metricKey) && x.ts >= start
    ensures Availability(rows, host, metricKey, start) == Some(100.0 * v)
  {
    AvailabilityBetween(rows, host, metricKey, start, v, v);
  }

  lemma MeanStep(sum: real, n: real, v: real, a: real, next: real)
    requires n > 0.0 && a == sum / n * 100.0 && next == n + 1.0
    ensures (v + sum) / next * 100.0 == (n * a + 100.0 * v) / (n + 1.0)
  {
    assert n * a == 100.0 * sum;
  }

  /** The availability of a non-empty window, spelled out once. */
  lemma AvailabilityIsMean(rows: seq<HistoryRow>, host: int, metricKey: string, start: int)
    ensures var m := InWindow(rows, host, metricKey, start);
            |m| > 0 ==> Availability(rows, host, metricKey, start) == Some(MeanPercent(m))
  {
  }

  /** The window of the store with `x` added in front is `x` followed by the old window. */
  lemma InWindowCons(rows: seq<HistoryRow>, host: int, metricKey: string, start: int, x: HistoryRow)
    requires OfPair(x, host, metricKey) && x.ts >= start
    ensures InWindow([x] + rows, host, metricKey, start) == [x] + InWindow(rows, host, metricKey, start)
    ensures SumValues([x] + InWindow(rows, host, metricKey, start)) == x.value + SumValues(InWindow(rows, host, metricKey, start))
  {
    assert ([x] + rows)[1..] == rows;
    var m := InWindow(rows, host, metricKey, start);
    assert ([x] + m)[1..] == m;
  }

  lemma AddRowToEmptyWindow(rows: seq<HistoryRow>, host: int, metricKey: string, start: int, x: HistoryRow)
    requires OfPair(x, host, metricKey) && x.ts >= start
    requires Availability(rows, host, metricKey, start).None?
    ensures Availability([x] + rows, host, metricKey, start) == Some(100.0 * x.value)
  {
    InWindowCons(rows, host, metricKey, start, x);
    var m := InWindow(rows, host, metricKey, start);
    assert m == [];
    AvailabilityIsMean([x] + rows, host, metricKey, start);
    var mx := [x] + m;
    assert Availability([x] + rows, host, metricKey, start) == Some(SumValues(mx) / (|mx| as real) * 100.0);
    assert |mx| as real == 1.0;
    assert SumValues(mx) == x.value;
    assert SumValues(mx) / 1.0 == x.value;
  }

  /** A mean of `n` readings, `a` in percent, extended by one reading `v`. */
  function RunningMean(n: nat, a: real, v: real): real
  {
    (n as real * a + 100.0 * v) / (n as real + 1.0)
  }

  lemma MeanPercentCons(x: HistoryRow, m: seq<HistoryRow>)
    requires |m| > 0
    ensures MeanPercent([x] + m) == RunningMean(|m|, MeanPercent(m), x.value)
  {
    var mx := [x] + m;
    assert mx[1..] == m;
    assert SumValues(mx) == x.value + SumValues(m);
    assert |mx| as real == |m| as real + 1.0;
    MeanStep(SumValues(m), |m| as real, x.value, MeanPercent(m), |m| as real + 1.0);
    assert MeanPercent(mx) == (x.value + SumValues(m)) / (|m| as real + 1.0) * 100.0;
  }

  lemma AddRowToWindow(rows: seq<HistoryRow>, host: int, metricKey: string, start: int, x: HistoryRow)
    requires OfPair(x, host, metricKey) && x.ts >= start
    requires Availability(rows, host, metricKey, start).Some?
    ensures Availability([x] + rows, host, metricKey, start)
            == Some(RunningMean(|InWindow(rows, host, metricKey, start)|, Availability(rows, host, metricKey, start).value, x.value))
  {
    InWindowCons(rows, host, metricKey, start, x);
    var m := InWindow(rows, host, metricKey, start);
    AvailabilityIsMean(rows, host, metricKey, start);
    assert Availability(rows, host, metricKey, start) == Some(MeanPercent(m));
    AvailabilityIsMean([x] + rows, host, metricKey, start);
    assert Availability([x] + rows, host, metricKey, start) == Some(MeanPercent([x] + m));
    MeanPercentCons(x, m);
  }

  /** Adding one row inside the window moves the availability as a running
      mean does: n readings averaging a, plus one reading v, average
      (n a + 100 v) / (n + 1). With no earlier readings the result is 100 v.
      Together with the empty window this determines the value on every store. */
  lemma AvailabilityAddRow(rows: seq<HistoryRow>, host: int, metricKey: string, start: int, x: HistoryRow)
    requires OfPair(x, host, metricKey) && x.ts >= start
    ensures Availability(rows, host, metricKey, start).None? ==>
              Availability([x] + rows, host, metricKey, start) == Some(100.0 * x.value)
    ensures Availability(rows, host, metricKey, start).Some? ==>
              Availability([x] + rows, host, metricKey, start)
              == Some(RunningMean(|InWindow(rows, host, metricKey, start)|, Availability(rows, host, metricKey, start).value, x.value))
  {
    if Availability(rows, host, metricKey, start).None? {
      AddRowToEmptyWindow(rows, host, metricKey, start, x);
    } else {
      AddRowToWindow(rows, host, metricKey, start, x);
    }
  }

  /** A row stamped exactly at `start` counts towards availability but is not
      returned by the range query: one window is closed, the other open. */
  lemma WindowBoundaries(rows: seq<HistoryRow>, x: HistoryRow, start: int)
    requires x in rows && x.ts == start
    ensures x !in RangeAfter(rows, x.host, x.metric, start)
    ensures Availability(rows, x.host, x.metric, start).Some?
  {
  }
}
