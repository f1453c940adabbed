/** RecentEventsRepository over the recent_events table, modelled as a
    sequence of rows. */
module EventsRepository {
  import opened Domain
  import opened Sorting

  /** The events of one host, in table order. */
  function EventsOf(events: seq<EventRow>, host: int): (r: seq<EventRow>)
    ensures forall e :: e in r <==> e in events && e.host == host
  {
    if events == [] then []
    else if events[0].host == host then [events[0]] + EventsOf(events[1..], host)
    else EventsOf(events[1..], host)
  }

  lemma {:induction false} EventsOfAppend(a: seq<EventRow>, b: seq<EventRow>, host: int)
    ensures EventsOf(a + b, host) == EventsOf(a, host) + EventsOf(b, host)
  {
    if a == [] {
      assert a + b == b;
    } else {
      assert (a + b)[1..] == a[1..] + b;
      EventsOfAppend(a[1..], b, host);
    }
  }

  /** `deleteByHostId`: every event of the host goes, and every other host
      keeps exactly the events it had, in the same order. */
  function DeleteByHostId(events: seq<EventRow>, host: int): (r: seq<EventRow>)
    ensures forall e :: e in r <==> e in events && e.host != host
    ensures EventsOf(r, host) == []
    ensures forall other {:trigger EventsOf(events, other)} ::
              other != host ==> EventsOf(r, other) == EventsOf(events, other)
  {
    if events == [] then []
    else
      var rest := DeleteByHostId(events[1..], host);
      if events[0].host == host then rest else [events[0]] + rest
  }

  /** Newest first. */
  predicate NewestFirst(s: seq<EventRow>)
  {
    forall i, j :: 0 <= i < j < |s| ==> s[i].ts >= s[j].ts
  }

  function NegatedTimestamp(e: EventRow): int
  {
    -e.ts
  }

  function Min(a: nat, b: nat): nat
  {
    if a < b then a else b
  }

  /** A prefix of a newest-first sequence holds its newest rows: nothing after
      the cut is newer than anything before it. */
  lemma PrefixIsNewest(sorted: seq<EventRow>, k: nat)
    requires SortedBy(sorted, NegatedTimestamp) && k <= |sorted|
    ensures NewestFirst(sorted[..k])
    ensures forall e, x :: e in sorted[k..] && x in sorted[..k] ==> e.ts <= x.ts
  {
    forall e, x | e in sorted[k..] && x in sorted[..k] ensures e.ts <= x.ts {
      var a :| k <= a < |sorted| && sorted[a] == e by {
        assert e in sorted[k..];
      }
      var b :| 0 <= b < k && sorted[b] == x;
      assert NegatedTimestamp(sorted[b]) <= NegatedTimestamp(sorted[a]);
    }
  }

  /** `ORDER BY timestamp DESC` limited to the first page of `pageSize` rows:
      the page holds min(pageSize, |matching|) of the rows, newest first, and
      every row left off the page is no newer than any row on it. */
  function NewestPage(matching: seq<EventRow>, pageSize: nat): (r: seq<EventRow>)
    ensures NewestFirst(r)
    ensures |r| == Min(|matching|, pageSize)
    ensures multiset(r) <= multiset(matching)
    ensures forall e :: e in multiset(matching) - multiset(r) ==>
              forall x :: x in r ==> e.ts <= x.ts
  {
    var sorted := SortBy(matching, NegatedTimestamp);
    var k := Min(|matching|, pageSize);
    PrefixIsNewest(sorted, k);
    assert sorted == sorted[..k] + sorted[k..];
    assert multiset(matching) - multiset(sorted[..k]) == multiset(sorted[k..]);
    sorted[..k]
  }

  /** The events whose severity is in the list. */
  function WithSeverity(events: seq<EventRow>, severities: seq<string>): (r: seq<EventRow>)
    ensures forall e :: e in r <==> e in events && e.severity in severities
  {
    if events == [] then []
    else if events[0].severity in severities then [events[0]] + WithSeverity(events[1..], severities)
    else WithSeverity(events[1..], severities)
  }

  /** `findRecentCriticalEvents`: the newest events, of any host, whose
      severity is in the list; at most `pageSize` of them. */
  function FindRecentCriticalEvents(events: seq<EventRow>, severities: seq<string>, pageSize: nat): (r: seq<EventRow>)
    ensures forall e :: e in r ==> e in events && e.severity in severities
    ensures multiset(r) <= multiset(WithSeverity(events, severities))
    ensures NewestFirst(r) && |r| == Min(|WithSeverity(events, severities)|, pageSize)
    ensures forall e :: e in multiset(WithSeverity(events, severities)) - multiset(r) ==>
              forall x :: x in r ==> e.ts <= x.ts
  {
    var matching := WithSeverity(events, severities);
    var r := NewestPage(matching, pageSize);
    assert forall e :: e in r ==> e in multiset(matching);
    r
  }

  /** `findRecentCriticalEventsForHost`: as above, restricted to one host. */
  function FindRecentCriticalEventsForHost(events: seq<EventRow>, host: int, severities: seq<string>, pageSize: nat): (r: seq<EventRow>)
    ensures forall e :: e in r ==> e in events && e.host == host && e.severity in severities
    ensures multiset(r) <= multiset(WithSeverity(EventsOf(events, host), severities))
    ensures NewestFirst(r) && |r| == Min(|WithSeverity(EventsOf(events, host), severities)|, pageSize)
    ensures forall e :: e in multiset(WithSeverity(EventsOf(events, host), severities)) - multiset(r) ==>
              forall x :: x in r ==> e.ts <= x.ts
  {
    var matching := WithSeverity(EventsOf(events, host), severities);
    var r := NewestPage(matching, pageSize);
    assert forall e :: e in r ==> e in multiset(matching);
    r
  }
}
