/** One run of `collectAllMetrics` in MetricCollectorScheduler: for every
    host, fetch the value of each configured Zabbix item, file numeric values
    as history rows and text values as the host's current text value, set the
    host's status from what was fetched, and replace the recent events of the
    hosts that collect them.

    Zabbix is an oracle (`Telemetry`); the clock is the single instant `now`
    of the run. */
module Collector {
  import opened Wrappers
  import opened Text
  import opened Domain
  import opened StatusEvaluator
  import opened HistoryRepository
  import opened EventsRepository

  /** An event as Zabbix reports it: epoch seconds, numeric severity, name. */
  datatype ZabbixEvent = ZabbixEvent(clock: int, severity: int, name: string)

  /** What Zabbix answers for a host's Zabbix id: `values` maps an item key to
      its last value (a key that is absent is a null answer), and `events` is
      the host's list of recent events. */
  datatype Telemetry = Telemetry(values: int -> map<string, string>, events: int -> seq<ZabbixEvent>)

  /** How a fetched value is filed. */
  datatype Reading = Numeric(value: real) | Textual(raw: string)

  /** `isHealthCheckMetric`: the metrics whose value is a health-check JSON document. */
  predicate IsHealthCheckMetric(metricKey: string)
  {
    metricKey == AvailGlobalHealth || metricKey == AvailSpecificHealth
    || metricKey == AvailGlobalHttp || metricKey == AvailSpecificHttp
  }

  /** `parseHealthCheckJson`: 1.0 when `status` is "UP" in any letter case,
      0.0 for any other status, nothing when the document does not parse. */
  function ParseHealthCheckJson(p: Parsers, raw: string): (r: Option<real>)
    ensures r.None? <==> p.health(raw).None?
    ensures r.Some? ==> (r.value == 1.0 || r.value == 0.0)
    ensures r == Some(1.0) <==> p.health(raw).Some? && EqualsIgnoreCase(p.health(raw).value.status, "UP")
  {
    match p.health(raw)
    case None => None
    case Some(doc) => if EqualsIgnoreCase(doc.status, "UP") then Some(1.0) else Some(0.0)
  }

  /** The classification of a fetched value: a number as such; otherwise, for
      a health-check metric, the health-check verdict; otherwise text. */
  function Classify(p: Parsers, metricKey: string, raw: string): (r: Reading)
    ensures p.number(raw).Some? ==> r == Numeric(p.number(raw).value)
    ensures r.Textual? <==> p.number(raw).None? && (!IsHealthCheckMetric(metricKey) || p.health(raw).None?)
    ensures r.Textual? ==> r.raw == raw
    ensures p.number(raw).None? && r.Numeric? ==> IsHealthCheckMetric(metricKey) && (r.value == 1.0 || r.value == 0.0)
  {
    match p.number(raw)
    case Some(x) => Numeric(x)
    case None =>
      if IsHealthCheckMetric(metricKey) then
        (match ParseHealthCheckJson(p, raw)
         case Some(x) => Numeric(x)
         case None => Textual(raw))
      else Textual(raw)
  }

  /** A config is fetched unless its Zabbix key is null or is the
      "zabbix_api" marker (in any letter case). */
  predicate IsFetched(c: Config)
  {
    c.zabbixKey.Some? && !EqualsIgnoreCase(c.zabbixKey.value, ZabbixApi)
  }

  /** The value fetched for a config, `None` when it is skipped or Zabbix
      answers null. */
  function RawValue(values: map<string, string>, c: Config): (r: Option<string>)
    ensures r.Some? <==> IsFetched(c) && c.zabbixKey.value in values
    ensures r.Some? ==> r.value == values[c.zabbixKey.value]
  {
    if IsFetched(c) && c.zabbixKey.value in values then Some(values[c.zabbixKey.value]) else None
  }

  /** A fetched config whose value is filed as the number `x`. */
  predicate YieldsNumber(p: Parsers, values: map<string, string>, c: Config, x: real)
  {
    RawValue(values, c).Some? && Classify(p, c.metricKey, RawValue(values, c).value) == Numeric(x)
  }

  /** A fetched config whose value is filed as text. */
  predicate YieldsText(p: Parsers, values: map<string, string>, c: Config)
  {
    RawValue(values, c).Some? && Classify(p, c.metricKey, RawValue(values, c).value).Textual?
  }

  // ---------------------------------------------------------------------
  // One host

  /** `collectedItems`: the configs visited in order, each non-null fetched
      value put under its Zabbix key. */
  function Collected(values: map<string, string>, configs: seq<Config>): (m: map<string, string>)
    ensures forall k :: k in m <==> k in values && exists c :: c in configs && IsFetched(c) && c.zabbixKey == Some(k)
    ensures forall k :: k in m ==> m[k] == values[k]
    decreases |configs|
  {
    if configs == [] then map[]
    else
      var front := configs[..|configs| - 1];
      var c := configs[|configs| - 1];
      var m := Collected(values, front);
      assert forall d :: d in configs <==> d in front || d == c;
      match RawValue(values, c)
      case Some(raw) => m[c.zabbixKey.value := raw]
      case None => m
  }

  /** What the status rules read for a fetched config is what was fetched for it. */
  lemma CollectedIsWhatWasFetched(values: map<string, string>, configs: seq<Config>, c: Config)
    requires c in configs && IsFetched(c)
    ensures Lookup(Collected(values, configs), c.zabbixKey) == RawValue(values, c)
  {
  }

  /** The history rows of one host: one row at `now` per config whose value is
      numeric, in config order. */
  function HostHistoryRows(p: Parsers, hostId: int, values: map<string, string>, configs: seq<Config>, now: int): (r: seq<HistoryRow>)
    ensures forall x :: x in r <==>
              x.host == hostId && x.ts == now
              && exists c :: c in configs && c.metricKey == x.metric && YieldsNumber(p, values, c, x.value)
    ensures DistinctMetrics(configs) ==> UniqueKeys(r)
  {
    if configs == [] then []
    else
      var c := configs[0];
      var rest := HostHistoryRows(p, hostId, values, configs[1..], now);
      assert forall d :: d in configs <==> d == c || d in configs[1..];
      assert DistinctMetrics(configs) ==> DistinctMetrics(configs[1..]) by {
        forall i, j | 0 <= i < |configs[1..]| && 0 <= j < |configs[1..]| && i != j
          ensures configs[1..][i].metricKey != configs[1..][j].metricKey || !DistinctMetrics(configs)
        {
          assert configs[1..][i] == configs[i + 1] && configs[1..][j] == configs[j + 1];
        }
      }
      match RawValue(values, c)
      case None => rest
      case Some(raw) =>
        match Classify(p, c.metricKey, raw)
        case Textual(_) => rest
        case Numeric(x) =>
          var row := HistoryRow(hostId, c.metricKey, now, x);
          assert DistinctMetrics(configs) ==> UniqueKeys([row] + rest) by {
            if DistinctMetrics(configs) {
              forall y | y in rest ensures KeyOf(y) != KeyOf(row) {
                var d :| d in configs[1..] && d.metricKey == y.metric && YieldsNumber(p, values, d, y.value);
                var k :| 0 <= k < |configs[1..]| && configs[1..][k] == d;
                assert configs[k + 1] == d && configs[0] == c;
              }
              UniqueKeysCons(row, rest);
            }
          }
          [row] + rest
  }

  /** The (host, metric) text slots one host's text values go to. */
  predicate TextSlot(p: Parsers, hostId: int, values: map<string, string>, configs: seq<Config>, k: (int, string))
  {
    k.0 == hostId && exists c :: c in configs && c.metricKey == k.1 && YieldsText(p, values, c)
  }

  /** `saveOrUpdateCurrentTextValue` for each text value of one host, in config order. */
  function HostTextUpdates(p: Parsers, hostId: int, values: map<string, string>, configs: seq<Config>, now: int,
                           texts: map<(int, string), TextValue>): (r: map<(int, string), TextValue>)
    ensures forall k :: k in r <==> k in texts || TextSlot(p, hostId, values, configs, k)
    ensures forall k :: k in texts && !TextSlot(p, hostId, values, configs, k) ==> r[k] == texts[k]
    ensures forall k :: k in r && TextSlot(p, hostId, values, configs, k) ==> r[k].lastUpdated == now
    ensures forall c :: c in configs && YieldsText(p, values, c) ==> (hostId, c.metricKey) in r
    ensures DistinctMetrics(configs) ==>
              forall c :: c in configs && YieldsText(p, values, c) ==>
                r[(hostId, c.metricKey)] == TextValue(RawValue(values, c).value, now)
  {
    if configs == [] then texts
    else
      var c := configs[0];
      var next := if YieldsText(p, values, c)
                  then texts[(hostId, c.metricKey) := TextValue(RawValue(values, c).value, now)]
                  else texts;
      var r := HostTextUpdates(p, hostId, values, configs[1..], now, next);
      assert forall d :: d in configs <==> d == c || d in configs[1..];
      assert forall d :: d in configs && YieldsText(p, values, d) ==> TextSlot(p, hostId, values, configs, (hostId, d.metricKey));
      assert DistinctMetrics(configs) ==> DistinctMetrics(configs[1..]) by {
        forall i, j | 0 <= i < |configs[1..]| && 0 <= j < |configs[1..]| && i != j
          ensures configs[1..][i].metricKey != configs[1..][j].metricKey || !DistinctMetrics(configs)
        {
          assert configs[1..][i] == configs[i + 1] && configs[1..][j] == configs[j + 1];
        }
      }
      r
  }

  // ---------------------------------------------------------------------
  // All hosts

  /** The status the rules give a host on this run's fetched values. */
  function NewStatus(p: Parsers, tel: Telemetry, h: Host): HostStatus
  {
    DetermineHostStatus(p, h.configs, Collected(tel.values(h.zabbixId), h.configs))
  }

  /** `host.setStatus(newStatus)` for every host; nothing else about a host changes. */
  function UpdateStatuses(p: Parsers, tel: Telemetry, hosts: seq<Host>): (r: seq<Host>)
    ensures |r| == |hosts|
    ensures forall i :: 0 <= i < |hosts| ==> r[i].status == NewStatus(p, tel, hosts[i])
    ensures forall i :: 0 <= i < |hosts| ==> r[i].(status := hosts[i].status) == hosts[i]
  {
    if hosts == [] then []
    else [hosts[0].(status := NewStatus(p, tel, hosts[0]))] + UpdateStatuses(p, tel, hosts[1..])
  }

  /** `historyBatch`: the hosts' history rows, host after host. */
  function HistoryBatch(p: Parsers, tel: Telemetry, hosts: seq<Host>, now: int): (r: seq<HistoryRow>)
    ensures forall x :: x in r <==> exists h :: h in hosts && x in HostHistoryRows(p, h.id, tel.values(h.zabbixId), h.configs, now)
    ensures forall x :: x in r ==> x.ts == now && exists h :: h in hosts && h.id == x.host
  {
    if hosts == [] then []
    else
      var h := hosts[0];
      assert forall g :: g in hosts <==> g == h || g in hosts[1..];
      HostHistoryRows(p, h.id, tel.values(h.zabbixId), h.configs, now) + HistoryBatch(p, tel, hosts[1..], now)
  }

  /** Well-formed hosts: distinct ids, and each host configures a metric at most once. */
  predicate WellFormedHosts(hosts: seq<Host>)
  {
    DistinctHostIds(hosts) && forall h :: h in hosts ==> DistinctMetrics(h.configs)
  }

  lemma UniqueKeysAppend(a: seq<HistoryRow>, b: seq<HistoryRow>)
    requires UniqueKeys(a) && UniqueKeys(b)
    requires forall x, y :: x in a && y in b ==> KeyOf(x) != KeyOf(y)
    ensures UniqueKeys(a + b)
  {
    var s := a + b;
    forall i, j | 0 <= i < |s| && 0 <= j < |s| && i != j
      ensures KeyOf(s[i]) != KeyOf(s[j])
    {
      if i < |a| && j < |a| {
        assert s[i] == a[i] && s[j] == a[j];
      } else if i >= |a| && j >= |a| {
        assert s[i] == b[i - |a|] && s[j] == b[j - |a|];
      } else if i < |a| {
        assert s[i] in a && s[j] in b;
      } else {
        assert s[j] in a && s[i] in b;
      }
    }
  }

  /** With well-formed hosts the batch never holds two rows with one key, so
      saving it stores every row of it. */
  lemma {:induction false} HistoryBatchUnique(p: Parsers, tel: Telemetry, hosts: seq<Host>, now: int)
    requires WellFormedHosts(hosts)
    ensures UniqueKeys(HistoryBatch(p, tel, hosts, now))
  {
    if hosts != [] {
      var h := hosts[0];
      var a := HostHistoryRows(p, h.id, tel.values(h.zabbixId), h.configs, now);
      var b := HistoryBatch(p, tel, hosts[1..], now);
      assert WellFormedHosts(hosts[1..]) by {
        forall i, j | 0 <= i < |hosts[1..]| && 0 <= j < |hosts[1..]| && i != j
          ensures hosts[1..][i].id != hosts[1..][j].id
        {
          assert hosts[1..][i] == hosts[i + 1] && hosts[1..][j] == hosts[j + 1];
        }
      }
      HistoryBatchUnique(p, tel, hosts[1..], now);
      forall x, y | x in a && y in b ensures KeyOf(x) != KeyOf(y) {
        var g :| g in hosts[1..] && g.id == y.host;
        var k :| 0 <= k < |hosts[1..]| && hosts[1..][k] == g;
        assert hosts[k + 1] == g && hosts[0] == h;
      }
      UniqueKeysAppend(a, b);
    }
  }

  /** The text slots the run writes. */
  predicate CycleTextSlot(p: Parsers, tel: Telemetry, hosts: seq<Host>, k: (int, string))
  {
    exists h :: h in hosts && TextSlot(p, h.id, tel.values(h.zabbixId), h.configs, k)
  }

  /** The text updates of every host, host after host. */
  function CycleTexts(p: Parsers, tel: Telemetry, hosts: seq<Host>, now: int,
                      texts: map<(int, string), TextValue>): (r: map<(int, string), TextValue>)
    ensures forall k :: k in r <==> k in texts || CycleTextSlot(p, tel, hosts, k)
    ensures forall k :: k in texts && !CycleTextSlot(p, tel, hosts, k) ==> r[k] == texts[k]
    ensures forall k :: k in r && CycleTextSlot(p, tel, hosts, k) ==> r[k].lastUpdated == now
  {
    if hosts == [] then texts
    else
      var h := hosts[0];
      assert forall g :: g in hosts <==> g == h || g in hosts[1..];
      CycleTexts(p, tel, hosts[1..], now, HostTextUpdates(p, h.id, tel.values(h.zabbixId), h.configs, now, texts))
  }

  /** With well-formed hosts each text value ends up in its own slot. */
  lemma {:induction false} CycleTextsStoreEachValue(p: Parsers, tel: Telemetry, hosts: seq<Host>, now: int,
                                                    texts: map<(int, string), TextValue>, h: Host, c: Config)
    requires WellFormedHosts(hosts) && h in hosts && c in h.configs
    requires YieldsText(p, tel.values(h.zabbixId), c)
    ensures CycleTexts(p, tel, hosts, now, texts)[(h.id, c.metricKey)]
            == TextValue(RawValue(tel.values(h.zabbixId), c).value, now)
  {
    var g := hosts[0];
    var next := HostTextUpdates(p, g.id, tel.values(g.zabbixId), g.configs, now, texts);
    WellFormedTail(hosts);
    if h == g {
      LaterHostsDoNotWrite(p, tel, hosts, c.metricKey);
    } else {
      assert h in hosts[1..];
      CycleTextsStoreEachValue(p, tel, hosts[1..], now, next, h, c);
    }
  }

  lemma WellFormedTail(hosts: seq<Host>)
    requires WellFormedHosts(hosts) && hosts != []
    ensures WellFormedHosts(hosts[1..])
  {
    forall i, j | 0 <= i < |hosts[1..]| && 0 <= j < |hosts[1..]| && i != j
      ensures hosts[1..][i].id != hosts[1..][j].id
    {
      assert hosts[1..][i] == hosts[i + 1] && hosts[1..][j] == hosts[j + 1];
    }
  }

  /** The hosts after the first never write the first host's text slots. */
  lemma LaterHostsDoNotWrite(p: Parsers, tel: Telemetry, hosts: seq<Host>, metricKey: string)
    requires DistinctHostIds(hosts) && hosts != []
    ensures !CycleTextSlot(p, tel, hosts[1..], (hosts[0].id, metricKey))
  {
  }

  /** A host collects events when it configures "eventos-recentes". */
  predicate CollectsEvents(h: Host)
  {
    HasMetric(h.configs, RecentEventsKey)
  }

  /** A recent_events row built from a Zabbix event: its time, its severity
      written in decimal as `String.valueOf` does, its name. */
  function ToEventRow(hostId: int, e: ZabbixEvent): EventRow
  {
    EventRow(hostId, e.clock, IntToDecimal(e.severity), e.name)
  }

  function ConvertEvents(hostId: int, zs: seq<ZabbixEvent>): (r: seq<EventRow>)
    ensures |r| == |zs|
    ensures forall i :: 0 <= i < |zs| ==> r[i] == ToEventRow(hostId, zs[i])
    ensures forall e :: e in r ==> e.host == hostId
  {
    if zs == [] then []
    else
      var rest := ConvertEvents(hostId, zs[1..]);
      var r := [ToEventRow(hostId, zs[0])] + rest;
      assert forall i :: 1 <= i < |zs| ==> r[i] == rest[i - 1] && zs[i] == zs[1..][i - 1];
      assert forall e :: e in r ==> e == r[0] || e in rest;
      r
  }

  /** `deleteByHostId` for every host that collects events. */
  function ClearEvents(events: seq<EventRow>, hosts: seq<Host>): (r: seq<EventRow>)
    ensures forall h :: h in hosts && CollectsEvents(h) ==> EventsOf(r, h.id) == []
    ensures forall id :: (forall h :: h in hosts && CollectsEvents(h) ==> h.id != id) ==>
              EventsOf(r, id) == EventsOf(events, id)
  {
    if hosts == [] then events
    else
      var h := hosts[0];
      var rest := ClearEvents(events, hosts[1..]);
      assert forall g :: g in hosts <==> g == h || g in hosts[1..];
      if CollectsEvents(h) then DeleteByHostId(rest, h.id) else rest
  }

  /** `eventsBatch`: the converted events of every host that collects them. */
  function EventsBatch(tel: Telemetry, hosts: seq<Host>): (r: seq<EventRow>)
    ensures forall e :: e in r ==> exists h :: h in hosts && CollectsEvents(h) && h.id == e.host
  {
    if hosts == [] then []
    else
      var h := hosts[0];
      var rest := EventsBatch(tel, hosts[1..]);
      assert forall g :: g in hosts <==> g == h || g in hosts[1..];
      if CollectsEvents(h) then ConvertEvents(h.id, tel.events(h.zabbixId)) + rest else rest
  }

  /** A host's part of the batch is exactly its converted events. */
  lemma {:induction false} EventsBatchOfHost(tel: Telemetry, hosts: seq<Host>, h: Host)
    requires DistinctHostIds(hosts) && h in hosts && CollectsEvents(h)
    ensures EventsOf(EventsBatch(tel, hosts), h.id) == ConvertEvents(h.id, tel.events(h.zabbixId))
  {
    var g := hosts[0];
    var rest := EventsBatch(tel, hosts[1..]);
    assert DistinctHostIds(hosts[1..]) by {
      forall i, j | 0 <= i < |hosts[1..]| && 0 <= j < |hosts[1..]| && i != j
        ensures hosts[1..][i].id != hosts[1..][j].id
      {
        assert hosts[1..][i] == hosts[i + 1] && hosts[1..][j] == hosts[j + 1];
      }
    }
    if g == h {
      var mine := ConvertEvents(h.id, tel.events(h.zabbixId));
      assert EventsOf(rest, h.id) == [] by {
        forall e | e in rest ensures e.host != h.id {
          var f :| f in hosts[1..] && CollectsEvents(f) && f.id == e.host;
          var k :| 0 <= k < |hosts[1..]| && hosts[1..][k] == f;
          assert hosts[k + 1] == f && hosts[0] == g;
        }
        EventsOfOtherHost(rest, h.id);
      }
      EventsOfAppend(mine, rest, h.id);
      EventsOfOwnHost(mine, h.id);
    } else {
      assert h in hosts[1..];
      EventsBatchOfHost(tel, hosts[1..], h);
      if CollectsEvents(g) {
        var theirs := ConvertEvents(g.id, tel.events(g.zabbixId));
        assert g.id != h.id by {
          var k :| 0 <= k < |hosts| && hosts[k] == h;
          assert k != 0;
        }
        EventsOfAppend(theirs, rest, h.id);
        EventsOfOtherHost(theirs, h.id);
      }
    }
  }

  lemma {:induction false} EventsOfOwnHost(s: seq<EventRow>, id: int)
    requires forall e :: e in s ==> e.host == id
    ensures EventsOf(s, id) == s
  {
    if s != [] {
      EventsOfOwnHost(s[1..], id);
    }
  }

  lemma {:induction false} EventsOfOtherHost(s: seq<EventRow>, id: int)
    requires forall e :: e in s ==> e.host != id
    ensures EventsOf(s, id) == []
  {
    if s != [] {
      EventsOfOtherHost(s[1..], id);
    }
  }

  /** `collectAllMetrics`. Only the connection log is left alone; saving the
      batch keeps the history's primary keys unique. */
  function CollectAllMetrics(p: Parsers, tel: Telemetry, s: Store, now: int): (r: Store)
    ensures r.connLog == s.connLog
    ensures UniqueKeys(s.history) ==> UniqueKeys(r.history)
    ensures forall x :: x in r.history ==> x in s.history || (x.ts == now && exists h :: h in s.hosts && h.id == x.host)
    // `saveAll` adds rows or overwrites rows stamped `now`: every row stamped at another instant survives.
    ensures forall x :: x in s.history && x.ts != now ==> x in r.history
  {
    Store(
      UpdateStatuses(p, tel, s.hosts),
      SaveAll(s.history, HistoryBatch(p, tel, s.hosts, now)),
      CycleTexts(p, tel, s.hosts, now, s.texts),
      ClearEvents(s.events, s.hosts) + EventsBatch(tel, s.hosts),
      s.connLog)
  }

  // ---------------------------------------------------------------------
  // Properties of a run

  /** A fetched numeric value is stored as a history row at `now` and leaves
      the host's text slot for that metric as it was. */
  lemma NumericValueGoesToHistory(p: Parsers, tel: Telemetry, s: Store, now: int, h: Host, c: Config, x: real)
    requires WellFormedHosts(s.hosts) && h in s.hosts && c in h.configs
    requires YieldsNumber(p, tel.values(h.zabbixId), c, x)
    ensures HistoryRow(h.id, c.metricKey, now, x) in CollectAllMetrics(p, tel, s, now).history
    ensures (h.id, c.metricKey) in s.texts ==>
              CollectAllMetrics(p, tel, s, now).texts[(h.id, c.metricKey)] == s.texts[(h.id, c.metricKey)]
    ensures (h.id, c.metricKey) !in s.texts ==> (h.id, c.metricKey) !in CollectAllMetrics(p, tel, s, now).texts
  {
    var values := tel.values(h.zabbixId);
    assert HistoryRow(h.id, c.metricKey, now, x) in HostHistoryRows(p, h.id, values, h.configs, now);
    HistoryBatchUnique(p, tel, s.hosts, now);
    NoTextSlotWithoutText(p, tel, s.hosts, h, c);
  }

  /** A text slot is written only for a config of that metric yielding text;
      with well-formed hosts a config that does not yield text leaves its
      slot alone. */
  lemma NoTextSlotWithoutText(p: Parsers, tel: Telemetry, hosts: seq<Host>, h: Host, c: Config)
    requires WellFormedHosts(hosts) && h in hosts && c in h.configs
    requires !YieldsText(p, tel.values(h.zabbixId), c)
    ensures !CycleTextSlot(p, tel, hosts, (h.id, c.metricKey))
  {
  }

  /** No row of the run's batch is about this host and metric. */
  predicate NoNewRow(s: Store, r: Store, hostId: int, metricKey: string, now: int)
  {
    forall x :: x in r.history && x.host == hostId && x.metric == metricKey && x.ts == now ==> x in s.history
  }

  /** A fetched text value replaces the host's text slot for that metric,
      stamped `now`, and adds no history row. */
  lemma TextValueGoesToCurrentValue(p: Parsers, tel: Telemetry, s: Store, now: int, h: Host, c: Config)
    requires WellFormedHosts(s.hosts) && h in s.hosts && c in h.configs
    requires YieldsText(p, tel.values(h.zabbixId), c)
    ensures CollectAllMetrics(p, tel, s, now).texts[(h.id, c.metricKey)]
            == TextValue(RawValue(tel.values(h.zabbixId), c).value, now)
    ensures NoNewRow(s, CollectAllMetrics(p, tel, s, now), h.id, c.metricKey, now)
  {
    CycleTextsStoreEachValue(p, tel, s.hosts, now, s.texts, h, c);
    NoBatchRowWithoutNumber(p, tel, s, now, h, c);
  }

  /** A config that is skipped, or whose fetch answers null, changes nothing:
      no history row and its text slot as it was. */
  lemma UnfetchedValueChangesNothing(p: Parsers, tel: Telemetry, s: Store, now: int, h: Host, c: Config)
    requires WellFormedHosts(s.hosts) && h in s.hosts && c in h.configs
    requires RawValue(tel.values(h.zabbixId), c).None?
    ensures NoNewRow(s, CollectAllMetrics(p, tel, s, now), h.id, c.metricKey, now)
    ensures (h.id, c.metricKey) in s.texts ==>
              CollectAllMetrics(p, tel, s, now).texts[(h.id, c.metricKey)] == s.texts[(h.id, c.metricKey)]
    ensures (h.id, c.metricKey) !in s.texts ==> (h.id, c.metricKey) !in CollectAllMetrics(p, tel, s, now).texts
  {
    NoBatchRowWithoutNumber(p, tel, s, now, h, c);
    NoTextSlotWithoutText(p, tel, s.hosts, h, c);
  }

  lemma NoBatchRowWithoutNumber(p: Parsers, tel: Telemetry, s: Store, now: int, h: Host, c: Config)
    requires WellFormedHosts(s.hosts) && h in s.hosts && c in h.configs
    requires forall x :: !YieldsNumber(p, tel.values(h.zabbixId), c, x)
    ensures NoNewRow(s, CollectAllMetrics(p, tel, s, now), h.id, c.metricKey, now)
  {
  }

  /** A host that collects events ends the run with exactly the events Zabbix
      just reported for it; a host id that no collecting host has keeps the
      events it had. */
  lemma EventsAreReplaced(p: Parsers, tel: Telemetry, s: Store, now: int, h: Host)
    requires DistinctHostIds(s.hosts) && h in s.hosts
    ensures CollectsEvents(h) ==>
              EventsOf(CollectAllMetrics(p, tel, s, now).events, h.id) == ConvertEvents(h.id, tel.events(h.zabbixId))
    ensures (forall g :: g in s.hosts && CollectsEvents(g) ==> g.id != h.id) ==>
              EventsOf(CollectAllMetrics(p, tel, s, now).events, h.id) == EventsOf(s.events, h.id)
  {
    var cleared := ClearEvents(s.events, s.hosts);
    var batch := EventsBatch(tel, s.hosts);
    EventsOfAppend(cleared, batch, h.id);
    if CollectsEvents(h) {
      EventsBatchOfHost(tel, s.hosts, h);
    }
    if forall g :: g in s.hosts && CollectsEvents(g) ==> g.id != h.id {
      EventsOfOtherHost(batch, h.id);
    }
  }

  /** Two runs in a row do not accumulate events: after the second, a
      collecting host has as many events as Zabbix reported in the second. */
  lemma EventsDoNotAccumulate(p: Parsers, tel1: Telemetry, tel2: Telemetry, s: Store, now1: int, now2: int, i: nat)
    requires DistinctHostIds(s.hosts) && i < |s.hosts| && CollectsEvents(s.hosts[i])
    ensures var s2 := CollectAllMetrics(p, tel2, CollectAllMetrics(p, tel1, s, now1), now2);
            EventsOf(s2.events, s.hosts[i].id) == ConvertEvents(s.hosts[i].id, tel2.events(s.hosts[i].zabbixId))
  {
    var s1 := CollectAllMetrics(p, tel1, s, now1);
    var h := s1.hosts[i];
    assert h.(status := s.hosts[i].status) == s.hosts[i];
    assert DistinctHostIds(s1.hosts) by {
      forall a, b | 0 <= a < |s1.hosts| && 0 <= b < |s1.hosts| && a != b
        ensures s1.hosts[a].id != s1.hosts[b].id
      {
        assert s1.hosts[a].(status := s.hosts[a].status) == s.hosts[a];
        assert s1.hosts[b].(status := s.hosts[b].status) == s.hosts[b];
      }
    }
    EventsAreReplaced(p, tel2, s1, now2, h);
  }

  /** Health-check JSON with status "up" is stored as 1.0, yet the status
      rules, which want exactly "UP", rate the host INACTIVE. */
  lemma LowercaseUpStoredButInactive(p: Parsers, tel: Telemetry, s: Store, now: int, h: Host, healthKey: string)
    requires WellFormedHosts(s.hosts) && h in s.hosts
    requires h.configs == [Config(AvailGlobalHealth, Some(healthKey))]
    requires healthKey in tel.values(h.zabbixId) && !EqualsIgnoreCase(healthKey, ZabbixApi)
    requires var raw := tel.values(h.zabbixId)[healthKey];
             p.number(raw).None? && p.health(raw) == Some(HealthDoc("up", None))
    ensures HistoryRow(h.id, AvailGlobalHealth, now, 1.0) in CollectAllMetrics(p, tel, s, now).history
    ensures NewStatus(p, tel, h) == Inactive
  {
    var c := h.configs[0];
    assert EqualsIgnoreCase("up", "UP");
    assert YieldsNumber(p, tel.values(h.zabbixId), c, 1.0);
    NumericValueGoesToHistory(p, tel, s, now, h, c, 1.0);
    CollectedIsWhatWasFetched(tel.values(h.zabbixId), h.configs, c);
  }
}
