/** The entities the collection engine reads and writes: hosts with their
    metric configurations, metric-history rows, current text values, recent
    events and connection-status log rows, plus the metric keys the engine
    treats specially. Timestamps are whole seconds. */
module Domain {
  import opened Wrappers

  // Metric keys (the `metric_key` of a Metric) with a role in the engine.
  const AvailGlobal := "disponibilidade-global"
  const AvailGlobalHealth := "disponibilidade-global-health"
  const AvailGlobalHttp := "disponibilidade-global-http-agente"
  const AvailSpecific := "disponibilidade-especifica"
  const AvailSpecificHealth := "disponibilidade-especifica-health"
  const AvailSpecificHttp := "disponibilidade-especifica-http-agente"
  const CpuUsage := "cpu-uso"
  const RamTotal := "memoria-ram-total"
  const RamAvailable := "memoria-ram-disponivel"
  const RecentEventsKey := "eventos-recentes"

  /** Zabbix key of metrics served by the Zabbix API itself rather than by an item. */
  const ZabbixApi := "zabbix_api"

  datatype HostStatus = Active | Alert | Inactive

  /** One HostMetricConfig: the metric it configures (identified by its unique
      metric key) and the Zabbix item key used to fetch it (`None` for null). */
  datatype Config = Config(metricKey: string, zabbixKey: Option<string>)

  /** A host. `configs` lists its metric configurations in the iteration order
      of the underlying set, so "the first config such that ..." is the
      element a `findFirst` over that set returns. */
  datatype Host = Host(
    id: int,
    publicId: string,
    zabbixId: int,
    name: string,
    description: string,
    hostType: string,
    status: HostStatus,
    configs: seq<Config>)

  /** A metric_history row; (host, metric, ts) is its primary key. */
  datatype HistoryRow = HistoryRow(host: int, metric: string, ts: int, value: real)

  datatype HistoryKey = HistoryKey(host: int, metric: string, ts: int)

  function KeyOf(r: HistoryRow): HistoryKey
  {
    HistoryKey(r.host, r.metric, r.ts)
  }

  /** The latest text value of a (host, metric) pair (metric_current_value). */
  datatype TextValue = TextValue(value: string, lastUpdated: int)

  /** A recent_events row (its generated id is not modelled). */
  datatype EventRow = EventRow(host: int, ts: int, severity: string, name: string)

  datatype ConnOutcome = ConnSuccess | ConnError

  /** A zabbix_connection_status row. */
  datatype ConnRow = ConnRow(ts: int, outcome: ConnOutcome, details: string)

  /** The persistent state the collector and the cleanup job act on. */
  datatype Store = Store(
    hosts: seq<Host>,
    history: seq<HistoryRow>,
    texts: map<(int, string), TextValue>,
    events: seq<EventRow>,
    connLog: seq<ConnRow>)

  /** No two history rows share a primary key (which also makes the rows distinct). */
  predicate UniqueKeys(rows: seq<HistoryRow>)
  {
    forall i, j :: 0 <= i < |rows| && 0 <= j < |rows| && i != j ==> KeyOf(rows[i]) != KeyOf(rows[j])
  }

  lemma UniqueKeysCons(x: HistoryRow, rest: seq<HistoryRow>)
    ensures UniqueKeys([x] + rest) <==> UniqueKeys(rest) && forall y :: y in rest ==> KeyOf(y) != KeyOf(x)
  {
    var s := [x] + rest;
    if UniqueKeys(rest) && forall y :: y in rest ==> KeyOf(y) != KeyOf(x) {
      forall i, j | 0 <= i < |s| && 0 <= j < |s| && i != j
        ensures KeyOf(s[i]) != KeyOf(s[j])
      {
        if i > 0 && j > 0 {
          assert s[i] == rest[i - 1] && s[j] == rest[j - 1];
        } else if i == 0 {
          assert s[j] in rest;
        } else {
          assert s[i] in rest;
        }
      }
    }
    if UniqueKeys(s) {
      forall y | y in rest
        ensures KeyOf(y) != KeyOf(x)
      {
        var k :| 0 <= k < |rest| && rest[k] == y;
        assert s[k + 1] == y && s[0] == x;
      }
      forall i, j | 0 <= i < |rest| && 0 <= j < |rest| && i != j
        ensures KeyOf(rest[i]) != KeyOf(rest[j])
      {
        assert rest[i] == s[i + 1] && rest[j] == s[j + 1];
      }
    }
  }

  /** Host ids are distinct, as in the hosts table. */
  predicate DistinctHostIds(hosts: seq<Host>)
  {
    forall i, j :: 0 <= i < |hosts| && 0 <= j < |hosts| && i != j ==> hosts[i].id != hosts[j].id
  }

  /** A host configures each metric at most once (HostMetricConfig is keyed by host and metric). */
  predicate DistinctMetrics(configs: seq<Config>)
  {
    forall i, j :: 0 <= i < |configs| && 0 <= j < |configs| && i != j ==> configs[i].metricKey != configs[j].metricKey
  }

  predicate HasMetric(configs: seq<Config>, metricKey: string)
  {
    exists c :: c in configs && c.metricKey == metricKey
  }

  function MetricKeys(configs: seq<Config>): set<string>
  {
    set c | c in configs :: c.metricKey
  }

  /** `configs.stream().filter(c -> key.equals(c.metricKey)).findFirst()`. */
  function FindConfig(configs: seq<Config>, metricKey: string): (r: Option<Config>)
    ensures r.None? <==> !HasMetric(configs, metricKey)
    ensures r.Some? ==> r.value in configs && r.value.metricKey == metricKey
    ensures DistinctMetrics(configs) ==>
              forall c :: c in configs && c.metricKey == metricKey ==> r == Some(c)
  {
    if configs == [] then None
    else if configs[0].metricKey == metricKey then Some(configs[0])
    else
      assert forall c :: c in configs[1..] ==> c in configs;
      assert HasMetric(configs[1..], metricKey) ==> HasMetric(configs, metricKey);
      assert DistinctMetrics(configs) ==> DistinctMetrics(configs[1..]);
      FindConfig(configs[1..], metricKey)
  }
}
