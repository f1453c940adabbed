/** The status rules of MetricCollectorScheduler: `determineHostStatus` and
    `checkResourceAlerts`, evaluated on a host's configurations and the map
    from Zabbix key to raw value collected for it in this cycle.

    `Double.parseDouble` and Jackson's JSON reading are not modelled: they are
    the oracles of `Parsers`. */
module StatusEvaluator {
  import opened Wrappers
  import opened Domain

  /** What the rules read from a health-check JSON document: the text of
      `status` (empty when absent) and the text of `deps.db` (`None` when
      that node is missing). */
  datatype HealthDoc = HealthDoc(status: string, db: Option<string>)

  /** Parsing oracles: `number` is `Double.parseDouble` (`None` where it throws),
      `health` is `readTree` followed by the two lookups (`None` where it throws). */
  datatype Parsers = Parsers(number: string -> Option<real>, health: string -> Option<HealthDoc>)

  const CpuAlertAbove: real := 90.0
  const RamFreeAlertBelow: real := 10.0

  /** `parseDouble`: null and unparseable text both give no number. */
  function ParseNumber(p: Parsers, raw: Option<string>): (r: Option<real>)
    ensures raw.None? ==> r.None?
    ensures raw.Some? ==> r == p.number(raw.value)
  {
    match raw
    case None => None
    case Some(text) => p.number(text)
  }

  /** `Map.get(zabbixKey)`; a null key finds nothing. */
  function Lookup(collected: map<string, string>, zabbixKey: Option<string>): Option<string>
  {
    if zabbixKey.Some? && zabbixKey.value in collected then Some(collected[zabbixKey.value]) else None
  }

  /** The number collected for the host's config of `metricKey`, if it has one
      and its value parses. */
  function ReadingOf(p: Parsers, configs: seq<Config>, collected: map<string, string>, metricKey: string): Option<real>
  {
    match FindConfig(configs, metricKey)
    case None => None
    case Some(c) => ParseNumber(p, Lookup(collected, c.zabbixKey))
  }

  predicate IsCustomAvailability(c: Config)
  {
    c.metricKey == AvailGlobalHealth || c.metricKey == AvailGlobalHttp
  }

  /** The first health or http-agente global availability config. */
  function CustomAvailability(configs: seq<Config>): (r: Option<Config>)
    ensures r.None? <==> forall c :: c in configs ==> !IsCustomAvailability(c)
    ensures r.Some? ==> r.value in configs && IsCustomAvailability(r.value)
    ensures r.Some? && !HasMetric(configs, AvailGlobalHttp) ==> r == FindConfig(configs, AvailGlobalHealth)
    ensures r.Some? && !HasMetric(configs, AvailGlobalHealth) ==> r == FindConfig(configs, AvailGlobalHttp)
  {
    if configs == [] then None
    else if IsCustomAvailability(configs[0]) then Some(configs[0])
    else
      assert forall c :: c in configs[1..] ==> c in configs;
      CustomAvailability(configs[1..])
  }

  predicate CpuHigh(p: Parsers, configs: seq<Config>, collected: map<string, string>)
  {
    var cpu := ReadingOf(p, configs, collected, CpuUsage);
    cpu.Some? && cpu.value > CpuAlertAbove
  }

  /** Both RAM readings are present, total is positive and under a tenth of it is free. */
  predicate RamLow(p: Parsers, configs: seq<Config>, collected: map<string, string>)
  {
    var total := ReadingOf(p, configs, collected, RamTotal);
    var available := ReadingOf(p, configs, collected, RamAvailable);
    total.Some? && available.Some? && total.value > 0.0
    && (available.value / total.value) * 100.0 < RamFreeAlertBelow
  }

  /** `checkResourceAlerts`: ALERT when CPU is above 90% or less than 10% of
      RAM is free, ACTIVE otherwise; never INACTIVE. */
  function CheckResourceAlerts(p: Parsers, configs: seq<Config>, collected: map<string, string>): (r: HostStatus)
    ensures r != Inactive
    ensures r == Alert <==> CpuHigh(p, configs, collected) || RamLow(p, configs, collected)
  {
    match FindConfig(configs, CpuUsage)
    case Some(cpuConfig) =>
      var cpuValue := ParseNumber(p, Lookup(collected, cpuConfig.zabbixKey));
      if cpuValue.Some? && cpuValue.value > 90.0 then Alert
      else RamCheck(p, configs, collected)
    case None => RamCheck(p, configs, collected)
  }

  function RamCheck(p: Parsers, configs: seq<Config>, collected: map<string, string>): (r: HostStatus)
    ensures r != Inactive
    ensures r == Alert <==> RamLow(p, configs, collected)
  {
    var memTotal := FindConfig(configs, RamTotal);
    var memAvailable := FindConfig(configs, RamAvailable);
    if memTotal.Some? && memAvailable.Some? then
      var total := ParseNumber(p, Lookup(collected, memTotal.value.zabbixKey));
      var available := ParseNumber(p, Lookup(collected, memAvailable.value.zabbixKey));
      if total.Some? && available.Some? && total.value > 0.0 then
        var percentFree := (available.value / total.value) * 100.0;
        if percentFree < 10.0 then Alert else Active
      else Active
    else Active
  }

  /** `determineHostStatus`. */
  function DetermineHostStatus(p: Parsers, configs: seq<Config>, collected: map<string, string>): HostStatus
  {
    match CustomAvailability(configs)
    case Some(custom) =>
      var rawJson := Lookup(collected, custom.zabbixKey);
      if rawJson.None? then Inactive
      else
        (match p.health(rawJson.value)
         case None => Inactive
         case Some(doc) =>
           if doc.status == "UP" then
             if doc.db.None? || doc.db.value == "UP" then CheckResourceAlerts(p, configs, collected)
             else Alert
           else Inactive)
    case None =>
      match FindConfig(configs, AvailGlobal)
      case Some(ping) =>
        var availabilityValue := ParseNumber(p, Lookup(collected, ping.zabbixKey));
        if availabilityValue.None? || availabilityValue.value == 0.0 then Inactive
        else CheckResourceAlerts(p, configs, collected)
      case None => Inactive
  }

  // ---------------------------------------------------------------------
  // The same rules as a decision table: which availability signal the host
  // offers, what that signal says, and how the verdict combines with the
  // resource checks.

  /** The availability signal in priority order: a health/http-agente JSON
      value, else a ping value, else none. */
  datatype Signal = NoSignal | JsonSignal(raw: Option<string>) | PingSignal(value: Option<real>)

  datatype Availability = Unavailable | DependencyDown | Available

  function SignalOf(p: Parsers, configs: seq<Config>, collected: map<string, string>): Signal
  {
    if HasMetric(configs, AvailGlobalHealth) || HasMetric(configs, AvailGlobalHttp) then
      var c :| c in configs && IsCustomAvailability(c) && CustomAvailability(configs) == Some(c);
      JsonSignal(Lookup(collected, c.zabbixKey))
    else if HasMetric(configs, AvailGlobal) then
      PingSignal(ReadingOf(p, configs, collected, AvailGlobal))
    else NoSignal
  }

  function AvailabilityOf(p: Parsers, signal: Signal): Availability
  {
    match signal
    case NoSignal => Unavailable
    case JsonSignal(raw) =>
      if raw.None? || p.health(raw.value).None? then Unavailable
      else
        var doc := p.health(raw.value).value;
        if doc.status != "UP" then Unavailable
        else if doc.db.Some? && doc.db.value != "UP" then DependencyDown
        else Available
    case PingSignal(value) =>
      if value == None || value == Some(0.0) then Unavailable else Available
  }

  /** The decision table of the availability rule followed by the resource rule. */
  function StatusByTable(p: Parsers, configs: seq<Config>, collected: map<string, string>): HostStatus
  {
    match AvailabilityOf(p, SignalOf(p, configs, collected))
    case Unavailable => Inactive
    case DependencyDown => Alert
    case Available => if CpuHigh(p, configs, collected) || RamLow(p, configs, collected) then Alert else Active
  }

  /** `determineHostStatus` follows the decision table on every input. */
  lemma DetermineFollowsTable(p: Parsers, configs: seq<Config>, collected: map<string, string>)
    ensures DetermineHostStatus(p, configs, collected) == StatusByTable(p, configs, collected)
  {
    var custom := CustomAvailability(configs);
    if custom.Some? {
      assert HasMetric(configs, custom.value.metricKey);
    }
  }

  /** Without a health, http-agente or ping config the host is INACTIVE,
      whatever its CPU and RAM report. */
  lemma NoSignalIsInactive(p: Parsers, configs: seq<Config>, collected: map<string, string>)
    requires !HasMetric(configs, AvailGlobalHealth) && !HasMetric(configs, AvailGlobalHttp)
    requires !HasMetric(configs, AvailGlobal)
    ensures DetermineHostStatus(p, configs, collected) == Inactive
  {
    DetermineFollowsTable(p, configs, collected);
  }

  /** The outcome table of the JSON signal: INACTIVE unless the document reads
      and its status is exactly "UP"; ALERT when `deps.db` is present and not
      "UP"; otherwise the resource checks decide. */
  lemma JsonSignalOutcomes(p: Parsers, configs: seq<Config>, collected: map<string, string>, custom: Config)
    requires CustomAvailability(configs) == Some(custom)
    ensures var raw := Lookup(collected, custom.zabbixKey);
            var r := DetermineHostStatus(p, configs, collected);
            && (r == Inactive <==> raw.None? || p.health(raw.value).None? || p.health(raw.value).value.status != "UP")
            && (r == Alert <==>
                  raw.Some? && p.health(raw.value).Some? && p.health(raw.value).value.status == "UP"
                  && ((p.health(raw.value).value.db.Some? && p.health(raw.value).value.db.value != "UP")
                      || CpuHigh(p, configs, collected) || RamLow(p, configs, collected)))
  {
  }

  /** With only a ping signal: a missing, unparseable or zero value is
      INACTIVE; any other value hands over to the resource checks. */
  lemma PingSignalOutcomes(p: Parsers, configs: seq<Config>, collected: map<string, string>)
    requires !HasMetric(configs, AvailGlobalHealth) && !HasMetric(configs, AvailGlobalHttp)
    requires HasMetric(configs, AvailGlobal)
    ensures var v := ReadingOf(p, configs, collected, AvailGlobal);
            var r := DetermineHostStatus(p, configs, collected);
            && (r == Inactive <==> v.None? || v.value == 0.0)
            && (r != Inactive ==> r == CheckResourceAlerts(p, configs, collected))
  {
    assert CustomAvailability(configs).None? by {
      if CustomAvailability(configs).Some? {
        var c := CustomAvailability(configs).value;
        assert c in configs;
      }
    }
  }

  /** ACTIVE means some availability signal passed and no resource alert fired;
      the resource checks never run for an unavailable host. */
  lemma ActiveMeansAllChecksPassed(p: Parsers, configs: seq<Config>, collected: map<string, string>)
    ensures DetermineHostStatus(p, configs, collected) == Active <==>
              AvailabilityOf(p, SignalOf(p, configs, collected)) == Available
              && !CpuHigh(p, configs, collected) && !RamLow(p, configs, collected)
  {
    DetermineFollowsTable(p, configs, collected);
  }

  /** The configs other than those of one metric, in the same order. */
  function WithoutMetric(configs: seq<Config>, metricKey: string): (r: seq<Config>)
    ensures forall c :: c in r <==> c in configs && c.metricKey != metricKey
  {
    if configs == [] then []
    else if configs[0].metricKey == metricKey then WithoutMetric(configs[1..], metricKey)
    else [configs[0]] + WithoutMetric(configs[1..], metricKey)
  }

  lemma {:induction false} FindConfigIgnoresOtherMetric(configs: seq<Config>, removed: string, metricKey: string)
    requires removed != metricKey
    ensures FindConfig(WithoutMetric(configs, removed), metricKey) == FindConfig(configs, metricKey)
  {
    if configs != [] {
      FindConfigIgnoresOtherMetric(configs[1..], removed, metricKey);
    }
  }

  lemma {:induction false} CustomIgnoresPingConfig(configs: seq<Config>)
    ensures CustomAvailability(WithoutMetric(configs, AvailGlobal)) == CustomAvailability(configs)
  {
    if configs != [] {
      CustomIgnoresPingConfig(configs[1..]);
    }
  }

  lemma ResourceChecksIgnorePingConfig(p: Parsers, configs: seq<Config>, collected: map<string, string>)
    ensures CheckResourceAlerts(p, WithoutMetric(configs, AvailGlobal), collected)
            == CheckResourceAlerts(p, configs, collected)
  {
    var without := WithoutMetric(configs, AvailGlobal);
    FindConfigIgnoresOtherMetric(configs, AvailGlobal, CpuUsage);
    FindConfigIgnoresOtherMetric(configs, AvailGlobal, RamTotal);
    FindConfigIgnoresOtherMetric(configs, AvailGlobal, RamAvailable);
    assert CpuHigh(p, without, collected) == CpuHigh(p, configs, collected);
    assert RamLow(p, without, collected) == RamLow(p, configs, collected);
  }

  /** When a health or http-agente config exists, ping is never consulted: the
      status is the same with the ping config removed. */
  lemma PingIgnoredWhenJsonSignal(p: Parsers, configs: seq<Config>, collected: map<string, string>)
    requires CustomAvailability(configs).Some?
    ensures DetermineHostStatus(p, WithoutMetric(configs, AvailGlobal), collected)
            == DetermineHostStatus(p, configs, collected)
  {
    ResourceChecksIgnorePingConfig(p, configs, collected);
    CustomIgnoresPingConfig(configs);
  }
}
