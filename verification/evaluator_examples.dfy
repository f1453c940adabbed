/** The scheduler's unit-test scenarios and the threshold boundaries, stated
    for every parser that reads the test inputs the way Jackson and
    `Double.parseDouble` do. */
module StatusEvaluatorExamples {
  import opened Wrappers
  import opened Domain
  import opened StatusEvaluator

  const HealthKey := "sigaa.health.ready"
  const PingKey := "zabbix[host,agent,available]"
  const CpuKey := "system.cpu.util"

  const HealthyJson := "{\"status\":\"UP\",\"deps\":{\"db\":\"UP\"}}"
  const DbDownJson := "{\"status\":\"UP\",\"deps\":{\"db\":\"DOWN\"}}"

  lemma HealthUpDbUpIsActive(p: Parsers)
    requires p.health(HealthyJson) == Some(HealthDoc("UP", Some("UP")))
    ensures DetermineHostStatus(p, [Config(AvailGlobalHealth, Some(HealthKey))], map[HealthKey := HealthyJson]) == Active
  {
  }

  lemma HealthUpDbDownIsAlert(p: Parsers)
    requires p.health(DbDownJson) == Some(HealthDoc("UP", Some("DOWN")))
    ensures DetermineHostStatus(p, [Config(AvailGlobalHealth, Some(HealthKey))], map[HealthKey := DbDownJson]) == Alert
  {
  }

  lemma PingZeroIsInactive(p: Parsers)
    requires p.number("0.0") == Some(0.0)
    ensures DetermineHostStatus(p, [Config(AvailGlobal, Some(PingKey))], map[PingKey := "0.0"]) == Inactive
  {
  }

  lemma HighCpuIsAlert(p: Parsers)
    requires p.number("1.0") == Some(1.0) && p.number("95.5") == Some(95.5)
    ensures DetermineHostStatus(p, [Config(AvailGlobal, Some(PingKey)), Config(CpuUsage, Some(CpuKey))],
                                map[PingKey := "1.0", CpuKey := "95.5"]) == Alert
  {
  }

  /** CPU at exactly 90% is not an alert: the comparison is strict. */
  lemma CpuAtThresholdIsActive(p: Parsers)
    requires p.number("1.0") == Some(1.0) && p.number("90.0") == Some(90.0)
    ensures DetermineHostStatus(p, [Config(AvailGlobal, Some(PingKey)), Config(CpuUsage, Some(CpuKey))],
                                map[PingKey := "1.0", CpuKey := "90.0"]) == Active
  {
  }

  /** A host monitored by ping and the two RAM metrics, under any three
      distinct Zabbix item keys. */
  function RamConfigs(pingKey: string, totalKey: string, availableKey: string): seq<Config>
  {
    [Config(AvailGlobal, Some(pingKey)), Config(RamTotal, Some(totalKey)), Config(RamAvailable, Some(availableKey))]
  }

  predicate Distinct3(a: string, b: string, c: string)
  {
    a != b && b != c && a != c
  }

  /** With ping up and no CPU config, the RAM readings alone decide. */
  lemma RamScenario(p: Parsers, pingKey: string, totalKey: string, availableKey: string,
                    pingText: string, totalText: string, availableText: string, total: real, available: real)
    requires Distinct3(pingKey, totalKey, availableKey)
    requires p.number(pingText) == Some(1.0)
    requires p.number(totalText) == Some(total) && p.number(availableText) == Some(available)
    requires total > 0.0
    ensures var status := DetermineHostStatus(p, RamConfigs(pingKey, totalKey, availableKey),
                                              map[pingKey := pingText, totalKey := totalText, availableKey := availableText]);
            status == if available / total * 100.0 < 10.0 then Alert else Active
  {
    var configs := RamConfigs(pingKey, totalKey, availableKey);
    var collected := map[pingKey := pingText, totalKey := totalText, availableKey := availableText];
    assert !HasMetric(configs, AvailGlobalHealth) && !HasMetric(configs, AvailGlobalHttp);
    assert configs[0] in configs;
    PingSignalOutcomes(p, configs, collected);
    assert ReadingOf(p, configs, collected, AvailGlobal) == Some(1.0);
    assert ReadingOf(p, configs, collected, CpuUsage) == None;
    assert ReadingOf(p, configs, collected, RamTotal) == Some(total);
    assert ReadingOf(p, configs, collected, RamAvailable) == Some(available);
  }

  /** 5% of RAM free is an alert. */
  lemma LowFreeRamIsAlert(p: Parsers, pingKey: string, totalKey: string, availableKey: string,
                          pingText: string, totalText: string, availableText: string)
    requires Distinct3(pingKey, totalKey, availableKey)
    requires p.number(pingText) == Some(1.0)
    requires p.number(totalText) == Some(8000000000.0) && p.number(availableText) == Some(400000000.0)
    ensures DetermineHostStatus(p, RamConfigs(pingKey, totalKey, availableKey),
              map[pingKey := pingText, totalKey := totalText, availableKey := availableText]) == Alert
  {
    assert 400000000.0 / 8000000000.0 * 100.0 < 10.0;
    RamScenario(p, pingKey, totalKey, availableKey, pingText, totalText, availableText, 8000000000.0, 400000000.0);
  }

  /** 25% of RAM free is not. */
  lemma AmpleFreeRamIsActive(p: Parsers, pingKey: string, totalKey: string, availableKey: string,
                             pingText: string, totalText: string, availableText: string)
    requires Distinct3(pingKey, totalKey, availableKey)
    requires p.number(pingText) == Some(1.0)
    requires p.number(totalText) == Some(8000000000.0) && p.number(availableText) == Some(2000000000.0)
    ensures DetermineHostStatus(p, RamConfigs(pingKey, totalKey, availableKey),
              map[pingKey := pingText, totalKey := totalText, availableKey := availableText]) == Active
  {
    assert 2000000000.0 / 8000000000.0 * 100.0 >= 10.0;
    RamScenario(p, pingKey, totalKey, availableKey, pingText, totalText, availableText, 8000000000.0, 2000000000.0);
  }

  /** Exactly 10% free is not an alert: the comparison is strict. */
  lemma TenPercentFreeRamIsActive(p: Parsers, pingKey: string, totalKey: string, availableKey: string,
                                  pingText: string, totalText: string, availableText: string)
    requires Distinct3(pingKey, totalKey, availableKey)
    requires p.number(pingText) == Some(1.0)
    requires p.number(totalText) == Some(8000000000.0) && p.number(availableText) == Some(800000000.0)
    ensures DetermineHostStatus(p, RamConfigs(pingKey, totalKey, availableKey),
              map[pingKey := pingText, totalKey := totalText, availableKey := availableText]) == Active
  {
    assert 800000000.0 / 8000000000.0 * 100.0 >= 10.0;
    RamScenario(p, pingKey, totalKey, availableKey, pingText, totalText, availableText, 8000000000.0, 800000000.0);
  }

  /** Priority: a passing JSON signal decides even when the ping value says the host is down. */
  lemma JsonSignalOverridesFailedPing(p: Parsers)
    requires p.health(HealthyJson) == Some(HealthDoc("UP", Some("UP")))
    requires p.number("0.0") == Some(0.0)
    ensures DetermineHostStatus(p, [Config(AvailGlobal, Some(PingKey)), Config(AvailGlobalHealth, Some(HealthKey))],
                                map[PingKey := "0.0", HealthKey := HealthyJson]) == Active
  {
  }
}
