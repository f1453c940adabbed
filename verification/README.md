# MSA-DTI monitoring core in Dafny

MSA-DTI is a Spring Boot application that monitors servers registered in
Zabbix. This project models its core as pure functions over immutable data:

- **The collection cycle** (`MetricCollectorScheduler.collectAllMetrics`).
  - Every host's configured items are fetched from Zabbix.
  - Numbers go to the metric history, as do health-check JSON verdicts.
  - Anything else becomes the host's current text value.
  - The host's status (ACTIVE / ALERT / INACTIVE) is recomputed by `determineHostStatus` and `checkResourceAlerts`.
  - The host's recent events are replaced by what Zabbix reports now.
- **The hourly cleanup job** (`CleanupScheduler.cleanupOldData`).
  - It applies 48-hour time retention to the metric history and the connection log.
  - It then caps every (host, metric) series at 2880 rows.
- **`MetricCatalog`**: the fixed table from form checkbox names to metric keys, and its inverse.
- **The pure rules of `HostService`**:
  - the choice of each metric's Zabbix key (`findZabbixKeyForMetric`, both overloads);
  - host creation and update from the form's checkboxes;
  - the availability-key priority (`getPriorityKey`);
  - the status labels and uptime formatting;
  - the administrator's overall availability and the per-view availability defaults.
- **The query semantics** of `MetricHistoryRepository` and `RecentEventsRepository`: upsert by composite key, time-window deletes, newest-first paging.

Modules, one per concern:

| module | file | role |
|---|---|---|
| `Wrappers` | wrappers.dfy | `Option` and `Result` |
| `Text` | text.dfy | `equalsIgnoreCase`, `isBlank`, decimal `%d` rendering |
| `Domain` | domain.dfy | hosts, configs, history rows, text values, events, the store |
| `Sorting` | sorting.dfy | a stable insertion sort on sequences |
| `Catalog` | catalog.dfy | `MetricCatalog` |
| `StatusEvaluator` | evaluator.dfy | `determineHostStatus`, `checkResourceAlerts` |
| `StatusEvaluatorExamples` | evaluator_examples.dfy | the unit-test scenarios as lemmas |
| `HistoryRepository` | history_repo.dfy | `MetricHistoryRepository` |
| `EventsRepository` | events_repo.dfy | `RecentEventsRepository` |
| `Collector` | collector.dfy | `collectAllMetrics` |
| `Cleanup` | cleanup.dfy | `CleanupScheduler` |
| `HostViews` | host_views.dfy | read-side rules of `HostService` |
| `HostConfig` | host_config.dfy | write-side rules of `HostService` |

Things the program gets from outside are parameters of the model:
- **The JSON and number parsers** (`Parsers`).
- **Zabbix's answers** (`Telemetry`), as item values and events per Zabbix host id. A missing key is a null answer.
- **The registry** (`Registry`): whether Zabbix knows a host, whether a Zabbix id is registered, the metrics table, the default-key table, and item existence.
- **The current time** (`now`, whole seconds).
- **The new host's database id and random public id.**

A host's metric configurations are a sequence whose order stands for the iteration order of the underlying `HashSet`. "The first config such that …" is therefore what `findFirst` returns for that order.

All source paths below are under `src/aplicacao/src/main/java/br/com/dti/msa/` except the test file.

## Model

| member | source | states |
|---|---|---|
| StatusEvaluator.CustomAvailability | src/aplicacao/src/main/java/br/com/dti/msa/scheduler/MetricCollectorScheduler.java:172-175 | The custom availability config is absent exactly when no config is of the global health or global http-agente metric. Otherwise it is such a config, and it is the first config of its metric when only one of the two metrics is configured. |
| StatusEvaluator.CheckResourceAlerts | src/aplicacao/src/main/java/br/com/dti/msa/scheduler/MetricCollectorScheduler.java:241-276 | Never INACTIVE. ALERT exactly when CPU use exceeds 90% or free RAM is below 10% of total; otherwise ACTIVE. |
| StatusEvaluator.DetermineFollowsTable | src/aplicacao/src/main/java/br/com/dti/msa/scheduler/MetricCollectorScheduler.java:163-235 | On every input, `determineHostStatus` equals an independent decision table. The table first picks the availability signal (JSON over ping over none), then rates availability, then applies the resource rule. |
| StatusEvaluator.NoSignalIsInactive | src/aplicacao/src/main/java/br/com/dti/msa/scheduler/MetricCollectorScheduler.java:209-226 | A host with no health, http-agente or ping config is INACTIVE, whatever its CPU and RAM. |
| StatusEvaluator.JsonSignalOutcomes | src/aplicacao/src/main/java/br/com/dti/msa/scheduler/MetricCollectorScheduler.java:177-207 | With a JSON signal, INACTIVE holds exactly when the value is missing, does not parse, or its status is not exactly "UP". ALERT holds exactly when the status is "UP" and either `deps.db` is present and not "UP" or a resource alert fires. |
| StatusEvaluator.PingSignalOutcomes | src/aplicacao/src/main/java/br/com/dti/msa/scheduler/MetricCollectorScheduler.java:209-226 | With only ping, INACTIVE holds exactly when the ping value is missing, unparseable or 0. Otherwise the resource rule decides. |
| StatusEvaluator.ActiveMeansAllChecksPassed | src/aplicacao/src/main/java/br/com/dti/msa/scheduler/MetricCollectorScheduler.java:163-276 | ACTIVE if and only if the availability signal passed and neither the CPU nor the RAM alert fires. |
| StatusEvaluator.PingIgnoredWhenJsonSignal | src/aplicacao/src/main/java/br/com/dti/msa/scheduler/MetricCollectorScheduler.java:177-209 | When a health or http-agente config exists, removing the ping config does not change the status. |
| StatusEvaluatorExamples.HealthUpDbUpIsActive | src/aplicacao/src/test/java/br/com/dti/msa/scheduler/MetricCollectorSchedulerTest.java:46-66 | Health JSON "UP" with db "UP" gives ACTIVE. |
| StatusEvaluatorExamples.HealthUpDbDownIsAlert | src/aplicacao/src/test/java/br/com/dti/msa/scheduler/MetricCollectorSchedulerTest.java:69-86 | Health JSON "UP" with db "DOWN" gives ALERT. |
| StatusEvaluatorExamples.PingZeroIsInactive | src/aplicacao/src/test/java/br/com/dti/msa/scheduler/MetricCollectorSchedulerTest.java:89-106 | A ping reading of 0.0 gives INACTIVE. |
| StatusEvaluatorExamples.HighCpuIsAlert | src/aplicacao/src/test/java/br/com/dti/msa/scheduler/MetricCollectorSchedulerTest.java:109-130 | Ping up with CPU at 95.5% gives ALERT. |
| StatusEvaluatorExamples.CpuAtThresholdIsActive | src/aplicacao/src/main/java/br/com/dti/msa/scheduler/MetricCollectorScheduler.java:245-252 | CPU at exactly 90% raises no alert, because the comparison is strict. |
| StatusEvaluatorExamples.RamScenario | src/aplicacao/src/main/java/br/com/dti/msa/scheduler/MetricCollectorScheduler.java:255-272 | With ping up, no CPU config and a positive total, the host is ALERT exactly when available memory is under 10% of total, and ACTIVE otherwise. This holds for any three distinct item keys. |
| StatusEvaluatorExamples.LowFreeRamIsAlert | src/aplicacao/src/main/java/br/com/dti/msa/scheduler/MetricCollectorScheduler.java:255-272 | 0.4 GB free of 8 GB gives ALERT. |
| StatusEvaluatorExamples.AmpleFreeRamIsActive | src/aplicacao/src/main/java/br/com/dti/msa/scheduler/MetricCollectorScheduler.java:255-272 | 2 GB free of 8 GB gives ACTIVE. |
| StatusEvaluatorExamples.TenPercentFreeRamIsActive | src/aplicacao/src/main/java/br/com/dti/msa/scheduler/MetricCollectorScheduler.java:255-272 | Exactly 10% free RAM (0.8 GB of 8 GB) gives ACTIVE, because the comparison is strict. |
| StatusEvaluatorExamples.JsonSignalOverridesFailedPing | src/aplicacao/src/main/java/br/com/dti/msa/scheduler/MetricCollectorScheduler.java:177-209 | A healthy JSON signal gives ACTIVE even when ping reads 0. |
| Collector.ParseHealthCheckJson | src/aplicacao/src/main/java/br/com/dti/msa/scheduler/MetricCollectorScheduler.java:329-343 | Absent exactly when the document does not parse. Otherwise 1.0 exactly when `status` equals "UP" ignoring case, and 0.0 for any other status. |
| Collector.Classify | src/aplicacao/src/main/java/br/com/dti/msa/scheduler/MetricCollectorScheduler.java:82-99 | A number is filed as that number. A value is text exactly when it is not a number and either the metric is not a health-check metric or the JSON does not parse. Text keeps the raw value. A non-number filed as a number is a 0/1 health verdict. |
| Collector.RawValue | src/aplicacao/src/main/java/br/com/dti/msa/scheduler/MetricCollectorScheduler.java:69-80 | A config is read exactly when its Zabbix key is non-null, is not "zabbix_api" in any case, and Zabbix answers non-null. The value read is Zabbix's answer. |
| Collector.Collected | src/aplicacao/src/main/java/br/com/dti/msa/scheduler/MetricCollectorScheduler.java:67-115 | The map of fetched values holds exactly the keys of fetched configs that Zabbix answered, each with Zabbix's value. |
| Collector.CollectedIsWhatWasFetched | src/aplicacao/src/main/java/br/com/dti/msa/scheduler/MetricCollectorScheduler.java:67-119 | What the status rules read for a fetched config is what was fetched for it. |
| Collector.HostHistoryRows | src/aplicacao/src/main/java/br/com/dti/msa/scheduler/MetricCollectorScheduler.java:101-105 | A host's history rows are exactly one row at `now` per config with a numeric reading. They have unique keys when the host's metrics are distinct. |
| Collector.HostTextUpdates | src/aplicacao/src/main/java/br/com/dti/msa/scheduler/MetricCollectorScheduler.java:106-111 | Only the host's text-yielding slots change. Each such slot then holds the raw value stamped `now`. Every other slot is unchanged. |
| Collector.UpdateStatuses | src/aplicacao/src/main/java/br/com/dti/msa/scheduler/MetricCollectorScheduler.java:117-119 | Each host gets the status the rules give it, and nothing else about the host changes. |
| Collector.HistoryBatchUnique | src/aplicacao/src/main/java/br/com/dti/msa/scheduler/MetricCollectorScheduler.java:146-150 | For well-formed hosts (distinct ids, distinct metrics per host), the run's history batch has unique primary keys. |
| Collector.CollectAllMetrics | src/aplicacao/src/main/java/br/com/dti/msa/scheduler/MetricCollectorScheduler.java:48-158 | The connection log is untouched and history keys stay unique. Every new history row is stamped `now` and belongs to a known host. `saveAll` only adds rows or overwrites rows stamped `now`, so every history row stamped at another instant survives the run. |
| Collector.NumericValueGoesToHistory | src/aplicacao/src/main/java/br/com/dti/msa/scheduler/MetricCollectorScheduler.java:101-105 | A numeric reading ends up in the history at `now`, and the text slot of that host and metric is unchanged. |
| Collector.TextValueGoesToCurrentValue | src/aplicacao/src/main/java/br/com/dti/msa/scheduler/MetricCollectorScheduler.java:286-300 | A text reading replaces the slot's value with the raw value stamped `now`, and adds no history row. |
| Collector.UnfetchedValueChangesNothing | src/aplicacao/src/main/java/br/com/dti/msa/scheduler/MetricCollectorScheduler.java:71-80 | A skipped config, or one Zabbix answers null for, adds no history row and leaves its text slot as it was. |
| Collector.EventsAreReplaced | src/aplicacao/src/main/java/br/com/dti/msa/scheduler/MetricCollectorScheduler.java:124-143 | After a run, an events-collecting host's events are exactly Zabbix's current events, converted. A host that does not collect events keeps its old events. |
| Collector.EventsDoNotAccumulate | src/aplicacao/src/main/java/br/com/dti/msa/scheduler/MetricCollectorScheduler.java:124-155 | After two runs, a collecting host holds only the second run's events. |
| Collector.LowercaseUpStoredButInactive | src/aplicacao/src/main/java/br/com/dti/msa/scheduler/MetricCollectorScheduler.java:177-207 | Health JSON with status "up" is stored as 1.0 (case-insensitive test), yet the host is rated INACTIVE (exact test). |
| Catalog.MetricKeysForCheckbox | src/aplicacao/src/main/java/br/com/dti/msa/service/MetricCatalog.java:39-41 | Empty exactly for an unknown checkbox. Otherwise it is that checkbox's key list. |
| Catalog.CheckboxesForMetricKeys | src/aplicacao/src/main/java/br/com/dti/msa/service/MetricCatalog.java:46-60 | Exactly the checkboxes all of whose keys are saved, without duplicates. |
| Catalog.KeyListsNonEmpty | src/aplicacao/src/main/java/br/com/dti/msa/service/MetricCatalog.java:13-37 | Every checkbox enables at least one metric key. |
| Catalog.KeyListsDisjoint | src/aplicacao/src/main/java/br/com/dti/msa/service/MetricCatalog.java:13-37 | No metric key belongs to two checkboxes. |
| Catalog.CheckboxesMonotone | src/aplicacao/src/main/java/br/com/dti/msa/service/MetricCatalog.java:46-60 | Saving more keys never loses a checkbox. |
| Catalog.RoundTrip | src/aplicacao/src/main/java/br/com/dti/msa/service/MetricCatalog.java:39-60 | For any set of known checkboxes, translating it to keys and back gives exactly that set. |
| HostConfig.ZabbixKeyFor | src/aplicacao/src/main/java/br/com/dti/msa/service/HostService.java:657-723 | Outside recent events on the update form, the key for a health checkbox is a filled health field, and for an http-agente checkbox a filled custom field. For any other metric it is its default key when the table has one. The update form always gives exactly "zabbix_api" for recent events. Every key found comes from one of these sources. Each error names the missing input: a blank or null health field, a blank or null custom field, or a metric with no default key. A key taken from a form field is never blank. |
| HostConfig.OverloadsAgreeOutsideEvents | src/aplicacao/src/main/java/br/com/dti/msa/service/HostService.java:657-723 | The create and update overloads agree on every metric except recent events. |
| HostConfig.ExpandConfigs | src/aplicacao/src/main/java/br/com/dti/msa/service/HostService.java:540-573 | The expansion fails exactly when some enabled checkbox is refused. A checkbox is refused when it is not in the catalog, or when one of its metric keys is missing from the metrics table, gets no Zabbix key, or gets a key that is neither the marker nor an item of the Zabbix host. On success, the configs cover exactly the keys of the enabled checkboxes, one per metric. Each is validated against Zabbix or is the API marker. Each config stores the Zabbix key that `findZabbixKeyForMetric` chooses for its metric under one of the enabled checkboxes that lists it. Every checkbox is in the catalog. |
| HostConfig.ExpandFailsOnUnknown | src/aplicacao/src/main/java/br/com/dti/msa/service/HostService.java:545-549 | Any checkbox not in the catalog makes the whole expansion fail. |
| HostConfig.CreateAndValidateHost | src/aplicacao/src/main/java/br/com/dti/msa/service/HostService.java:519-584 | An unknown Zabbix host is refused first, then an already registered Zabbix id. The host is created exactly when it is known to Zabbix, not yet registered, and no enabled checkbox is refused. On success the host carries the form's fields and is ACTIVE. Its configs are the validated expansion of its checkboxes, each storing the key the create form chooses for it. |
| HostConfig.CreatedHostShowsItsCheckboxes | src/aplicacao/src/main/java/br/com/dti/msa/service/HostService.java:491-496 | A created host's saved keys translate back to exactly the checkboxes it was created with. |
| HostConfig.UpdateHost | src/aplicacao/src/main/java/br/com/dti/msa/service/HostService.java:591-637 | The update goes through exactly when no enabled checkbox is refused. On success, the id, public id and status are kept and the form's fields are copied. The configs are the validated expansion of the new checkboxes, each storing the key the update form chooses for it. |
| HostConfig.UpdateReplacesConfigs | src/aplicacao/src/main/java/br/com/dti/msa/service/HostService.java:631-633 | The outcome of an update does not depend on the configs the host had before. |
| HostConfig.UpdatedEventsConfigUsesApi | src/aplicacao/src/main/java/br/com/dti/msa/service/HostService.java:690-700 | After an update, a recent-events config always carries the "zabbix_api" marker. |
| HostViews.PriorityKey | src/aplicacao/src/main/java/br/com/dti/msa/service/HostService.java:725-730 | Null exactly when none of the three keys is configured. Otherwise the result is a configured key. |
| HostViews.PriorityKeyIsFirstConfigured | src/aplicacao/src/main/java/br/com/dti/msa/service/HostService.java:725-730 | `getPriorityKey` equals "the first configured key in priority order". |
| HostViews.HomepageAgreesWithDashboard | src/aplicacao/src/main/java/br/com/dti/msa/service/HostService.java:370-393 | The homepage's inline if-chains pick the same global and specific keys as the dashboard's `getPriorityKey`. |
| HostViews.StatusLabelRoundTrip | src/aplicacao/src/main/java/br/com/dti/msa/service/HostService.java:127-138 | The status labels "OK"/"ALERT"/"PROBLEM" are distinct, and reading a label back gives the status. |
| HostViews.JavaRem | src/aplicacao/src/main/java/br/com/dti/msa/service/HostService.java:778-780 | Java's truncating division and remainder: a = q*b + r, with r taking the sign of a and |r| < b. |
| HostViews.UptimeIsProperSplit | src/aplicacao/src/main/java/br/com/dti/msa/service/HostService.java:777-782 | For non-negative seconds, days, hours and minutes recompose the total up to the leftover seconds. Hours are < 24, minutes < 60, and the leftover < 60. |
| HostViews.UptimeRoundTrip | src/aplicacao/src/main/java/br/com/dti/msa/service/HostService.java:777-782 | For a non-negative number of seconds, reading back "d dias, h horas, m minutos" gives the days, hours and minutes it was written from. A negative uptime prints a leading "-", which the reader rejects. |
| HostViews.OverallAvailability | src/aplicacao/src/main/java/br/com/dti/msa/service/HostService.java:436-447 | Within [0, 100], and 100 when there are no hosts. With hosts, it has at most two decimals and lies within half a hundredth of the share of ACTIVE or ALERT hosts, with ties rounded up. |
| HostViews.OverallIsRoundedShare | src/aplicacao/src/main/java/br/com/dti/msa/service/HostService.java:438-444 | The contract of `OverallAvailability` fixes its value: the share of up hosts rounded half-up to two decimals. |
| HostViews.GridPinsRounding | src/aplicacao/src/main/java/br/com/dti/msa/service/HostService.java:442-443 | A two-decimal value within half a hundredth of a non-negative number, ties upward, is that number rounded half-up to two decimals (`setScale(2, HALF_UP)`). |
| HostViews.OverallAvailabilityExtremes | src/aplicacao/src/main/java/br/com/dti/msa/service/HostService.java:436-444 | No INACTIVE host gives exactly 100, and all INACTIVE gives exactly 0. |
| HostViews.HomepageHosts | src/aplicacao/src/main/java/br/com/dti/msa/service/HostService.java:357-359 | The homepage lists exactly the hosts that are not ACTIVE. |
| HostViews.AvailabilityDefaultsDiffer | src/aplicacao/src/main/java/br/com/dti/msa/service/HostService.java:763-775 | With no history in the window, the dashboard shows 100 (lines 770-773) where the homepage shows 0 (line 382). With history, both show the repository's value. |
| HistoryRepository.Save | src/aplicacao/src/main/java/br/com/dti/msa/repository/MetricHistoryRepository.java:17 | Saving under the composite key upserts. The row is present afterwards, rows with other keys stay, nothing else appears, and keys stay unique. |
| HistoryRepository.SaveAll | src/aplicacao/src/main/java/br/com/dti/msa/repository/MetricHistoryRepository.java:17 | A batch with unique keys is entirely present afterwards. Rows whose key the batch does not touch stay, and keys stay unique. |
| HistoryRepository.DeleteOlderThan | src/aplicacao/src/main/java/br/com/dti/msa/repository/MetricHistoryRepository.java:22-25 | Exactly the rows stamped before the cutoff go. |
| HistoryRepository.Latest | src/aplicacao/src/main/java/br/com/dti/msa/repository/MetricHistoryRepository.java:35 | Absent exactly when the pair has no rows. Otherwise it is a row of the pair with the greatest timestamp. |
| HistoryRepository.RangeAfter | src/aplicacao/src/main/java/br/com/dti/msa/repository/MetricHistoryRepository.java:40 | Exactly the pair's rows strictly after the start, oldest first, as a permutation of the matching rows. |
| HistoryRepository.Availability | src/aplicacao/src/main/java/br/com/dti/msa/repository/MetricHistoryRepository.java:45-53 | Null exactly when the pair has no row at or after the start. |
| HistoryRepository.AvailabilityIsPercentage | src/aplicacao/src/main/java/br/com/dti/msa/repository/MetricHistoryRepository.java:45-53 | With readings in [0, 1], the average times 100 lies in [0, 100]. |
| HistoryRepository.AvailabilityOrderFree | src/aplicacao/src/main/java/br/com/dti/msa/repository/MetricHistoryRepository.java:45-48 | `AVG` is an aggregate over a bag: two stores holding the same rows in any order give the same availability. |
| HistoryRepository.AvailabilityBetween | src/aplicacao/src/main/java/br/com/dti/msa/repository/MetricHistoryRepository.java:45-48 | The availability is 100 times a mean, so it lies between 100 times the least and 100 times the greatest reading in the window. |
| HistoryRepository.AvailabilityOfConstant | src/aplicacao/src/main/java/br/com/dti/msa/repository/MetricHistoryRepository.java:45-48 | When every reading in a non-empty window equals v, the availability is exactly 100 v. |
| HistoryRepository.AvailabilityAddRow | src/aplicacao/src/main/java/br/com/dti/msa/repository/MetricHistoryRepository.java:45-48 | Adding one row inside the window moves the availability as a running mean: with n earlier readings averaging a (in percent), one more reading v gives (n a + 100 v) / (n + 1), and a first reading gives 100 v. With the empty window giving null, this fixes the value as 100 times the mean on every store. |
| HistoryRepository.WindowBoundaries | src/aplicacao/src/main/java/br/com/dti/msa/repository/MetricHistoryRepository.java:40-48 | A row stamped exactly at the start counts for availability (`>=`) but is not returned by the range query (`After`). |
| EventsRepository.DeleteByHostId | src/aplicacao/src/main/java/br/com/dti/msa/repository/RecentEventsRepository.java:24-25 | Exactly the host's events go, and every other host's events are unchanged. |
| EventsRepository.FindRecentCriticalEvents | src/aplicacao/src/main/java/br/com/dti/msa/repository/RecentEventsRepository.java:30-33 | Only events of the listed severities, newest first, and no event more often than it is stored. The page is as long as it can be. No left-out matching event is newer than one returned. |
| EventsRepository.FindRecentCriticalEventsForHost | src/aplicacao/src/main/java/br/com/dti/msa/repository/RecentEventsRepository.java:39-46 | The same query restricted to one host. |
| Cleanup.DeleteConnOlderThan | src/aplicacao/src/main/java/br/com/dti/msa/repository/ZabbixConnectionStatusRepository.java:18-21 | Exactly the connection-log rows stamped before the cutoff go. |
| Cleanup.KeepNewestCapsEverySeries | src/aplicacao/src/main/java/br/com/dti/msa/scheduler/CleanupScheduler.java:38-40 | After the count cap, no (host, metric) series has more than the maximum number of rows. |
| Cleanup.KeptRowsAreTheNewest | src/aplicacao/src/main/java/br/com/dti/msa/scheduler/CleanupScheduler.java:38-40 | Any row the cap drops is older than every row it keeps in the same series. |
| Cleanup.ShortSeriesKeptWhole | src/aplicacao/src/main/java/br/com/dti/msa/scheduler/CleanupScheduler.java:38-40 | A series within the cap loses nothing. |
| Cleanup.CleanupOldData | src/aplicacao/src/main/java/br/com/dti/msa/scheduler/CleanupScheduler.java:24-43 | Hosts, text values and events are unchanged. Surviving history rows were present and are within 48 hours. The connection log keeps exactly its rows within 48 hours. History keys stay unique. |
| Cleanup.CleanupCapsEverySeries | src/aplicacao/src/main/java/br/com/dti/msa/scheduler/CleanupScheduler.java:20-40 | After the job, every (host, metric) series holds at most 2880 rows. |
| Cleanup.CleanupKeepsRecentNewest | src/aplicacao/src/main/java/br/com/dti/msa/scheduler/CleanupScheduler.java:29-40 | A recent row survives exactly when fewer than 2880 recent rows of its series are newer. |
| Cleanup.CleanupIdempotent | src/aplicacao/src/main/java/br/com/dti/msa/scheduler/CleanupScheduler.java:24-43 | Running the job twice at the same instant is the same as running it once. |
| Text.IntToDecimal | src/aplicacao/src/main/java/br/com/dti/msa/scheduler/MetricCollectorScheduler.java:136 | Java's decimal rendering of an int (as used for event severities) reads back as the number, with a minus sign before a negative. |

## Left out

- Zabbix I/O, HTTP, JSON parsing and `Double.parseDouble` are parameters (`Parsers`, `Telemetry`, `Registry`).
  - NaN and infinities are not modelled; parsed numbers are exact reals.
- Floating point is modelled as exact reals.
  - `HostViews.OverallAvailability` rounds the exact share half-up to two decimals, which `BigDecimal(Double.toString(x))` also does except for binary rounding noise.
  - The repository average is an exact mean.
- `equalsIgnoreCase` folds ASCII letters only, and Unicode case folding is left out. The other operand of every comparison is text from the user or from Zabbix, where this matters. Java matches the dotless 'ı' (U+0131) and the dotted 'İ' (U+0130) to 'i', so a key such as "zabbıx_apı" is the "zabbix_api" marker in the source but not in the model. This affects `Collector.RawValue`, which fetches such a key instead of skipping it (MetricCollectorScheduler.java:71). It also affects `HostConfig.Validated` and `HostConfig.AddMetricKeys`, which check such a key on the Zabbix host instead of letting it through (HostService.java:562, 619). For the health status "UP" the ASCII folding agrees with Java.
- `enforceCountBasedRetention` is called by the cleanup job but not declared by the repository. `Cleanup.KeepNewest` gives it the meaning its caller describes: keep the newest 2880 rows of each (host, metric) series. A row survives when fewer than 2880 rows of its series are strictly newer, so timestamp ties are all kept.
- Time is whole seconds with one `now` per run, and 48 hours is 172800 seconds.
  - The source calls `LocalDateTime.now()` once per saved row and twice in the cleanup job.
  - Time zones and daylight saving are ignored.
- The order of `Map.ofEntries` iteration and of a `HashSet` is a parameter: a sequence whose order is arbitrary.
  - The catalog's inverse lookup is stated as a set without duplicates rather than as a list in a fixed order.
- Transactions, concurrency, scheduling (`@Scheduled`), controllers, security, the web front end and the DTOs are left out.
  - This includes the storage and chart DTOs and the ×100 scaling in `fetchMetricHistory`.
- `getDailyAvailability`, `findFirstByOrderByTimestampDesc`, `findTopByOrderByTimestampDesc`, `searchHosts`, `deleteHost` and the host lookups by id are not modelled. They are plain queries with no rule of the core in them.
- The free-text descriptions the unit tests expect from `determineHostStatus` are not modelled. The method returns only a status, and the examples state only the status.
- `HostConfig.UpdateHost` does not check that the Zabbix host exists or that the new Zabbix id is free. The source's `updateHost` does neither, and the model follows it.
- `HostConfig.UpdateHost`: a failed update is modelled as changing nothing. The source sets the name, Zabbix id, description and type on the managed entity (HostService.java:597-600) before the checkbox expansion can throw `ZabbixValidationException`. That exception class is not part of this model. If it is a checked exception, Spring's `@Transactional` does not roll back for it by default, so the new field values may be committed even though the update failed.
- `EventsRepository.FindRecentCriticalEvents` models the first page of a `PageRequest` only. The page size is a parameter.
- `Collector.CollectAllMetrics` does not model a Zabbix call throwing mid-run, which aborts the source's run. Zabbix's answers are a total parameter: a value, or null when the key is absent.
