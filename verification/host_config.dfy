/** The write-side rules of HostService: choosing the Zabbix item key of each
    metric (`findZabbixKeyForMetric`, both overloads) and turning the
    checkboxes of the host form into validated metric configurations
    (`createAndValidateHost`, `updateHost`). */
module HostConfig {
  import opened Wrappers
  import opened Text
  import opened Domain
  import Catalog

  /** Which form is being saved: the create form or the update form. */
  datatype Flavour = Create | Update

  /** The host form (CreateHostDTO / UpdateHostDTO); a `None` field is null. */
  datatype Form = Form(
    hostName: string,
    zabbixId: int,
    description: string,
    hostType: string,
    enabledMetrics: seq<string>,
    healthHttpMetric: Option<string>,
    customHttpMetric: Option<string>)

  /** What the service consults outside itself: whether Zabbix knows the host,
      whether its Zabbix id is already registered, which metric keys the
      metrics table holds, the default-key table (metric key to Zabbix key)
      and whether an item exists on a Zabbix host. */
  datatype Registry = Registry(
    hostExists: int -> bool,
    zabbixIdRegistered: int -> bool,
    knownMetrics: set<string>,
    defaultKeys: map<string, string>,
    itemExists: (int, string) -> bool)

  /** The `ZabbixValidationException`s the rules raise. */
  datatype Error =
    | HostNotInZabbix
    | ZabbixIdTaken
    | UnknownCheckbox(checkbox: string)
    | UnknownMetric(metricKey: string)
    | BlankHealthMetric
    | BlankCustomHttpMetric
    | NoDefaultKey(metricKey: string)
    | ItemNotOnHost(zabbixKey: string)

  predicate IsHealthCheckbox(checkbox: string)
  {
    checkbox == AvailGlobalHealth || checkbox == AvailSpecificHealth
  }

  predicate IsHttpAgentCheckbox(checkbox: string)
  {
    checkbox == AvailGlobalHttp || checkbox == AvailSpecificHttp
  }

  /** Neither null nor blank. */
  predicate Filled(field: Option<string>)
  {
    field.Some? && !IsBlank(field.value)
  }

  /** `findZabbixKeyForMetric`. The update overload first sends
      "eventos-recentes" to the "zabbix_api" marker; then health checkboxes
      take the health field, http-agente checkboxes the custom field (an
      error when null or blank), and every other metric its default key (an
      error when the table has none). */
  function ZabbixKeyFor(flavour: Flavour, reg: Registry, metricKey: string, checkbox: string, form: Form): (r: Result<string, Error>)
    // Where a key comes from: the marker, one of the two form fields, or the default table.
    ensures r.Success? ==>
              (flavour == Update && metricKey == RecentEventsKey && r.value == ZabbixApi)
              || (IsHealthCheckbox(checkbox) && form.healthHttpMetric == Some(r.value))
              || (IsHttpAgentCheckbox(checkbox) && form.customHttpMetric == Some(r.value))
              || (metricKey in reg.defaultKeys && r.value == reg.defaultKeys[metricKey])
    // A filled custom field wins for its checkbox: health first, then http-agente.
    ensures (!(flavour == Update && metricKey == RecentEventsKey) && IsHealthCheckbox(checkbox)
             && Filled(form.healthHttpMetric)) ==> r == Success(form.healthHttpMetric.value)
    ensures (!(flavour == Update && metricKey == RecentEventsKey) && !IsHealthCheckbox(checkbox)
             && IsHttpAgentCheckbox(checkbox) && Filled(form.customHttpMetric)) ==> r == Success(form.customHttpMetric.value)
    // Any other metric takes its default key when the table has one.
    ensures (!(flavour == Update && metricKey == RecentEventsKey) && !IsHealthCheckbox(checkbox)
             && !IsHttpAgentCheckbox(checkbox) && metricKey in reg.defaultKeys) ==> r == Success(reg.defaultKeys[metricKey])
    // The update overload always sends recent events to the marker.
    ensures flavour == Update && metricKey == RecentEventsKey ==> r == Success(ZabbixApi)
    // Each error names the one input that was missing.
    ensures r == Failure(BlankHealthMetric) <==>
              !(flavour == Update && metricKey == RecentEventsKey) && IsHealthCheckbox(checkbox) && !Filled(form.healthHttpMetric)
    ensures r == Failure(BlankCustomHttpMetric) <==>
              !(flavour == Update && metricKey == RecentEventsKey) && !IsHealthCheckbox(checkbox)
              && IsHttpAgentCheckbox(checkbox) && !Filled(form.customHttpMetric)
    ensures r.Failure? ==> r == Failure(BlankHealthMetric) || r == Failure(BlankCustomHttpMetric) || r == Failure(NoDefaultKey(metricKey))
    ensures r == Failure(NoDefaultKey(metricKey)) ==> metricKey !in reg.defaultKeys
    // A key taken from a form field is never blank.
    ensures (r.Success? && !(flavour == Update && metricKey == RecentEventsKey)
             && (IsHealthCheckbox(checkbox) || IsHttpAgentCheckbox(checkbox))) ==> !IsBlank(r.value)
  {
    if flavour == Update && metricKey == RecentEventsKey then Success(ZabbixApi)
    else if IsHealthCheckbox(checkbox) then
      if !Filled(form.healthHttpMetric) then Failure(BlankHealthMetric) else Success(form.healthHttpMetric.value)
    else if IsHttpAgentCheckbox(checkbox) then
      if !Filled(form.customHttpMetric) then Failure(BlankCustomHttpMetric) else Success(form.customHttpMetric.value)
    else
      if metricKey in reg.defaultKeys then Success(reg.defaultKeys[metricKey]) else Failure(NoDefaultKey(metricKey))
  }

  /** The two overloads differ only on "eventos-recentes". */
  lemma OverloadsAgreeOutsideEvents(reg: Registry, metricKey: string, checkbox: string, form: Form)
    requires metricKey != RecentEventsKey
    ensures ZabbixKeyFor(Update, reg, metricKey, checkbox, form) == ZabbixKeyFor(Create, reg, metricKey, checkbox, form)
  {
  }

  /** A config whose item was checked on the Zabbix host, or that is the
      "zabbix_api" marker (in any letter case) and needs no check. */
  predicate Validated(reg: Registry, zabbixId: int, c: Config)
  {
    c.zabbixKey.Some?
    && (EqualsIgnoreCase(c.zabbixKey.value, ZabbixApi) || reg.itemExists(zabbixId, c.zabbixKey.value))
  }

  /** One metric key of a checkbox stops the expansion: the metrics table
      lacks it, no Zabbix key can be chosen for it, or the chosen key is
      neither the marker nor an item of the Zabbix host. */
  predicate KeyRejected(flavour: Flavour, reg: Registry, form: Form, checkbox: string, metricKey: string)
  {
    var key := ZabbixKeyFor(flavour, reg, metricKey, checkbox, form);
    metricKey !in reg.knownMetrics
    || key.Failure?
    || (!EqualsIgnoreCase(key.value, ZabbixApi) && !reg.itemExists(form.zabbixId, key.value))
  }

  /** A checkbox stops the expansion: the catalog does not know it, or one of
      its metric keys is rejected. */
  predicate Rejected(flavour: Flavour, reg: Registry, form: Form, checkbox: string)
  {
    checkbox !in Catalog.Names()
    || exists k :: k in Catalog.MetricKeysForCheckbox(checkbox) && KeyRejected(flavour, reg, form, checkbox, k)
  }

  /** The config's Zabbix key is the one `findZabbixKeyForMetric` chooses for
      its metric under `checkbox`. */
  predicate KeyChosen(flavour: Flavour, reg: Registry, form: Form, checkbox: string, c: Config)
  {
    c.zabbixKey.Some? && ZabbixKeyFor(flavour, reg, c.metricKey, checkbox, form) == Success(c.zabbixKey.value)
  }

  /** The config belongs to one of `checkbox`'s metric keys, with the key chosen for it. */
  predicate ChosenFor(flavour: Flavour, reg: Registry, form: Form, checkbox: string, c: Config)
  {
    c.metricKey in Catalog.MetricKeysForCheckbox(checkbox) && KeyChosen(flavour, reg, form, checkbox, c)
  }

  /** `newConfigurations.add(config)`: configs are equal when their metrics
      are, so a second config of the same metric is not added. */
  function AddConfig(acc: seq<Config>, c: Config): (r: seq<Config>)
    ensures MetricKeys(r) == MetricKeys(acc) + {c.metricKey}
    ensures DistinctMetrics(acc) ==> DistinctMetrics(r)
    ensures forall d :: d in r ==> d in acc || d == c
  {
    if HasMetric(acc, c.metricKey) then acc else acc + [c]
  }

  /** The configs of one checkbox's metric keys, added to `acc` key by key. */
  function AddMetricKeys(flavour: Flavour, reg: Registry, form: Form, checkbox: string,
                         keys: seq<string>, acc: seq<Config>): (r: Result<seq<Config>, Error>)
    ensures r.Success? ==> MetricKeys(r.value) == MetricKeys(acc) + (set k | k in keys)
    ensures r.Success? && DistinctMetrics(acc) ==> DistinctMetrics(r.value)
    ensures r.Success? ==> forall c :: c in r.value ==> c in acc || Validated(reg, form.zabbixId, c)
    ensures r.Success? ==> forall c :: c in r.value ==> c in acc || (c.metricKey in keys && KeyChosen(flavour, reg, form, checkbox, c))
    ensures (exists k :: k in keys && k !in reg.knownMetrics) ==> r.Failure?
    ensures r.Failure? <==> exists k :: k in keys && KeyRejected(flavour, reg, form, checkbox, k)
    decreases |keys|
  {
    if keys == [] then Success(acc)
    else
      var metricKey := keys[0];
      assert forall k :: k in keys <==> k == metricKey || k in keys[1..];
      if metricKey !in reg.knownMetrics then
        assert KeyRejected(flavour, reg, form, checkbox, metricKey);
        Failure(UnknownMetric(metricKey))
      else
        match ZabbixKeyFor(flavour, reg, metricKey, checkbox, form)
        case Failure(e) =>
          assert KeyRejected(flavour, reg, form, checkbox, metricKey);
          Failure(e)
        case Success(zabbixKey) =>
          if !EqualsIgnoreCase(zabbixKey, ZabbixApi) && !reg.itemExists(form.zabbixId, zabbixKey) then
            assert KeyRejected(flavour, reg, form, checkbox, metricKey);
            Failure(ItemNotOnHost(zabbixKey))
          else
            AddMetricKeys(flavour, reg, form, checkbox, keys[1..], AddConfig(acc, Config(metricKey, Some(zabbixKey))))
  }

  /** The configs of the checkboxes, visited in form order. */
  function ExpandFrom(flavour: Flavour, reg: Registry, form: Form, checkboxes: seq<string>,
                      acc: seq<Config>): (r: Result<seq<Config>, Error>)
    ensures r.Success? ==> MetricKeys(r.value) == MetricKeys(acc) + Catalog.KeysOf(set cb | cb in checkboxes)
    ensures r.Success? && DistinctMetrics(acc) ==> DistinctMetrics(r.value)
    ensures r.Success? ==> forall c :: c in r.value ==> c in acc || Validated(reg, form.zabbixId, c)
    ensures r.Success? ==> forall c :: c in r.value ==>
              c in acc || exists cb :: cb in checkboxes && ChosenFor(flavour, reg, form, cb, c)
    ensures r.Success? ==> forall cb :: cb in checkboxes ==> cb in Catalog.Names()
    ensures r.Failure? <==> exists cb :: cb in checkboxes && Rejected(flavour, reg, form, cb)
    decreases |checkboxes|
  {
    if checkboxes == [] then Success(acc)
    else
      var checkbox := checkboxes[0];
      var keys := Catalog.MetricKeysForCheckbox(checkbox);
      if keys == [] then
        assert Rejected(flavour, reg, form, checkbox);
        Failure(UnknownCheckbox(checkbox))
      else
        match AddMetricKeys(flavour, reg, form, checkbox, keys, acc)
        case Failure(e) => Failure(e)
        case Success(next) =>
          var r := ExpandFrom(flavour, reg, form, checkboxes[1..], next);
          if r.Success? then
            KeysStep(checkboxes, MetricKeys(acc), MetricKeys(next), MetricKeys(r.value));
            ChosenStep(flavour, reg, form, checkboxes, acc, next, r.value);
            r
          else r
  }

  /** Configs chosen under the first checkbox or under the rest are chosen
      under one of the checkboxes. */
  lemma ChosenStep(flavour: Flavour, reg: Registry, form: Form, checkboxes: seq<string>,
                   acc: seq<Config>, next: seq<Config>, out: seq<Config>)
    requires checkboxes != []
    requires forall c :: c in next ==>
               c in acc || (c.metricKey in Catalog.MetricKeysForCheckbox(checkboxes[0]) && KeyChosen(flavour, reg, form, checkboxes[0], c))
    requires forall c :: c in out ==> c in next || exists cb :: cb in checkboxes[1..] && ChosenFor(flavour, reg, form, cb, c)
    ensures forall c :: c in out ==> c in acc || exists cb :: cb in checkboxes && ChosenFor(flavour, reg, form, cb, c)
  {
    forall c | c in out && c !in acc
      ensures exists cb :: cb in checkboxes && ChosenFor(flavour, reg, form, cb, c)
    {
      if c in next {
        assert ChosenFor(flavour, reg, form, checkboxes[0], c);
      } else {
        var cb :| cb in checkboxes[1..] && ChosenFor(flavour, reg, form, cb, c);
        assert cb in checkboxes;
      }
    }
  }

  lemma KeysOfAddOne(checkbox: string, rest: set<string>)
    ensures Catalog.KeysOf({checkbox} + rest)
            == (set k | k in Catalog.MetricKeysForCheckbox(checkbox)) + Catalog.KeysOf(rest)
  {
  }

  /** One checkbox's keys followed by the rest's are the keys of them all. */
  lemma KeysStep(checkboxes: seq<string>, before: set<string>, middle: set<string>, after: set<string>)
    requires checkboxes != []
    requires middle == before + (set k | k in Catalog.MetricKeysForCheckbox(checkboxes[0]))
    requires after == middle + Catalog.KeysOf(set cb | cb in checkboxes[1..])
    ensures after == before + Catalog.KeysOf(set cb | cb in checkboxes)
    ensures forall cb :: cb in checkboxes <==> cb == checkboxes[0] || cb in checkboxes[1..]
  {
    assert (set cb | cb in checkboxes) == {checkboxes[0]} + (set cb | cb in checkboxes[1..]);
    KeysOfAddOne(checkboxes[0], set cb | cb in checkboxes[1..]);
  }

  /** The configurations the form's checkboxes call for. */
  function ExpandConfigs(flavour: Flavour, reg: Registry, form: Form): (r: Result<seq<Config>, Error>)
    ensures r.Success? ==> MetricKeys(r.value) == Catalog.KeysOf(set cb | cb in form.enabledMetrics)
    ensures r.Success? ==> DistinctMetrics(r.value)
    ensures r.Success? ==> forall c :: c in r.value ==> Validated(reg, form.zabbixId, c)
    ensures r.Success? ==> forall c :: c in r.value ==>
              exists cb :: cb in form.enabledMetrics && ChosenFor(flavour, reg, form, cb, c)
    ensures r.Success? ==> forall cb :: cb in form.enabledMetrics ==> cb in Catalog.Names()
    // A form is refused exactly when one of its checkboxes is.
    ensures r.Failure? <==> exists cb :: cb in form.enabledMetrics && Rejected(flavour, reg, form, cb)
  {
    ExpandFrom(flavour, reg, form, form.enabledMetrics, [])
  }

  /** An unknown checkbox, or a metric key the metrics table lacks, makes the
      expansion fail. */
  lemma {:induction false} ExpandFailsOnUnknown(flavour: Flavour, reg: Registry, form: Form, checkboxes: seq<string>,
                                                acc: seq<Config>, checkbox: string)
    requires checkbox in checkboxes
    requires checkbox !in Catalog.Names()
             || exists k :: k in Catalog.MetricKeysForCheckbox(checkbox) && k !in reg.knownMetrics
    ensures ExpandFrom(flavour, reg, form, checkboxes, acc).Failure?
    decreases |checkboxes|
  {
    if checkboxes[0] != checkbox {
      assert checkbox in checkboxes[1..];
      var keys := Catalog.MetricKeysForCheckbox(checkboxes[0]);
      if keys != [] {
        var step := AddMetricKeys(flavour, reg, form, checkboxes[0], keys, acc);
        if step.Success? {
          ExpandFailsOnUnknown(flavour, reg, form, checkboxes[1..], step.value, checkbox);
        }
      }
    }
  }

  /** `createAndValidateHost`: the host must exist in Zabbix and not be
      registered yet; its configs are those of the enabled checkboxes. The
      database id and the random public id are given. */
  function CreateAndValidateHost(reg: Registry, form: Form, newId: int, publicId: string): (r: Result<Host, Error>)
    ensures !reg.hostExists(form.zabbixId) ==> r == Failure(HostNotInZabbix)
    ensures reg.hostExists(form.zabbixId) && reg.zabbixIdRegistered(form.zabbixId) ==> r == Failure(ZabbixIdTaken)
    // A known, unregistered host with no refused checkbox is created.
    ensures r.Success? <==>
              reg.hostExists(form.zabbixId) && !reg.zabbixIdRegistered(form.zabbixId)
              && forall cb :: cb in form.enabledMetrics ==> !Rejected(Create, reg, form, cb)
    ensures r.Success? ==>
              r.value.id == newId && r.value.publicId == publicId && r.value.zabbixId == form.zabbixId
              && r.value.name == form.hostName && r.value.description == form.description
              && r.value.hostType == form.hostType && r.value.status == Active
    ensures r.Success? ==> MetricKeys(r.value.configs) == Catalog.KeysOf(set cb | cb in form.enabledMetrics)
    ensures r.Success? ==> DistinctMetrics(r.value.configs)
    ensures r.Success? ==> forall c :: c in r.value.configs ==> Validated(reg, form.zabbixId, c)
    ensures r.Success? ==> forall c :: c in r.value.configs ==>
              exists cb :: cb in form.enabledMetrics && ChosenFor(Create, reg, form, cb, c)
  {
    if !reg.hostExists(form.zabbixId) then Failure(HostNotInZabbix)
    else if reg.zabbixIdRegistered(form.zabbixId) then Failure(ZabbixIdTaken)
    else
      match ExpandConfigs(Create, reg, form)
      case Failure(e) => Failure(e)
      case Success(configs) =>
        Success(Host(newId, publicId, form.zabbixId, form.hostName, form.description, form.hostType, Active, configs))
  }

  /** The update form shows exactly the checkboxes a host was created with. */
  lemma CreatedHostShowsItsCheckboxes(reg: Registry, form: Form, newId: int, publicId: string)
    requires CreateAndValidateHost(reg, form, newId, publicId).Success?
    ensures var h := CreateAndValidateHost(reg, form, newId, publicId).value;
            (set cb | cb in Catalog.CheckboxesForMetricKeys(MetricKeys(h.configs))) == (set cb | cb in form.enabledMetrics)
  {
    Catalog.RoundTrip(set cb | cb in form.enabledMetrics);
  }

  /** `updateHost`: name, Zabbix id, description and type come from the form,
      and the configs are replaced by those of the enabled checkboxes. */
  function UpdateHost(reg: Registry, existing: Host, form: Form): (r: Result<Host, Error>)
    ensures r.Success? ==>
              r.value.id == existing.id && r.value.publicId == existing.publicId && r.value.status == existing.status
              && r.value.zabbixId == form.zabbixId && r.value.name == form.hostName
              && r.value.description == form.description && r.value.hostType == form.hostType
    ensures r.Success? ==> MetricKeys(r.value.configs) == Catalog.KeysOf(set cb | cb in form.enabledMetrics)
    ensures r.Success? ==> DistinctMetrics(r.value.configs)
    ensures r.Success? ==> forall c :: c in r.value.configs ==> Validated(reg, form.zabbixId, c)
    ensures r.Success? ==> forall c :: c in r.value.configs ==>
              exists cb :: cb in form.enabledMetrics && ChosenFor(Update, reg, form, cb, c)
    // An update goes through exactly when no checkbox is refused.
    ensures r.Success? <==> forall cb :: cb in form.enabledMetrics ==> !Rejected(Update, reg, form, cb)
  {
    match ExpandConfigs(Update, reg, form)
    case Failure(e) => Failure(e)
    case Success(configs) =>
      Success(existing.(name := form.hostName, zabbixId := form.zabbixId, description := form.description,
                        hostType := form.hostType, configs := configs))
  }

  /** No old config survives an update: the outcome does not depend on the
      configs the host had. */
  lemma UpdateReplacesConfigs(reg: Registry, existing: Host, form: Form, previous: seq<Config>)
    ensures var a := UpdateHost(reg, existing, form);
            var b := UpdateHost(reg, existing.(configs := previous), form);
            a.Success? == b.Success? && (a.Success? ==> a.value.configs == b.value.configs)
  {
  }

  /** After an update the host's recent-events config, if any, carries the
      "zabbix_api" marker and so is never fetched as an item. */
  lemma UpdatedEventsConfigUsesApi(reg: Registry, existing: Host, form: Form, c: Config)
    requires UpdateHost(reg, existing, form).Success?
    requires c in UpdateHost(reg, existing, form).value.configs && c.metricKey == RecentEventsKey
    ensures c.zabbixKey == Some(ZabbixApi)
  {
    UpdateEventsFrom(reg, form, form.enabledMetrics, [], c);
  }

  lemma {:induction false} UpdateEventsFrom(reg: Registry, form: Form, checkboxes: seq<string>, acc: seq<Config>, c: Config)
    requires forall d :: d in acc && d.metricKey == RecentEventsKey ==> d.zabbixKey == Some(ZabbixApi)
    requires ExpandFrom(Update, reg, form, checkboxes, acc).Success?
    requires c in ExpandFrom(Update, reg, form, checkboxes, acc).value && c.metricKey == RecentEventsKey
    ensures c.zabbixKey == Some(ZabbixApi)
    decreases |checkboxes|
  {
    if checkboxes != [] {
      var keys := Catalog.MetricKeysForCheckbox(checkboxes[0]);
      var next := AddMetricKeys(Update, reg, form, checkboxes[0], keys, acc).value;
      UpdateEventsAdd(reg, form, checkboxes[0], keys, acc);
      UpdateEventsFrom(reg, form, checkboxes[1..], next, c);
    }
  }

  lemma {:induction false} UpdateEventsAdd(reg: Registry, form: Form, checkbox: string, keys: seq<string>, acc: seq<Config>)
    requires forall d :: d in acc && d.metricKey == RecentEventsKey ==> d.zabbixKey == Some(ZabbixApi)
    ensures var r := AddMetricKeys(Update, reg, form, checkbox, keys, acc);
            r.Success? ==> forall d :: d in r.value && d.metricKey == RecentEventsKey ==> d.zabbixKey == Some(ZabbixApi)
    decreases |keys|
  {
    if keys != [] && keys[0] in reg.knownMetrics {
      var z := ZabbixKeyFor(Update, reg, keys[0], checkbox, form);
      if z.Success? && (EqualsIgnoreCase(z.value, ZabbixApi) || reg.itemExists(form.zabbixId, z.value)) {
        UpdateEventsAdd(reg, form, checkbox, keys[1..], AddConfig(acc, Config(keys[0], Some(z.value))));
      }
    }
  }
}
