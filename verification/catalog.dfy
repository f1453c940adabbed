/** MetricCatalog: the fixed mapping from a form checkbox name to the metric
    keys it enables, its forward lookup, and the inverse lookup that recovers
    the checkboxes whose keys are all saved. */
module Catalog {

  /** CHECKBOX_TO_METRIC_KEYS, one (checkbox, metric keys) entry per line. */
  const Entries: seq<(string, seq<string>)> := [
    ("disponibilidade-global", ["disponibilidade-global"]),
    ("disponibilidade-especifica", ["disponibilidade-especifica"]),
    ("disponibilidade-global-health", ["disponibilidade-global-health"]),
    ("disponibilidade-especifica-health", ["disponibilidade-especifica-health"]),
    ("disponibilidade-global-http-agente", ["disponibilidade-global-http-agente"]),
    ("disponibilidade-especifica-http-agente", ["disponibilidade-especifica-http-agente"]),
    ("latencia-tempo-resposta", ["latencia"]),
    ("sistema-operacional", ["os-nome", "os-arch"]),
    ("cpu-uso", ["cpu-uso"]),
    ("cpu-processos", ["cpu-processos-atuais", "cpu-processos-max"]),
    ("cpu-troca-contextos", ["cpu-troca-contextos"]),
    ("memoria-ram", ["memoria-ram-total", "memoria-ram-disponivel"]),
    ("memoria-swap", ["memoria-swap-total", "memoria-swap-livre"]),
    ("armazenamento", ["armazenamento-root-total", "armazenamento-root-usado",
                       "armazenamento-boot-total", "armazenamento-boot-usado"]),
    ("dados-banda-larga", ["dados-entrada", "dados-saida"]),
    ("tempo-ativo", ["tempo-ativo"]),
    ("eventos-recentes", ["eventos-recentes"])
  ]

  function Names(): set<string>
  {
    set i | 0 <= i < |Entries| :: Entries[i].0
  }

  /** `Map.ofEntries` admits each checkbox once. */
  lemma NamesDistinct()
    ensures forall i, j :: 0 <= i < |Entries| && 0 <= j < |Entries| && i != j ==> Entries[i].0 != Entries[j].0
  {
  }

  /** Every checkbox enables at least one metric. */
  lemma KeyListsNonEmpty()
    ensures forall i :: 0 <= i < |Entries| ==> |Entries[i].1| > 0
  {
  }

  /** Distinct checkboxes own disjoint key lists. */
  lemma KeyListsDisjoint()
    ensures forall i, j, k :: 0 <= i < |Entries| && 0 <= j < |Entries| && i != j && k in Entries[i].1 ==> k !in Entries[j].1
  {
  }

  function KeysFrom(i: nat, checkbox: string): (keys: seq<string>)
    requires i <= |Entries|
    ensures keys == [] ==> forall j :: i <= j < |Entries| ==> Entries[j].0 != checkbox
    ensures keys != [] ==> exists j :: i <= j < |Entries| && Entries[j].0 == checkbox && keys == Entries[j].1
    decreases |Entries| - i
  {
    if i == |Entries| then []
    else if Entries[i].0 == checkbox then (KeyListsNonEmpty(); Entries[i].1)
    else KeysFrom(i + 1, checkbox)
  }

  /** `getMetricKeysForCheckbox`: the catalog's key list for a known checkbox and
      the empty list for an unknown one. */
  function MetricKeysForCheckbox(checkbox: string): (keys: seq<string>)
    ensures keys == [] <==> checkbox !in Names()
    ensures forall i :: 0 <= i < |Entries| && Entries[i].0 == checkbox ==> keys == Entries[i].1
  {
    NamesDistinct();
    KeysFrom(0, checkbox)
  }

  /** The checkbox whose keys are all in `saved`. */
  predicate AllKeysSaved(keys: seq<string>, saved: set<string>)
  {
    forall k :: k in keys ==> k in saved
  }

  function CheckboxesFrom(i: nat, saved: set<string>): (r: seq<string>)
    requires i <= |Entries|
    ensures forall cb :: cb in r <==> exists j :: i <= j < |Entries| && Entries[j].0 == cb && AllKeysSaved(Entries[j].1, saved)
    ensures forall a, b :: 0 <= a < b < |r| ==> r[a] != r[b]
    decreases |Entries| - i
  {
    if i == |Entries| then []
    else
      var rest := CheckboxesFrom(i + 1, saved);
      if AllKeysSaved(Entries[i].1, saved) then
        NamesDistinct();
        assert Entries[i].0 !in rest;
        [Entries[i].0] + rest
      else rest
  }

  /** `getCheckboxesForMetricKeys`: every catalog checkbox whose keys are all
      among `saved`, each exactly once, and nothing else. The saved keys are
      taken as a set: the source only asks `containsAll` of its list. */
  function CheckboxesForMetricKeys(saved: set<string>): (r: seq<string>)
    ensures forall cb :: cb in r <==> cb in Names() && AllKeysSaved(MetricKeysForCheckbox(cb), saved)
    ensures forall a, b :: 0 <= a < b < |r| ==> r[a] != r[b]
  {
    CheckboxesFrom(0, saved)
  }

  /** Saving more keys never hides a checkbox. */
  lemma CheckboxesMonotone(saved: set<string>, more: set<string>)
    requires saved <= more
    ensures forall cb :: cb in CheckboxesForMetricKeys(saved) ==> cb in CheckboxesForMetricKeys(more)
  {
  }

  /** No checkbox's key list is contained in another's. */
  lemma KeyListsIncomparable(a: string, b: string)
    requires a in Names() && b in Names() && a != b
    ensures !AllKeysSaved(MetricKeysForCheckbox(a), set k | k in MetricKeysForCheckbox(b))
  {
    var ka := MetricKeysForCheckbox(a);
    KeyListsDisjoint();
    assert ka != [];
    assert ka[0] in ka;
  }

  /** All metric keys enabled by a set of checkboxes. */
  function KeysOf(checkboxes: set<string>): set<string>
  {
    set cb, k | cb in checkboxes && k in MetricKeysForCheckbox(cb) :: k
  }

  /** Translating checkboxes to metric keys and back gives the same checkboxes:
      the host-update form shows exactly what was enabled. */
  lemma RoundTrip(checkboxes: set<string>)
    requires checkboxes <= Names()
    ensures (set cb | cb in CheckboxesForMetricKeys(KeysOf(checkboxes))) == checkboxes
  {
    var saved := KeysOf(checkboxes);
    var back := CheckboxesForMetricKeys(saved);
    forall cb | cb in checkboxes
      ensures cb in back
    {
      assert AllKeysSaved(MetricKeysForCheckbox(cb), saved);
    }
    forall cb | cb in back
      ensures cb in checkboxes
    {
      var keys := MetricKeysForCheckbox(cb);
      assert keys != [];
      var k := keys[0];
      assert k in saved;
      var other :| other in checkboxes && k in MetricKeysForCheckbox(other);
      if other != cb {
        var i :| 0 <= i < |Entries| && Entries[i].0 == cb;
        var j :| 0 <= j < |Entries| && Entries[j].0 == other;
        KeyListsDisjoint();
        assert false;
      }
    }
  }
}
