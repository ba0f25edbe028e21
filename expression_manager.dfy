/**
 * The selection step of the expression manager's refresh: of the triggers
 * tagged for this alerter, the enabled ones whose conditions could be
 * fetched keep their external conditions addressed to this alerter, and
 * every trigger left with at least one such condition is handed to the
 * event-processing engine, in one update, when there is any.
 *
 * The definitions service is not called here: its answers are the inputs
 * (the tagged triggers, or a failure to list them, and per trigger its
 * conditions or a failure to fetch them).
 */
module Selection {
  import opened Results
  import opened AlertsModel

  /** The alerter id (and tag name) the expression alerter answers to. */
  const TagName: string := "HawkularAPM"

  /** The definitions service's answer for one trigger's conditions. */
  datatype ConditionsFetch = Fetched(conditions: seq<Condition>) | FetchFailed

  /** One tagged trigger and what fetching its conditions would return. */
  datatype TriggerDefinitions = TriggerDefinitions(trigger: Trigger, fetch: ConditionsFetch)

  /** A trigger with the conditions handed to the engine. */
  datatype FullTrigger = FullTrigger(trigger: Trigger, conditions: seq<ExternalCondition>)

  /** A condition the alerter evaluates: an external one addressed to it. */
  predicate IsApmCondition(c: Condition) {
    c.External? && c.external.alerterId == TagName
  }

  /** The conditions the alerter keeps, in the order fetched. */
  function ApmConditions(cs: seq<Condition>): seq<ExternalCondition> {
    if cs == [] then []
    else
      var last := cs[|cs| - 1];
      ApmConditions(cs[..|cs| - 1]) + if IsApmCondition(last) then [last.external] else []
  }

  /**
   * What one tagged trigger contributes: nothing when it is disabled (its
   * conditions are not even fetched), when fetching them failed, or when
   * none of them is for this alerter.
   */
  function Selected(d: TriggerDefinitions): Option<FullTrigger> {
    if !d.trigger.enabled || d.fetch.FetchFailed? then None
    else if ApmConditions(d.fetch.conditions) == [] then None
    else Some(FullTrigger(d.trigger, ApmConditions(d.fetch.conditions)))
  }

  /** The active triggers, in the order the triggers were listed. */
  function ActiveTriggers(ds: seq<TriggerDefinitions>): seq<FullTrigger> {
    if ds == [] then []
    else
      var last := Selected(ds[|ds| - 1]);
      ActiveTriggers(ds[..|ds| - 1]) + if last.Some? then [last.value] else []
  }

  /** Keeping conditions distributes over concatenation: the order fetched is the order kept. */
  lemma {:induction false} ApmConditionsAppend(a: seq<Condition>, b: seq<Condition>)
    ensures ApmConditions(a + b) == ApmConditions(a) + ApmConditions(b)
    decreases |b|
  {
    if b == [] {
      assert a + b == a;
    } else {
      var b' := b[..|b| - 1];
      assert (a + b)[..|a + b| - 1] == a + b';
      ApmConditionsAppend(a, b');
    }
  }

  /** A condition is kept exactly when it is an external condition, fetched, addressed to this alerter. */
  lemma {:induction false} ApmConditionsMembers(cs: seq<Condition>)
    ensures forall ec :: ec in ApmConditions(cs) <==> External(ec) in cs && ec.alerterId == TagName
  {
    if cs != [] {
      var init := cs[..|cs| - 1];
      ApmConditionsMembers(init);
      assert cs == init + [cs[|cs| - 1]];
    }
  }

  /** Selecting triggers distributes over concatenation: the order listed is the order handed over. */
  lemma {:induction false} ActiveTriggersAppend(a: seq<TriggerDefinitions>, b: seq<TriggerDefinitions>)
    ensures ActiveTriggers(a + b) == ActiveTriggers(a) + ActiveTriggers(b)
    decreases |b|
  {
    if b == [] {
      assert a + b == a;
    } else {
      var b' := b[..|b| - 1];
      assert (a + b)[..|a + b| - 1] == a + b';
      ActiveTriggersAppend(a, b');
    }
  }

  /**
   * A trigger that is disabled, or whose conditions could not be fetched,
   * is skipped, and only it: the triggers around it are selected as if it
   * were absent.
   */
  lemma SkippedTrigger(a: seq<TriggerDefinitions>, d: TriggerDefinitions, b: seq<TriggerDefinitions>)
    requires !d.trigger.enabled || d.fetch.FetchFailed?
    ensures ActiveTriggers(a + [d] + b) == ActiveTriggers(a) + ActiveTriggers(b)
  {
    assert Selected(d) == None;
    assert ActiveTriggers([d]) == [] by {
      assert [d][..0] == [];
    }
    ActiveTriggersAppend(a, [d]);
    ActiveTriggersAppend(a + [d], b);
  }

  /**
   * A trigger is active exactly when one listed trigger selects it, and
   * then it is enabled, its conditions were fetched, and it carries exactly
   * the fetched external conditions addressed to this alerter, at least one.
   */
  lemma {:induction false} ActiveTriggersMembers(ds: seq<TriggerDefinitions>)
    ensures forall ft :: ft in ActiveTriggers(ds) <==> exists i :: 0 <= i < |ds| && Selected(ds[i]) == Some(ft)
    ensures forall ft | ft in ActiveTriggers(ds) ::
      exists i :: 0 <= i < |ds| && ds[i].trigger == ft.trigger && ft.trigger.enabled && ds[i].fetch.Fetched? &&
        ft.conditions == ApmConditions(ds[i].fetch.conditions) && ft.conditions != []
  {
    if ds != [] {
      var init := ds[..|ds| - 1];
      ActiveTriggersMembers(init);
      forall ft
        ensures ft in ActiveTriggers(ds) <==> exists i :: 0 <= i < |ds| && Selected(ds[i]) == Some(ft)
      {
        if ft in ActiveTriggers(ds) && ft !in ActiveTriggers(init) {
          assert Selected(ds[|ds| - 1]) == Some(ft);
        }
        if exists i :: 0 <= i < |ds| && Selected(ds[i]) == Some(ft) {
          var i :| 0 <= i < |ds| && Selected(ds[i]) == Some(ft);
          if i < |ds| - 1 {
            assert init[i] == ds[i];
          }
        }
      }
    }
  }

  /** Every condition handed to the engine is an external condition for this alerter. */
  lemma ActiveConditionsAreApm(ds: seq<TriggerDefinitions>, ft: FullTrigger, ec: ExternalCondition)
    requires ft in ActiveTriggers(ds) && ec in ft.conditions
    ensures ec.alerterId == TagName
  {
    ActiveTriggersMembers(ds);
    var i :| 0 <= i < |ds| && ds[i].trigger == ft.trigger && ds[i].fetch.Fetched? &&
      ft.conditions == ApmConditions(ds[i].fetch.conditions);
    ApmConditionsMembers(ds[i].fetch.conditions);
  }

  /**
   * refresh: lists the triggers tagged for this alerter and keeps, trigger
   * by trigger, the conditions addressed to it. The result is the argument
   * of the one engine update, or None when the listing failed or nothing is
   * active, in which case the engine is not updated.
   */
  method Refresh(triggers: Option<seq<TriggerDefinitions>>) returns (update: Option<seq<FullTrigger>>)
    ensures triggers.None? ==> update.None?
    ensures triggers.Some? ==> (update.Some? <==> ActiveTriggers(triggers.value) != [])
    ensures update.Some? ==> update.value == ActiveTriggers(triggers.value)
  {
    if triggers.None? {
      return None;
    }
    var ds := triggers.value;
    var activeTriggers: seq<FullTrigger> := [];
    for i := 0 to |ds|
      invariant activeTriggers == ActiveTriggers(ds[..i])
    {
      assert ds[..i + 1] == ds[..i] + [ds[i]];
      ActiveTriggersAppend(ds[..i], [ds[i]]);
      assert [ds[i]][..0] == [];
      var trigger := ds[i].trigger;
      if !trigger.enabled || ds[i].fetch.FetchFailed? {
        continue;
      }
      var conditions := ds[i].fetch.conditions;
      var activeConditions: seq<ExternalCondition> := [];
      for j := 0 to |conditions|
        invariant activeConditions == ApmConditions(conditions[..j])
      {
        assert conditions[..j + 1][..j] == conditions[..j];
        if conditions[j].External? {
          var externalCondition := conditions[j].external;
          if externalCondition.alerterId == TagName {
            activeConditions := activeConditions + [externalCondition];
          }
        }
      }
      assert conditions[..|conditions|] == conditions;
      if activeConditions != [] {
        activeTriggers := activeTriggers + [FullTrigger(trigger, activeConditions)];
      }
    }
    assert ds[..|ds|] == ds;
    if activeTriggers != [] {
      update := Some(activeTriggers);
    } else {
      update := None;
    }
  }
}
