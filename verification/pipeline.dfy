/** build_kpis and run_pipeline: the fact table is built first, then every
    KPI, metric, audit and data-quality table is derived from it and from
    the safety events. The tables are results rather than SQLite writes. */
module Pipeline {
  import opened Domain
  import opened Tables
  import PatientWindow
  import FactBuilder
  import Kpis
  import EventMetrics
  import AuditQuality

  /** The six tables build_kpis writes. */
  datatype KpiTables = KpiTables(
    service: seq<Kpis.KpiServiceRow>,
    overall: seq<Kpis.KpiOverallRow>,
    eventMetrics: seq<CountRow<EventMetrics.MetricKey>>,
    delayBins: seq<CountRow<EventMetrics.DelayKey>>,
    audit: seq<AuditQuality.AuditRow>,
    quality: seq<AuditQuality.QualityRow>)

  /** Each month's overall row counts what that month's service rows
      count: the two KPI tables group the same facts. */
  lemma OverallMatchesService(facts: seq<EncounterFact>, eventIds: set<EncounterId>,
                              service: seq<Kpis.KpiServiceRow>, overall: seq<Kpis.KpiOverallRow>)
    requires Kpis.ServiceTable(facts, eventIds, service) && Kpis.OverallTable(facts, overall)
    ensures forall a :: 0 <= a < |overall| ==>
              overall[a].totalEncounters == Kpis.MonthTotal(service, overall[a].month)
  {
    Kpis.ServiceTableProperties(facts, eventIds, service);
    Kpis.OverallTableProperties(facts, overall);
  }

  /** A fact row in the audit view has a late report, so a reported event,
      so its has_any_event column is set. */
  lemma AuditRowsHaveEvents(facts: seq<EncounterFact>, eventIds: set<EncounterId>)
    requires Kpis.FlagsConsistent(facts, eventIds)
    ensures forall r :: r in AuditQuality.AuditView(facts, eventIds) ==> r.hasAnyEvent
  {
    forall r | r in AuditQuality.AuditView(facts, eventIds)
      ensures r.hasAnyEvent
    {
      var i :| 0 <= i < |facts| && facts[i] == r.fact;
    }
  }

  /** facts is what build_encounter_facts makes of the raw tables: the
      encounters in (patient, admit) order, each with its base columns and
      its next-encounter columns. */
  ghost predicate FactsOfEncounters(encs: seq<Encounter>, orders: seq<MedOrder>, events: seq<SafetyEvent>,
                                    facts: seq<EncounterFact>)
  {
    exists perm :: PatientWindow.IsPermutation(perm, |encs|) && PatientWindow.SortedBy(encs, perm) &&
      |facts| == |encs| &&
      forall k :: 0 <= k < |facts| ==>
        FactBuilder.BaseColumns(encs[perm[k]], orders, events, facts[k]) &&
        FactBuilder.WindowColumns(encs, perm[k], facts[k])
  }

  /** A row order and rows that fit it witness FactsOfEncounters. */
  lemma FactsFromOrder(encs: seq<Encounter>, orders: seq<MedOrder>, events: seq<SafetyEvent>,
                       facts: seq<EncounterFact>, perm: seq<nat>)
    requires PatientWindow.IsPermutation(perm, |encs|) && PatientWindow.SortedBy(encs, perm) && |facts| == |encs|
    requires forall k :: 0 <= k < |facts| ==>
               FactBuilder.BaseColumns(encs[perm[k]], orders, events, facts[k]) &&
               FactBuilder.WindowColumns(encs, perm[k], facts[k])
    ensures FactsOfEncounters(encs, orders, events, facts)
  {
  }

  /** t holds build_kpis's tables over facts: the two KPI tables, the two
      event count tables over the merged events, the audit view and the
      data-quality report. */
  ghost predicate TablesOfFacts(facts: seq<EncounterFact>, events: seq<SafetyEvent>, t: KpiTables)
  {
    var joined := EventMetrics.LeftJoin(events, facts);
    Kpis.ServiceTable(facts, Kpis.EventEncounterIds(events), t.service) &&
    Kpis.OverallTable(facts, t.overall) &&
    IsCountTable(EventMetrics.GroupKeys(joined, EventMetrics.MetricKeyOf), t.eventMetrics) &&
    IsCountTable(EventMetrics.GroupKeys(joined, EventMetrics.DelayKeyOf), t.delayBins) &&
    t.audit == AuditQuality.AuditView(facts, Kpis.EventEncounterIds(events)) &&
    t.quality == AuditQuality.QualityReport(events, facts)
  }

  /** build_kpis over a fact table and the safety events. */
  method BuildKpis(facts: seq<EncounterFact>, events: seq<SafetyEvent>) returns (t: KpiTables)
    ensures Kpis.ServiceTable(facts, Kpis.EventEncounterIds(events), t.service)
    ensures Kpis.OverallTable(facts, t.overall)
    ensures Kpis.TotalEncounters(t.service) == |facts|
    ensures forall a :: 0 <= a < |t.overall| ==>
              t.overall[a].totalEncounters == Kpis.MonthTotal(t.service, t.overall[a].month)
    ensures IsCountTable(EventMetrics.GroupKeys(EventMetrics.LeftJoin(events, facts), EventMetrics.MetricKeyOf), t.eventMetrics)
    ensures IsCountTable(EventMetrics.GroupKeys(EventMetrics.LeftJoin(events, facts), EventMetrics.DelayKeyOf), t.delayBins)
    ensures NoDuplicates(EventMetrics.FactIds(facts)) ==>
              CountTotal(t.eventMetrics) + |EventMetrics.Orphans(events, facts)| == |events|
    ensures t.audit == AuditQuality.AuditView(facts, Kpis.EventEncounterIds(events))
    ensures t.quality == AuditQuality.QualityReport(events, facts)
    ensures |t.quality| == 2
    ensures t.quality[0].count == |EventMetrics.Orphans(events, facts)|
    ensures t.quality[0].status == AuditQuality.Pass <==> forall e :: e in events ==> e.encounter in EventMetrics.FactIds(facts)
    ensures t.quality[1].count == |AuditQuality.NegativeLos(facts)|
    ensures t.quality[1].status == AuditQuality.Pass <==> forall f :: f in facts ==> f.lengthOfStay >= 0
  {
    var eventIds := Kpis.EventEncounterIds(events);
    var service := Kpis.BuildKpiMonthlyService(facts, eventIds);
    var overall := Kpis.BuildKpiMonthlyOverall(facts);
    OverallMatchesService(facts, eventIds, service, overall);
    var metrics := EventMetrics.BuildEventMetrics(events, facts);
    var bins := EventMetrics.BuildDelayBins(events, facts);
    var audit := AuditQuality.AuditView(facts, eventIds);
    var quality := AuditQuality.BuildQualityReport(events, facts);
    t := KpiTables(service, overall, metrics, bins, audit, quality);
  }

  /** The facts build_encounter_facts produces agree with the events they
      were derived from. */
  lemma DerivedFlagsConsistent(encs: seq<Encounter>, orders: seq<MedOrder>, events: seq<SafetyEvent>,
                               facts: seq<EncounterFact>, perm: seq<nat>)
    requires |perm| == |facts| && forall k :: 0 <= k < |facts| ==> perm[k] < |encs|
    requires forall k :: 0 <= k < |facts| ==> FactBuilder.BaseColumns(encs[perm[k]], orders, events, facts[k])
    ensures Kpis.FlagsConsistent(facts, Kpis.EventEncounterIds(events))
  {
    forall i | 0 <= i < |facts|
      ensures facts[i].reportedAny ==> facts[i].id in Kpis.EventEncounterIds(events)
      ensures facts[i].onTimeAny || facts[i].lateAny ==> facts[i].reportedAny
    {
      FactBuilder.TimingFlagsNeedReport(encs[perm[i]], orders, events, facts[i]);
      if facts[i].reportedAny {
        var j :| 0 <= j < |events| && events[j].encounter == facts[i].id && FactBuilder.Satisfies(events[j], FactBuilder.ReportedFlag);
        assert events[j] in events;
      }
    }
  }

  /** An id is a fact id exactly when it is an encounter id. */
  lemma FactIdMembership(encs: seq<Encounter>, orders: seq<MedOrder>, events: seq<SafetyEvent>,
                         facts: seq<EncounterFact>, perm: seq<nat>, id: EncounterId)
    requires PatientWindow.IsPermutation(perm, |encs|) && |facts| == |encs|
    requires forall k :: 0 <= k < |facts| ==> FactBuilder.BaseColumns(encs[perm[k]], orders, events, facts[k])
    ensures id in EventMetrics.FactIds(facts) <==> exists e :: e in encs && e.id == id
  {
    FactBuilder.FactIdsAreEncounterIds(encs, orders, events, facts, perm);
    var ids := EventMetrics.FactIds(facts);
    if id in ids {
      var k :| 0 <= k < |ids| && ids[k] == id;
      assert facts[k] in facts;
      assert id in (set f | f in facts :: f.id);
    }
    if exists e :: e in encs && e.id == id {
      var x :| x in encs && x.id == id;
      var factIds := set f | f in facts :: f.id;
      var encIds := set e | e in encs :: e.id;
      assert factIds == encIds;
      assert id in encIds;
      assert id in factIds;
      var f :| f in facts && f.id == id;
      var k :| 0 <= k < |facts| && facts[k] == f;
      assert ids[k] == id;
    }
  }

  /** The negative-LOS check over the facts looks at exactly the
      encounters discharged before their admission. */
  lemma LosCheckOverEncounters(encs: seq<Encounter>, orders: seq<MedOrder>, events: seq<SafetyEvent>,
                               facts: seq<EncounterFact>, perm: seq<nat>)
    requires PatientWindow.IsPermutation(perm, |encs|) && |facts| == |encs|
    requires forall k :: 0 <= k < |facts| ==> FactBuilder.BaseColumns(encs[perm[k]], orders, events, facts[k])
    ensures (forall f :: f in facts ==> f.lengthOfStay >= 0) <==> (forall e :: e in encs ==> e.admit <= e.discharge)
  {
    if forall f :: f in facts ==> f.lengthOfStay >= 0 {
      forall e | e in encs
        ensures e.admit <= e.discharge
      {
        var i :| 0 <= i < |encs| && encs[i] == e;
        assert (i as nat) in perm;
        var k :| 0 <= k < |perm| && perm[k] == i;
        assert facts[k] in facts;
      }
    }
    if forall e :: e in encs ==> e.admit <= e.discharge {
      forall f | f in facts
        ensures f.lengthOfStay >= 0
      {
        var k :| 0 <= k < |facts| && facts[k] == f;
        assert encs[perm[k]] in encs;
      }
    }
  }

  /** What holds across the two stages of run_pipeline, given what each
      stage produces: the service KPI rows split all encounters, the
      compliance and timeliness rates lie in [0, 1], every audited row has
      an event, the data-quality checks speak about the raw tables, and
      with distinct encounter ids every event is either counted once in
      event_metrics_monthly or reported as an orphan. */
  lemma StagesAgree(encs: seq<Encounter>, orders: seq<MedOrder>, events: seq<SafetyEvent>,
                    facts: seq<EncounterFact>, perm: seq<nat>, t: KpiTables)
    requires PatientWindow.IsPermutation(perm, |encs|) && |facts| == |encs|
    requires forall k :: 0 <= k < |facts| ==> FactBuilder.BaseColumns(encs[perm[k]], orders, events, facts[k])
    requires Kpis.ServiceTable(facts, Kpis.EventEncounterIds(events), t.service)
    requires t.audit == AuditQuality.AuditView(facts, Kpis.EventEncounterIds(events))
    requires NoDuplicates(EventMetrics.FactIds(facts)) ==>
               CountTotal(t.eventMetrics) + |EventMetrics.Orphans(events, facts)| == |events|
    requires |t.quality| == 2
    requires t.quality[0].status == AuditQuality.Pass <==> forall e :: e in events ==> e.encounter in EventMetrics.FactIds(facts)
    requires t.quality[1].status == AuditQuality.Pass <==> forall f :: f in facts ==> f.lengthOfStay >= 0
    ensures Kpis.TotalEncounters(t.service) == |encs|
    ensures forall a :: 0 <= a < |t.service| ==>
              0.0 <= t.service[a].complianceRate <= 1.0 && 0.0 <= t.service[a].timelinessRate <= 1.0
    ensures forall r :: r in t.audit ==> r.hasAnyEvent
    ensures t.quality[0].status == AuditQuality.Pass <==>
              forall ev :: ev in events ==> exists e :: e in encs && e.id == ev.encounter
    ensures t.quality[1].status == AuditQuality.Pass <==> forall e :: e in encs ==> e.admit <= e.discharge
    ensures (forall a, b :: 0 <= a < b < |encs| ==> encs[a].id != encs[b].id) ==>
              CountTotal(t.eventMetrics) + |EventMetrics.Orphans(events, facts)| == |events|
  {
    var eventIds := Kpis.EventEncounterIds(events);
    DerivedFlagsConsistent(encs, orders, events, facts, perm);
    Kpis.ServiceTableProperties(facts, eventIds, t.service);
    AuditRowsHaveEvents(facts, eventIds);
    LosCheckOverEncounters(encs, orders, events, facts, perm);
    forall ev | ev in events
      ensures ev.encounter in EventMetrics.FactIds(facts) <==> exists e :: e in encs && e.id == ev.encounter
    {
      FactIdMembership(encs, orders, events, facts, perm, ev.encounter);
    }
    if forall a, b :: 0 <= a < b < |encs| ==> encs[a].id != encs[b].id {
      FactBuilder.FactIdsUnique(encs, orders, events, facts, perm);
      assert NoDuplicates(EventMetrics.FactIds(facts));
    }
  }

  /** run_pipeline: build_encounter_facts, then build_kpis on its result.
      The facts are the encounters in (patient, admit) order with their
      derived columns, the tables are build_kpis's tables over them, and
      the properties of StagesAgree hold. */
  method RunPipeline(encs: seq<Encounter>, orders: seq<MedOrder>, events: seq<SafetyEvent>)
    returns (facts: seq<EncounterFact>, t: KpiTables)
    ensures |facts| == |encs|
    ensures FactsOfEncounters(encs, orders, events, facts)
    ensures TablesOfFacts(facts, events, t)
    ensures Kpis.TotalEncounters(t.service) == |encs|
    ensures forall a :: 0 <= a < |t.service| ==>
              0.0 <= t.service[a].complianceRate <= 1.0 && 0.0 <= t.service[a].timelinessRate <= 1.0
    ensures forall r :: r in t.audit ==> r.hasAnyEvent
    ensures |t.quality| == 2
    ensures t.quality[0].status == AuditQuality.Pass <==>
              forall ev :: ev in events ==> exists e :: e in encs && e.id == ev.encounter
    ensures t.quality[1].status == AuditQuality.Pass <==> forall e :: e in encs ==> e.admit <= e.discharge
    ensures (forall a, b :: 0 <= a < b < |encs| ==> encs[a].id != encs[b].id) ==>
              CountTotal(t.eventMetrics) + |EventMetrics.Orphans(events, facts)| == |events|
  {
    var perm;
    facts, perm := FactBuilder.BuildEncounterFacts(encs, orders, events);
    t := BuildKpis(facts, events);
    StagesAgree(encs, orders, events, facts, perm, t);
    FactsFromOrder(encs, orders, events, facts, perm);
  }
}
