/** build_encounter_facts: one encounter_facts row per encounter, with the
    medication aggregates, the six safety-event flags, the length of stay
    and the readmission / ED-revisit window. The three raw tables are
    parameters and the fact table is the result. */
module FactBuilder {
  import opened Domain
  import opened PatientWindow

  /** The number of medication orders referencing encounter id. */
  function OrderCount(orders: seq<MedOrder>, id: EncounterId): nat
  {
    if orders == [] then 0
    else OrderCount(orders[..|orders| - 1], id) + (if orders[|orders| - 1].encounter == id then 1 else 0)
  }

  /** Some order of encounter id is flagged high-risk. */
  ghost predicate HasHighRiskOrder(orders: seq<MedOrder>, id: EncounterId)
  {
    exists j :: 0 <= j < |orders| && orders[j].encounter == id && orders[j].highRisk
  }

  /** The six per-event conditions that set an encounter flag. */
  datatype EventFlag = AdrFlag | MedErrorFlag | SevereFlag | ReportedFlag | OnTimeFlag | LateFlag

  predicate Satisfies(e: SafetyEvent, flag: EventFlag)
  {
    match flag
    case AdrFlag => e.eventType == ADR
    case MedErrorFlag => e.eventType == MedError
    case SevereFlag => e.severity == Severe
    case ReportedFlag => e.reported
    case OnTimeFlag => e.reported && e.reportDelay <= 7
    case LateFlag => e.reported && e.reportDelay > 7
  }

  /** Some safety event of encounter id meets the flag's condition. */
  ghost predicate AnyEvent(events: seq<SafetyEvent>, id: EncounterId, flag: EventFlag)
  {
    exists j :: 0 <= j < |events| && events[j].encounter == id && Satisfies(events[j], flag)
  }

  /** A next encounter admitted 0 to 30 days after this discharge. */
  predicate ReadmittedWithin30(e: Encounter, next: Encounter)
  {
    0 <= next.admit - e.discharge <= 30
  }

  /** A next encounter through the ED admitted 0 to 7 days after this
      discharge. */
  predicate EdRevisitWithin7(e: Encounter, next: Encounter)
  {
    0 <= next.admit - e.discharge <= 7 && next.admission == AdmissionType.ED
  }

  /** Every column of f except the two window flags is what the source
      derives for encounter e. */
  ghost predicate BaseColumns(e: Encounter, orders: seq<MedOrder>, events: seq<SafetyEvent>, f: EncounterFact)
  {
    f.id == e.id && f.patient == e.patient && f.service == e.service &&
    f.admission == e.admission && f.admit == e.admit && f.discharge == e.discharge &&
    f.medOrdersCount == OrderCount(orders, e.id) &&
    f.highRiskExposure == HasHighRiskOrder(orders, e.id) &&
    f.adr == AnyEvent(events, e.id, AdrFlag) &&
    f.medError == AnyEvent(events, e.id, MedErrorFlag) &&
    f.severe == AnyEvent(events, e.id, SevereFlag) &&
    f.reportedAny == AnyEvent(events, e.id, ReportedFlag) &&
    f.onTimeAny == AnyEvent(events, e.id, OnTimeFlag) &&
    f.lateAny == AnyEvent(events, e.id, LateFlag) &&
    f.lengthOfStay == e.discharge - e.admit
  }

  /** The window flags of row i: both off for the patient's last
      encounter, otherwise decided by the patient's next encounter. */
  ghost predicate WindowColumns(encs: seq<Encounter>, i: nat, f: EncounterFact)
    requires i < |encs|
  {
    (IsLast(encs, i) && !f.readmission30 && !f.edRevisit7) ||
    (exists j :: 0 <= j < |encs| && IsNext(encs, i, j) &&
       f.readmission30 == ReadmittedWithin30(encs[i], encs[j]) &&
       f.edRevisit7 == EdRevisitWithin7(encs[i], encs[j]))
  }

  /** Extending the order prefix by one order adds that order's flag. */
  lemma HighRiskOrderPrefix(orders: seq<MedOrder>, i: nat)
    requires i < |orders|
    ensures forall id :: HasHighRiskOrder(orders[..i + 1], id) <==>
              HasHighRiskOrder(orders[..i], id) || (orders[i].encounter == id && orders[i].highRisk)
  {
    forall id
      ensures HasHighRiskOrder(orders[..i + 1], id) ==>
              HasHighRiskOrder(orders[..i], id) || (orders[i].encounter == id && orders[i].highRisk)
    {
      if HasHighRiskOrder(orders[..i + 1], id) {
        var j :| 0 <= j < i + 1 && orders[..i + 1][j].encounter == id && orders[..i + 1][j].highRisk;
        if j < i {
          assert orders[..i][j] == orders[j];
        }
      }
    }
    forall id | HasHighRiskOrder(orders[..i], id)
      ensures HasHighRiskOrder(orders[..i + 1], id)
    {
      var j :| 0 <= j < i && orders[..i][j].encounter == id && orders[..i][j].highRisk;
      assert orders[..i + 1][j] == orders[..i][j];
    }
    assert orders[i].highRisk ==> HasHighRiskOrder(orders[..i + 1], orders[i].encounter) by {
      assert orders[..i + 1][i] == orders[i];
    }
  }

  /** med_orders.groupby('encounter_id'): the group sizes and the maximum
      of high_risk_flag, keyed by the encounters that have orders. */
  method AggregateOrders(orders: seq<MedOrder>) returns (counts: map<EncounterId, nat>, highRisk: map<EncounterId, bool>)
    ensures counts.Keys == highRisk.Keys
    ensures forall id :: id in counts <==> OrderCount(orders, id) > 0
    ensures forall id :: id in counts ==> counts[id] == OrderCount(orders, id)
    ensures forall id :: id in highRisk ==> highRisk[id] == HasHighRiskOrder(orders, id)
  {
    counts, highRisk := map[], map[];
    var i := 0;
    while i < |orders|
      invariant 0 <= i <= |orders|
      invariant counts.Keys == highRisk.Keys
      invariant forall id :: id in counts <==> OrderCount(orders[..i], id) > 0
      invariant forall id :: id in counts ==> counts[id] == OrderCount(orders[..i], id)
      invariant forall id :: id in highRisk ==> highRisk[id] == HasHighRiskOrder(orders[..i], id)
    {
      var o := orders[i];
      assert orders[..i + 1][..i] == orders[..i];
      HighRiskOrderPrefix(orders, i);
      if o.encounter in counts {
        counts := counts[o.encounter := counts[o.encounter] + 1];
        highRisk := highRisk[o.encounter := highRisk[o.encounter] || o.highRisk];
      } else {
        if HasHighRiskOrder(orders[..i], o.encounter) {
          var j :| 0 <= j < i && orders[..i][j].encounter == o.encounter && orders[..i][j].highRisk;
          OrderCountPositive(orders[..i], o.encounter, j);
        }
        counts := counts[o.encounter := 1];
        highRisk := highRisk[o.encounter := o.highRisk];
      }
      i := i + 1;
    }
    assert orders[..i] == orders;
  }

  /** safety_events[condition]['encounter_id'].unique(): the encounters
      having some event that meets the flag's condition (empty when there
      are no events). */
  method EncountersWith(events: seq<SafetyEvent>, flag: EventFlag) returns (ids: set<EncounterId>)
    ensures forall id :: id in ids <==> AnyEvent(events, id, flag)
  {
    ids := {};
    var i := 0;
    while i < |events|
      invariant 0 <= i <= |events|
      invariant forall id :: id in ids <==> AnyEvent(events[..i], id, flag)
    {
      var e := events[i];
      forall id | AnyEvent(events[..i + 1], id, flag)
        ensures id in ids || (e.encounter == id && Satisfies(e, flag))
      {
        var j :| 0 <= j < i + 1 && events[..i + 1][j].encounter == id && Satisfies(events[..i + 1][j], flag);
        if j < i {
          assert events[..i][j] == events[j];
        }
      }
      forall id | AnyEvent(events[..i], id, flag)
        ensures AnyEvent(events[..i + 1], id, flag)
      {
        var j :| 0 <= j < i && events[..i][j].encounter == id && Satisfies(events[..i][j], flag);
        assert events[..i + 1][j] == events[..i][j];
      }
      assert events[..i + 1][i] == e;
      if Satisfies(e, flag) {
        ids := ids + {e.encounter};
      }
      i := i + 1;
    }
    assert events[..i] == events;
  }

  /** The encounter frame with the medication merges (missing counts and
      flags filled with 0), the six event flags and the length of stay, in
      input order, before the sort. */
  method DeriveBaseColumns(encs: seq<Encounter>, orders: seq<MedOrder>, events: seq<SafetyEvent>)
    returns (df: seq<EncounterFact>)
    ensures |df| == |encs|
    ensures forall t :: 0 <= t < |df| ==> BaseColumns(encs[t], orders, events, df[t])
  {
    var counts, highRisk := AggregateOrders(orders);
    var adrIds := EncountersWith(events, AdrFlag);
    var medErrorIds := EncountersWith(events, MedErrorFlag);
    var severeIds := EncountersWith(events, SevereFlag);
    var reportedIds := EncountersWith(events, ReportedFlag);
    var onTimeIds := EncountersWith(events, OnTimeFlag);
    var lateIds := EncountersWith(events, LateFlag);

    df := [];
    var i := 0;
    while i < |encs|
      invariant 0 <= i <= |encs|
      invariant |df| == i
      invariant forall t :: 0 <= t < i ==> BaseColumns(encs[t], orders, events, df[t])
    {
      var e := encs[i];
      var row := EncounterFact(
        e.id, e.patient, e.service, e.admission, e.admit, e.discharge,
        if e.id in counts then counts[e.id] else 0,
        if e.id in highRisk then highRisk[e.id] else false,
        e.id in adrIds, e.id in medErrorIds, e.id in severeIds,
        e.id in reportedIds, e.id in onTimeIds, e.id in lateIds,
        e.discharge - e.admit,
        false, false);
      if e.id !in highRisk {
        assert !HasHighRiskOrder(orders, e.id) by {
          if HasHighRiskOrder(orders, e.id) {
            var j :| 0 <= j < |orders| && orders[j].encounter == e.id && orders[j].highRisk;
            OrderCountPositive(orders, e.id, j);
          }
        }
      }
      df := df + [row];
      i := i + 1;
    }
  }

  /** build_encounter_facts. The result lists one row per encounter in the
      order the in-place sort by (patient_id, admit_date) leaves the frame;
      perm is that frame's index, so row k is derived from encounter
      perm[k]. */
  method BuildEncounterFacts(encs: seq<Encounter>, orders: seq<MedOrder>, events: seq<SafetyEvent>)
    returns (facts: seq<EncounterFact>, perm: seq<nat>)
    ensures IsPermutation(perm, |encs|) && SortedBy(encs, perm)
    ensures |facts| == |encs|
    ensures forall k :: 0 <= k < |facts| ==>
              BaseColumns(encs[perm[k]], orders, events, facts[k]) && WindowColumns(encs, perm[k], facts[k])
    ensures forall k :: 0 <= k < |facts| ==> (facts[k].edRevisit7 ==> facts[k].readmission30)
    ensures forall k :: 0 <= k < |facts| ==> (facts[k].onTimeAny || facts[k].lateAny ==> facts[k].reportedAny)
  {
    var df := DeriveBaseColumns(encs, orders, events);
    perm := SortByPatientAdmit(encs);
    var next := ShiftWithinPatient(encs, perm);

    facts := [];
    var k := 0;
    while k < |perm|
      invariant 0 <= k <= |perm|
      invariant |facts| == k
      invariant forall t :: 0 <= t < k ==>
                  BaseColumns(encs[perm[t]], orders, events, facts[t]) && WindowColumns(encs, perm[t], facts[t])
      invariant forall t :: 0 <= t < k ==> (facts[t].edRevisit7 ==> facts[t].readmission30)
      invariant forall t :: 0 <= t < k ==> (facts[t].onTimeAny || facts[t].lateAny ==> facts[t].reportedAny)
    {
      var e := encs[perm[k]];
      var readmit, edRevisit := false, false;
      if next[k].Some? {
        var following := encs[next[k].value];
        var daysToNext := following.admit - e.discharge;
        readmit := daysToNext <= 30 && daysToNext >= 0;
        edRevisit := daysToNext <= 7 && daysToNext >= 0 && following.admission == AdmissionType.ED;
        assert IsNext(encs, perm[k], next[k].value);
        assert readmit == ReadmittedWithin30(e, following) && edRevisit == EdRevisitWithin7(e, following);
      }
      var row := df[perm[k]].(readmission30 := readmit, edRevisit7 := edRevisit);
      BaseColumnsIgnoreWindow(encs[perm[k]], orders, events, df[perm[k]], readmit, edRevisit);
      TimingFlagsNeedReport(encs[perm[k]], orders, events, row);
      assert WindowColumns(encs, perm[k], row);
      facts := facts + [row];
      k := k + 1;
    }
  }

  /** Setting the window flags leaves the other columns as they were. */
  lemma BaseColumnsIgnoreWindow(e: Encounter, orders: seq<MedOrder>, events: seq<SafetyEvent>, f: EncounterFact,
                                readmit: bool, edRevisit: bool)
    requires BaseColumns(e, orders, events, f)
    ensures BaseColumns(e, orders, events, f.(readmission30 := readmit, edRevisit7 := edRevisit))
  {
  }

  /** An encounter flagged on time or late has a reported event. */
  lemma TimingFlagsNeedReport(e: Encounter, orders: seq<MedOrder>, events: seq<SafetyEvent>, f: EncounterFact)
    requires BaseColumns(e, orders, events, f)
    ensures f.onTimeAny || f.lateAny ==> f.reportedAny
  {
    if f.onTimeAny {
      var j :| 0 <= j < |events| && events[j].encounter == e.id && Satisfies(events[j], OnTimeFlag);
      assert Satisfies(events[j], ReportedFlag);
    }
    if f.lateAny {
      var j :| 0 <= j < |events| && events[j].encounter == e.id && Satisfies(events[j], LateFlag);
      assert Satisfies(events[j], ReportedFlag);
    }
  }

  /** An order of encounter id makes its order count positive. */
  lemma {:induction false} OrderCountPositive(orders: seq<MedOrder>, id: EncounterId, j: nat)
    requires j < |orders| && orders[j].encounter == id
    ensures OrderCount(orders, id) > 0
    decreases |orders|
  {
    var n := |orders|;
    if j < n - 1 {
      assert orders[..n - 1][j] == orders[j];
      OrderCountPositive(orders[..n - 1], id, j);
    }
  }

  /** An encounter without safety events has all six event flags off. */
  lemma NoEventsNoFlags(e: Encounter, orders: seq<MedOrder>, events: seq<SafetyEvent>, f: EncounterFact)
    requires BaseColumns(e, orders, events, f)
    requires forall j :: 0 <= j < |events| ==> events[j].encounter != e.id
    ensures !f.adr && !f.medError && !f.severe && !f.reportedAny && !f.onTimeAny && !f.lateAny
  {
  }

  /** One encounter can be flagged both on time and late: one event reported
      after 3 days and another after 10. */
  lemma {:induction false} OnTimeAndLateTogether(e: Encounter, orders: seq<MedOrder>, f: EncounterFact)
    requires BaseColumns(e, orders, [SafetyEvent("EV-1", e.id, ADR, Mild, 3, true, e.discharge),
                                     SafetyEvent("EV-2", e.id, Omission, Mild, 10, true, e.discharge)], f)
    ensures f.onTimeAny && f.lateAny && f.reportedAny && f.adr && !f.medError && !f.severe
  {
    var events := [SafetyEvent("EV-1", e.id, ADR, Mild, 3, true, e.discharge),
                   SafetyEvent("EV-2", e.id, Omission, Mild, 10, true, e.discharge)];
    assert Satisfies(events[0], OnTimeFlag) && Satisfies(events[0], AdrFlag);
    assert Satisfies(events[1], LateFlag);
  }

  /** The rule that decides the window flags from the next encounter: an
      ED revisit is always also a readmission. */
  lemma EdRevisitIsReadmission(e: Encounter, next: Encounter)
    ensures EdRevisitWithin7(e, next) ==> ReadmittedWithin30(e, next)
  {
  }

  /** A patient's last encounter has both window flags off. */
  lemma {:induction false} LastEncounterNoWindowFlags(encs: seq<Encounter>, i: nat, f: EncounterFact)
    requires i < |encs| && IsLast(encs, i) && WindowColumns(encs, i, f)
    ensures !f.readmission30 && !f.edRevisit7
  {
  }

  /** The window flags of a row whose next encounter is row j are decided
      by row j alone. */
  lemma {:induction false} WindowFlagsFromNext(encs: seq<Encounter>, i: nat, j: nat, f: EncounterFact)
    requires i < |encs| && j < |encs| && IsNext(encs, i, j) && WindowColumns(encs, i, f)
    ensures f.readmission30 == ReadmittedWithin30(encs[i], encs[j])
    ensures f.edRevisit7 == EdRevisitWithin7(encs[i], encs[j])
  {
    NextExcludesLast(encs, i, j);
    var j' :| 0 <= j' < |encs| && IsNext(encs, i, j') &&
              f.readmission30 == ReadmittedWithin30(encs[i], encs[j']) &&
              f.edRevisit7 == EdRevisitWithin7(encs[i], encs[j']);
    NextIsUnique(encs, i, j, j');
  }

  /** Two encounters of one patient, the first discharged on day 10 and the
      second admitted on day `nextAdmit`: the first row's flags. A second
      admission on day 35 (25 days later) is a readmission, on day 45 it is
      not; a 5-day gap to an inpatient admission is no ED revisit. */
  lemma {:induction false} ReadmissionExample(a: Encounter, b: Encounter, f: EncounterFact)
    requires a.patient == b.patient && a.admit <= a.discharge == 10 <= b.admit
    requires WindowColumns([a, b], 0, f)
    ensures f.readmission30 <==> b.admit <= 40
    ensures b.admit == 15 && b.admission == Inpatient ==> !f.edRevisit7
    ensures b.admit == 15 && b.admission == AdmissionType.ED ==> f.edRevisit7
  {
    var encs := [a, b];
    assert IsNext(encs, 0, 1);
    WindowFlagsFromNext(encs, 0, 1, f);
  }

  /** The fact table has the same encounter ids as the encounter table. */
  lemma {:induction false} FactIdsAreEncounterIds(encs: seq<Encounter>, orders: seq<MedOrder>, events: seq<SafetyEvent>,
                                                  facts: seq<EncounterFact>, perm: seq<nat>)
    requires IsPermutation(perm, |encs|) && |facts| == |encs|
    requires forall k :: 0 <= k < |facts| ==> BaseColumns(encs[perm[k]], orders, events, facts[k])
    ensures (set f | f in facts :: f.id) == (set e | e in encs :: e.id)
  {
    forall e | e in encs
      ensures e.id in (set f | f in facts :: f.id)
    {
      var i :| 0 <= i < |encs| && encs[i] == e;
      assert (i as nat) in perm;
      var k :| 0 <= k < |perm| && perm[k] == i;
      assert facts[k].id == e.id;
      assert facts[k] in facts;
    }
    forall f | f in facts
      ensures f.id in (set e | e in encs :: e.id)
    {
      var k :| 0 <= k < |facts| && facts[k] == f;
      assert encs[perm[k]] in encs;
    }
  }

  /** Distinct encounter ids give a fact table without duplicate ids. */
  lemma {:induction false} FactIdsUnique(encs: seq<Encounter>, orders: seq<MedOrder>, events: seq<SafetyEvent>,
                                         facts: seq<EncounterFact>, perm: seq<nat>)
    requires IsPermutation(perm, |encs|) && |facts| == |encs|
    requires forall k :: 0 <= k < |facts| ==> BaseColumns(encs[perm[k]], orders, events, facts[k])
    requires forall a, b :: 0 <= a < b < |encs| ==> encs[a].id != encs[b].id
    ensures forall a, b :: 0 <= a < b < |facts| ==> facts[a].id != facts[b].id
  {
    forall a, b | 0 <= a < b < |facts|
      ensures facts[a].id != facts[b].id
    {
      assert facts[a].id == encs[perm[a]].id && facts[b].id == encs[perm[b]].id;
      if perm[a] < perm[b] {
        assert encs[perm[a]].id != encs[perm[b]].id;
      } else {
        assert encs[perm[b]].id != encs[perm[a]].id;
      }
    }
  }
}
