/** build_kpis, parts 10 and 11: audit_view, the fact rows that need a
    chart review, and data_quality_report, two PASS/FAIL checks with the
    number of offending rows. */
module AuditQuality {
  import opened Domain
  import opened EventMetrics

  /** A row of audit_view: the fact row together with the month and
      has_any_event columns that build_kpis adds to the facts before it
      filters them. */
  datatype AuditRow = AuditRow(fact: EncounterFact, month: Month, hasAnyEvent: bool)

  /** The audit criteria: high-risk medication exposure, an ADR, a
      medication error or a severe event, and a late report. */
  predicate NeedsAudit(f: EncounterFact)
  {
    f.highRiskExposure && (f.adr || f.medError || f.severe) && f.lateAny
  }

  function AuditRowOf(f: EncounterFact, eventIds: set<EncounterId>): AuditRow
  {
    AuditRow(f, FactMonth(f), f.id in eventIds)
  }

  /** facts[audit_mask]: the fact rows that meet the criteria, in fact
      order, with their added columns. */
  function AuditView(facts: seq<EncounterFact>, eventIds: set<EncounterId>): (rows: seq<AuditRow>)
    ensures |rows| <= |facts|
    ensures forall r :: r in rows ==> NeedsAudit(r.fact) && r.fact in facts && r == AuditRowOf(r.fact, eventIds)
    ensures forall f :: f in facts && NeedsAudit(f) ==> AuditRowOf(f, eventIds) in rows
  {
    if facts == [] then []
    else
      var last := facts[|facts| - 1];
      assert facts == facts[..|facts| - 1] + [last];
      AuditView(facts[..|facts| - 1], eventIds) + (if NeedsAudit(last) then [AuditRowOf(last, eventIds)] else [])
  }

  /** Filtering keeps the order of the facts: the view of two stretches of
      the fact table is the two views one after the other. */
  lemma {:induction false} AuditViewAppend(f1: seq<EncounterFact>, f2: seq<EncounterFact>, eventIds: set<EncounterId>)
    ensures AuditView(f1 + f2, eventIds) == AuditView(f1, eventIds) + AuditView(f2, eventIds)
    decreases |f2|
  {
    if f2 == [] {
      assert f1 + f2 == f1;
    } else {
      var both := f1 + f2;
      assert both[..|both| - 1] == f1 + f2[..|f2| - 1];
      assert both[|both| - 1] == f2[|f2| - 1];
      AuditViewAppend(f1, f2[..|f2| - 1], eventIds);
    }
  }

  /** A row needs all three parts of the criteria: no high-risk exposure,
      no ADR, error or severe event, or no late report each keep it out. */
  lemma AuditNeedsEveryPart(f: EncounterFact, eventIds: set<EncounterId>)
    ensures AuditView([f], eventIds) != [] <==> NeedsAudit(f)
    ensures !f.highRiskExposure ==> AuditView([f], eventIds) == []
    ensures !f.adr && !f.medError && !f.severe ==> AuditView([f], eventIds) == []
    ensures !f.lateAny ==> AuditView([f], eventIds) == []
  {
    assert [f][..0] == [];
  }

  /** The status column of data_quality_report. */
  datatype CheckStatus = Pass | Fail

  datatype QualityRow = QualityRow(check: string, status: CheckStatus, count: nat)

  /** The fact rows with a negative length of stay, filtered in order. */
  function NegativeLosRows(facts: seq<EncounterFact>): seq<EncounterFact>
  {
    if facts == [] then []
    else
      var last := facts[|facts| - 1];
      NegativeLosRows(facts[..|facts| - 1]) + (if last.lengthOfStay < 0 then [last] else [])
  }

  /** facts[facts['length_of_stay'] < 0]: exactly the offending fact rows. */
  function NegativeLos(facts: seq<EncounterFact>): (r: seq<EncounterFact>)
    ensures |r| <= |facts|
    ensures forall f :: f in r <==> f in facts && f.lengthOfStay < 0
  {
    NegativeLosMembers(facts);
    NegativeLosRows(facts)
  }

  lemma {:induction false} NegativeLosMembers(facts: seq<EncounterFact>)
    ensures |NegativeLosRows(facts)| <= |facts|
    ensures forall f :: f in NegativeLosRows(facts) <==> f in facts && f.lengthOfStay < 0
  {
    if facts != [] {
      assert facts == facts[..|facts| - 1] + [facts[|facts| - 1]];
      NegativeLosMembers(facts[..|facts| - 1]);
    }
  }

  /** Filtering keeps every offending row, once per occurrence and in
      order: the rows of two stretches of facts are those of each stretch
      one after the other. */
  lemma {:induction false} NegativeLosAppend(f1: seq<EncounterFact>, f2: seq<EncounterFact>)
    ensures NegativeLos(f1 + f2) == NegativeLos(f1) + NegativeLos(f2)
  {
    NegativeLosRowsAppend(f1, f2);
  }

  lemma {:induction false} NegativeLosRowsAppend(f1: seq<EncounterFact>, f2: seq<EncounterFact>)
    ensures NegativeLosRows(f1 + f2) == NegativeLosRows(f1) + NegativeLosRows(f2)
    decreases |f2|
  {
    if f2 == [] {
      assert f1 + f2 == f1;
    } else {
      var both := f1 + f2;
      assert both[..|both| - 1] == f1 + f2[..|f2| - 1];
      assert both[|both| - 1] == f2[|f2| - 1];
      NegativeLosRowsAppend(f1, f2[..|f2| - 1]);
    }
  }

  /** The count of negative stays is the number of fact rows, with
      repetitions, whose stay is negative. */
  lemma {:induction false} NegativeLosCount(facts: seq<EncounterFact>)
    ensures forall f :: multiset(NegativeLos(facts))[f] == if f.lengthOfStay < 0 then multiset(facts)[f] else 0
  {
    if facts != [] {
      var init, last := facts[..|facts| - 1], facts[|facts| - 1];
      assert facts == init + [last];
      NegativeLosCount(init);
    }
  }

  /** A check passes exactly when it finds no offending row. */
  function StatusOf(count: nat): (s: CheckStatus)
    ensures s == Pass <==> count == 0
  {
    if count == 0 then Pass else Fail
  }

  /** The orphan check passes exactly when every event's encounter is in
      the facts. */
  lemma NoOrphansIffLinked(events: seq<SafetyEvent>, facts: seq<EncounterFact>)
    ensures |Orphans(events, facts)| == 0 <==> forall e :: e in events ==> e.encounter in FactIds(facts)
  {
    var o := Orphans(events, facts);
    if |o| > 0 {
      assert o[0] in o;
    }
  }

  /** The length-of-stay check passes exactly when no stay is negative. */
  lemma NoNegativeLosIffAllNonNegative(facts: seq<EncounterFact>)
    ensures |NegativeLos(facts)| == 0 <==> forall f :: f in facts ==> f.lengthOfStay >= 0
  {
    var n := NegativeLos(facts);
    if |n| > 0 {
      assert n[0] in n;
    }
  }

  /** The rows of data_quality_report, in order: the check name, its
      PASS/FAIL status and the number of offending rows. */
  function QualityReport(events: seq<SafetyEvent>, facts: seq<EncounterFact>): seq<QualityRow>
  {
    var orphans := |Orphans(events, facts)|;
    var negLos := |NegativeLos(facts)|;
    [QualityRow("Safety Events Orphans", StatusOf(orphans), orphans),
     QualityRow("Negative LOS", StatusOf(negLos), negLos)]
  }

  /** data_quality_report: the orphan-event check, then the negative
      length-of-stay check, each with its count of offending rows. */
  method BuildQualityReport(events: seq<SafetyEvent>, facts: seq<EncounterFact>) returns (report: seq<QualityRow>)
    ensures report == QualityReport(events, facts)
    ensures |report| == 2
    ensures report[0].check == "Safety Events Orphans" && report[0].count == |Orphans(events, facts)|
    ensures report[0].status == Pass <==> forall e :: e in events ==> e.encounter in FactIds(facts)
    ensures report[1].check == "Negative LOS" && report[1].count == |NegativeLos(facts)|
    ensures report[1].status == Pass <==> forall f :: f in facts ==> f.lengthOfStay >= 0
  {
    report := [];
    var orphans := Orphans(events, facts);
    report := report + [QualityRow("Safety Events Orphans", StatusOf(|orphans|), |orphans|)];
    var negLos := NegativeLos(facts);
    report := report + [QualityRow("Negative LOS", StatusOf(|negLos|), |negLos|)];
    NoOrphansIffLinked(events, facts);
    NoNegativeLosIffAllNonNegative(facts);
  }

  /** Adding an event whose encounter is not in the facts raises the
      orphan count by exactly one and makes the check fail. */
  lemma OrphanInsertionFails(events: seq<SafetyEvent>, e: SafetyEvent, facts: seq<EncounterFact>)
    requires e.encounter !in FactIds(facts)
    ensures |Orphans(events + [e], facts)| == |Orphans(events, facts)| + 1
    ensures StatusOf(|Orphans(events + [e], facts)|) == Fail
  {
    assert (events + [e])[..|events|] == events;
  }
}
