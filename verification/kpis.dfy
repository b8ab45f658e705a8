/** build_kpis, parts 6 and 7: kpi_monthly_service groups the fact table by
    (month, service_line) and kpi_monthly_overall by month. Every rate is
    recomputed from the group's summed numerator and denominator, and a
    zero denominator gives 0. */
module Kpis {
  import opened Domain
  import opened Tables

  datatype ServiceKey = ServiceKey(month: Month, service: ServiceLine)

  datatype KpiServiceRow = KpiServiceRow(
    month: Month,
    service: ServiceLine,
    totalEncounters: nat,
    encountersWithEvent: nat,
    encountersReported: nat,
    onTimeEncounters: nat,
    complianceRate: real,
    timelinessRate: real,
    adrCount: nat,
    severeCount: nat,
    highRiskExposureCount: nat,
    adrPer1000: real,
    severePer1000: real,
    highRiskExposureRate: real)

  datatype KpiOverallRow = KpiOverallRow(month: Month, totalEncounters: nat, adrPer1000: real)

  /** The 0/1 fact columns that the KPI tables sum. */
  datatype FactColumn = HasAnyEvent | ReportedAny | OnTimeAny | AdrFlag | SevereFlag | HighRiskExposure

  /** SELECT DISTINCT encounter_id FROM safety_events. */
  function EventEncounterIds(events: seq<SafetyEvent>): (ids: set<EncounterId>)
    ensures forall e :: e in events ==> e.encounter in ids
    ensures forall id :: id in ids ==> exists j :: 0 <= j < |events| && events[j].encounter == id
  {
    set e | e in events :: e.encounter
  }

  predicate Holds(f: EncounterFact, col: FactColumn, eventIds: set<EncounterId>)
  {
    match col
    case HasAnyEvent => f.id in eventIds
    case ReportedAny => f.reportedAny
    case OnTimeAny => f.onTimeAny
    case AdrFlag => f.adr
    case SevereFlag => f.severe
    case HighRiskExposure => f.highRiskExposure
  }

  /** A fact column as the 0/1 integers that the source sums. */
  function Column(facts: seq<EncounterFact>, col: FactColumn, eventIds: set<EncounterId>): (c: seq<nat>)
    ensures |c| == |facts|
    ensures forall i :: 0 <= i < |facts| ==> c[i] == (if Holds(facts[i], col, eventIds) then 1 else 0)
  {
    seq(|facts|, i requires 0 <= i < |facts| => if Holds(facts[i], col, eventIds) then 1 else 0)
  }

  /** The (month, service_line) grouping key of every fact row. */
  function ServiceKeys(facts: seq<EncounterFact>): (keys: seq<ServiceKey>)
    ensures |keys| == |facts|
    ensures forall i :: 0 <= i < |facts| ==> keys[i] == ServiceKey(FactMonth(facts[i]), facts[i].service)
  {
    seq(|facts|, i requires 0 <= i < |facts| => ServiceKey(FactMonth(facts[i]), facts[i].service))
  }

  /** The month grouping key of every fact row. */
  function MonthKeys(facts: seq<EncounterFact>): (keys: seq<Month>)
    ensures |keys| == |facts|
    ensures forall i :: 0 <= i < |facts| ==> keys[i] == FactMonth(facts[i])
  {
    seq(|facts|, i requires 0 <= i < |facts| => FactMonth(facts[i]))
  }

  /** n / d, or 0 where the source divides by a denominator replaced by NaN
      (or yields NaN) and then fills it with 0. */
  function Ratio(n: nat, d: nat): (r: real)
    ensures d == 0 ==> r == 0.0
    ensures d > 0 ==> r * d as real == n as real
    ensures n <= d ==> 0.0 <= r <= 1.0
  {
    if d == 0 then 0.0 else n as real / d as real
  }

  /** (n / d) * 1000, with the same zero default. */
  function Per1000(n: nat, d: nat): (r: real)
    ensures d == 0 ==> r == 0.0
    ensures d > 0 ==> r * d as real == 1000.0 * n as real
    ensures n <= d ==> 0.0 <= r <= 1000.0
  {
    Ratio(n, d) * 1000.0
  }

  /** The number of fact rows admitted in month m. */
  function MonthCount(facts: seq<EncounterFact>, m: Month): nat
  {
    if facts == [] then 0
    else MonthCount(facts[..|facts| - 1], m) + (if FactMonth(facts[|facts| - 1]) == m then 1 else 0)
  }

  /** The sum of total_encounters over all service rows. */
  function TotalEncounters(rows: seq<KpiServiceRow>): nat
  {
    if rows == [] then 0 else TotalEncounters(rows[..|rows| - 1]) + rows[|rows| - 1].totalEncounters
  }

  /** The sum of total_encounters over the service rows of month m. */
  function MonthTotal(rows: seq<KpiServiceRow>, m: Month): nat
  {
    if rows == [] then 0
    else MonthTotal(rows[..|rows| - 1], m) + (if rows[|rows| - 1].month == m then rows[|rows| - 1].totalEncounters else 0)
  }

  function InMonth(m: Month): ServiceKey -> bool
  {
    (k: ServiceKey) => k.month == m
  }

  /** Every rate of a service row is recomputed from its own summed counts. */
  predicate RatesFromCounts(r: KpiServiceRow)
  {
    r.complianceRate == Ratio(r.encountersReported, r.encountersWithEvent) &&
    r.timelinessRate == Ratio(r.onTimeEncounters, r.encountersReported) &&
    r.adrPer1000 == Per1000(r.adrCount, r.totalEncounters) &&
    r.severePer1000 == Per1000(r.severeCount, r.totalEncounters) &&
    r.highRiskExposureRate == Ratio(r.highRiskExposureCount, r.totalEncounters)
  }

  /** Row r is the service group `key` of the fact table: each count is the
      group's sum of the matching column and each rate follows from them. */
  ghost predicate ServiceRowFor(facts: seq<EncounterFact>, eventIds: set<EncounterId>, key: ServiceKey, r: KpiServiceRow)
  {
    var keys := ServiceKeys(facts);
    r.month == key.month && r.service == key.service &&
    r.totalEncounters == SumFor(keys, Ones(|facts|), key) &&
    r.encountersWithEvent == SumFor(keys, Column(facts, HasAnyEvent, eventIds), key) &&
    r.encountersReported == SumFor(keys, Column(facts, ReportedAny, eventIds), key) &&
    r.onTimeEncounters == SumFor(keys, Column(facts, OnTimeAny, eventIds), key) &&
    r.adrCount == SumFor(keys, Column(facts, AdrFlag, eventIds), key) &&
    r.severeCount == SumFor(keys, Column(facts, SevereFlag, eventIds), key) &&
    r.highRiskExposureCount == SumFor(keys, Column(facts, HighRiskExposure, eventIds), key) &&
    RatesFromCounts(r)
  }

  /** The facts' flags agree with the safety events: a reported encounter
      has an event, and an on-time or late encounter was reported. */
  ghost predicate FlagsConsistent(facts: seq<EncounterFact>, eventIds: set<EncounterId>)
  {
    forall i :: 0 <= i < |facts| ==>
      (facts[i].reportedAny ==> facts[i].id in eventIds) &&
      (facts[i].onTimeAny || facts[i].lateAny ==> facts[i].reportedAny)
  }

  /** A column of 0/1 values never sums above the group size. */
  lemma FlagSumAtMostSize(facts: seq<EncounterFact>, col: FactColumn, eventIds: set<EncounterId>, key: ServiceKey)
    ensures SumFor(ServiceKeys(facts), Column(facts, col, eventIds), key) <= SumFor(ServiceKeys(facts), Ones(|facts|), key)
  {
    SumForMonotone(ServiceKeys(facts), Column(facts, col, eventIds), Ones(|facts|), key);
  }

  /** Under consistent flags a group has no more reported encounters than
      encounters with an event, and no more on-time than reported ones. */
  lemma ConsistentGroupCounts(facts: seq<EncounterFact>, eventIds: set<EncounterId>, key: ServiceKey)
    requires FlagsConsistent(facts, eventIds)
    ensures SumFor(ServiceKeys(facts), Column(facts, ReportedAny, eventIds), key) <=
            SumFor(ServiceKeys(facts), Column(facts, HasAnyEvent, eventIds), key)
    ensures SumFor(ServiceKeys(facts), Column(facts, OnTimeAny, eventIds), key) <=
            SumFor(ServiceKeys(facts), Column(facts, ReportedAny, eventIds), key)
  {
    var keys := ServiceKeys(facts);
    SumForMonotone(keys, Column(facts, ReportedAny, eventIds), Column(facts, HasAnyEvent, eventIds), key);
    SumForMonotone(keys, Column(facts, OnTimeAny, eventIds), Column(facts, ReportedAny, eventIds), key);
  }

  /** The encounters of a month, counted over the service keys. */
  lemma {:induction false} MonthCountByServiceKeys(facts: seq<EncounterFact>, m: Month)
    ensures SumWhere(ServiceKeys(facts), Ones(|facts|), InMonth(m)) == MonthCount(facts, m)
  {
    if facts != [] {
      var n := |facts|;
      assert ServiceKeys(facts)[..n - 1] == ServiceKeys(facts[..n - 1]);
      assert Ones(n)[..n - 1] == Ones(n - 1);
      MonthCountByServiceKeys(facts[..n - 1], m);
    }
  }

  /** The encounters of a month, counted over the month keys. */
  lemma {:induction false} MonthCountByMonthKeys(facts: seq<EncounterFact>, m: Month)
    ensures SumFor(MonthKeys(facts), Ones(|facts|), m) == MonthCount(facts, m)
  {
    if facts != [] {
      var n := |facts|;
      assert MonthKeys(facts)[..n - 1] == MonthKeys(facts[..n - 1]);
      assert Ones(n)[..n - 1] == Ones(n - 1);
      MonthCountByMonthKeys(facts[..n - 1], m);
    }
  }

  /** Every row counted with a predicate that always holds: the row count. */
  lemma {:induction false} SumWhereAll(keys: seq<ServiceKey>)
    ensures SumWhere(keys, Ones(|keys|), (k: ServiceKey) => true) == |keys|
  {
    if keys != [] {
      var n := |keys|;
      assert Ones(n)[..n - 1] == Ones(n - 1);
      SumWhereAll(keys[..n - 1]);
    }
  }

  /** Rows aligned with groups whose totals are the group sizes: the month
      totals of the rows are the grouped sums over that month's groups. */
  lemma {:induction false} MonthTotalOverGroups(rows: seq<KpiServiceRow>, groups: seq<ServiceKey>, keys: seq<ServiceKey>, m: Month)
    requires |rows| == |groups|
    requires forall a :: 0 <= a < |rows| ==>
               rows[a].month == groups[a].month && rows[a].totalEncounters == SumFor(keys, Ones(|keys|), groups[a])
    ensures MonthTotal(rows, m) == GroupedSumWhere(groups, keys, Ones(|keys|), InMonth(m))
    ensures TotalEncounters(rows) == GroupedSumWhere(groups, keys, Ones(|keys|), (k: ServiceKey) => true)
  {
    if rows != [] {
      var n := |rows|;
      MonthTotalOverGroups(rows[..n - 1], groups[..n - 1], keys, m);
    }
  }

  /** The rows of kpi_monthly_service: row a is group a of the
      (month, service_line) index. */
  ghost predicate ServiceTable(facts: seq<EncounterFact>, eventIds: set<EncounterId>, rows: seq<KpiServiceRow>)
  {
    |rows| == |Distinct(ServiceKeys(facts))| &&
    forall a :: 0 <= a < |rows| ==> ServiceRowFor(facts, eventIds, Distinct(ServiceKeys(facts))[a], rows[a])
  }

  /** What kpi_monthly_service promises: every group is non-empty, the
      groups split the facts (in total and month by month), the per-1000
      rates and the exposure rate are in range, and under consistent flags
      so are the compliance and timeliness rates. */
  lemma ServiceTableProperties(facts: seq<EncounterFact>, eventIds: set<EncounterId>, rows: seq<KpiServiceRow>)
    requires ServiceTable(facts, eventIds, rows)
    ensures TotalEncounters(rows) == |facts|
    ensures forall m :: MonthTotal(rows, m) == MonthCount(facts, m)
    ensures forall a :: 0 <= a < |rows| ==>
              rows[a].totalEncounters >= 1 &&
              0.0 <= rows[a].adrPer1000 <= 1000.0 && 0.0 <= rows[a].severePer1000 <= 1000.0 &&
              0.0 <= rows[a].highRiskExposureRate <= 1.0
    ensures FlagsConsistent(facts, eventIds) ==>
              forall a :: 0 <= a < |rows| ==>
                rows[a].encountersReported <= rows[a].encountersWithEvent &&
                rows[a].onTimeEncounters <= rows[a].encountersReported &&
                0.0 <= rows[a].complianceRate <= 1.0 && 0.0 <= rows[a].timelinessRate <= 1.0
  {
    var keys := ServiceKeys(facts);
    var index := Distinct(keys);
    forall m
      ensures MonthTotal(rows, m) == MonthCount(facts, m)
    {
      MonthTotalOverGroups(rows, index, keys, m);
      GroupedSumsAddUp(keys, Ones(|keys|), InMonth(m));
      MonthCountByServiceKeys(facts, m);
    }
    MonthTotalOverGroups(rows, index, keys, Month(0, 0));
    GroupedSumsAddUp(keys, Ones(|keys|), (k: ServiceKey) => true);
    SumWhereAll(keys);
    forall b | 0 <= b < |rows|
      ensures rows[b].totalEncounters >= 1
      ensures rows[b].adrCount <= rows[b].totalEncounters && rows[b].severeCount <= rows[b].totalEncounters
      ensures rows[b].highRiskExposureCount <= rows[b].totalEncounters
      ensures FlagsConsistent(facts, eventIds) ==>
                rows[b].encountersReported <= rows[b].encountersWithEvent &&
                rows[b].onTimeEncounters <= rows[b].encountersReported
    {
      GroupIsNonEmpty(keys, b);
      FlagSumAtMostSize(facts, AdrFlag, eventIds, index[b]);
      FlagSumAtMostSize(facts, SevereFlag, eventIds, index[b]);
      FlagSumAtMostSize(facts, HighRiskExposure, eventIds, index[b]);
      if FlagsConsistent(facts, eventIds) {
        ConsistentGroupCounts(facts, eventIds, index[b]);
      }
    }
  }

  /** kpi_monthly_service has one row for every (month, service_line) pair
      that occurs in the facts, and no pair twice. */
  lemma ServiceRowPerPair(facts: seq<EncounterFact>, eventIds: set<EncounterId>, rows: seq<KpiServiceRow>)
    requires ServiceTable(facts, eventIds, rows)
    ensures forall a, b :: 0 <= a < b < |rows| ==> rows[a].month != rows[b].month || rows[a].service != rows[b].service
    ensures forall i :: 0 <= i < |facts| ==>
              exists a :: 0 <= a < |rows| && rows[a].month == FactMonth(facts[i]) && rows[a].service == facts[i].service
  {
    var keys := ServiceKeys(facts);
    DistinctKeys(keys);
    var index := Distinct(keys);
    forall a, b | 0 <= a < b < |rows|
      ensures rows[a].month != rows[b].month || rows[a].service != rows[b].service
    {
      assert index[a] != index[b];
    }
    forall i | 0 <= i < |facts|
      ensures exists a :: 0 <= a < |rows| && rows[a].month == FactMonth(facts[i]) && rows[a].service == facts[i].service
    {
      assert keys[i] in keys;
      assert keys[i] in index;
      var a :| 0 <= a < |index| && index[a] == keys[i];
      assert rows[a].month == FactMonth(facts[i]) && rows[a].service == facts[i].service;
    }
  }

  /** kpi_monthly_service: one row per (month, service_line) pair present
      in the facts, in group-index order, built column by column. */
  method BuildKpiMonthlyService(facts: seq<EncounterFact>, eventIds: set<EncounterId>) returns (rows: seq<KpiServiceRow>)
    ensures ServiceTable(facts, eventIds, rows)
    ensures TotalEncounters(rows) == |facts|
    ensures forall m :: MonthTotal(rows, m) == MonthCount(facts, m)
  {
    var keys := ServiceKeys(facts);
    var index := Distinct(keys);
    var total := GroupSum(keys, Ones(|facts|));
    var withEvent := GroupSum(keys, Column(facts, HasAnyEvent, eventIds));
    var reported := GroupSum(keys, Column(facts, ReportedAny, eventIds));
    var onTime := GroupSum(keys, Column(facts, OnTimeAny, eventIds));
    var adr := GroupSum(keys, Column(facts, AdrFlag, eventIds));
    var severe := GroupSum(keys, Column(facts, SevereFlag, eventIds));
    var highRisk := GroupSum(keys, Column(facts, HighRiskExposure, eventIds));

    rows := [];
    var a := 0;
    while a < |index|
      invariant 0 <= a <= |index|
      invariant |rows| == a
      invariant forall b :: 0 <= b < a ==> ServiceRowFor(facts, eventIds, index[b], rows[b])
    {
      var row := KpiServiceRow(
        index[a].month, index[a].service,
        total[a], withEvent[a], reported[a], onTime[a],
        Ratio(reported[a], withEvent[a]), Ratio(onTime[a], reported[a]),
        adr[a], severe[a], highRisk[a],
        Per1000(adr[a], total[a]), Per1000(severe[a], total[a]), Ratio(highRisk[a], total[a]));
      rows := rows + [row];
      a := a + 1;
    }
    ServiceTableProperties(facts, eventIds, rows);
  }

  /** The rows of kpi_monthly_overall: row a is month a of the month index,
      with that month's encounter count and ADRs per 1000 encounters. */
  ghost predicate OverallTable(facts: seq<EncounterFact>, rows: seq<KpiOverallRow>)
  {
    var keys := MonthKeys(facts);
    |rows| == |Distinct(keys)| &&
    forall a :: 0 <= a < |rows| ==>
      rows[a].month == Distinct(keys)[a] &&
      rows[a].totalEncounters == SumFor(keys, Ones(|facts|), rows[a].month) &&
      rows[a].adrPer1000 == Per1000(SumFor(keys, Column(facts, AdrFlag, {}), rows[a].month), rows[a].totalEncounters)
  }

  /** What kpi_monthly_overall promises: every month row counts exactly the
      facts admitted in that month, and its ADR rate is in range. */
  lemma OverallTableProperties(facts: seq<EncounterFact>, rows: seq<KpiOverallRow>)
    requires OverallTable(facts, rows)
    ensures forall a :: 0 <= a < |rows| ==>
              rows[a].totalEncounters == MonthCount(facts, rows[a].month) &&
              rows[a].totalEncounters >= 1 && 0.0 <= rows[a].adrPer1000 <= 1000.0
  {
    var keys := MonthKeys(facts);
    forall b | 0 <= b < |rows|
      ensures rows[b].totalEncounters == MonthCount(facts, rows[b].month)
      ensures rows[b].totalEncounters >= 1
      ensures SumFor(keys, Column(facts, AdrFlag, {}), rows[b].month) <= rows[b].totalEncounters
    {
      MonthCountByMonthKeys(facts, rows[b].month);
      GroupIsNonEmpty(keys, b);
      SumForMonotone(keys, Column(facts, AdrFlag, {}), Ones(|facts|), rows[b].month);
    }
  }

  /** kpi_monthly_overall has one row for every month that occurs in the
      facts, and no month twice. */
  lemma OverallRowPerMonth(facts: seq<EncounterFact>, rows: seq<KpiOverallRow>)
    requires OverallTable(facts, rows)
    ensures forall a, b :: 0 <= a < b < |rows| ==> rows[a].month != rows[b].month
    ensures forall i :: 0 <= i < |facts| ==> exists a :: 0 <= a < |rows| && rows[a].month == FactMonth(facts[i])
  {
    var keys := MonthKeys(facts);
    DistinctKeys(keys);
    var index := Distinct(keys);
    forall i | 0 <= i < |facts|
      ensures exists a :: 0 <= a < |rows| && rows[a].month == FactMonth(facts[i])
    {
      assert keys[i] in keys;
      assert keys[i] in index;
      var a :| 0 <= a < |index| && index[a] == keys[i];
      assert rows[a].month == FactMonth(facts[i]);
    }
  }

  /** kpi_monthly_overall: one row per month present in the facts. */
  method BuildKpiMonthlyOverall(facts: seq<EncounterFact>) returns (rows: seq<KpiOverallRow>)
    ensures OverallTable(facts, rows)
    ensures forall a :: 0 <= a < |rows| ==> rows[a].totalEncounters == MonthCount(facts, rows[a].month)
  {
    var keys := MonthKeys(facts);
    var index := Distinct(keys);
    var total := GroupSum(keys, Ones(|facts|));
    var adr := GroupSum(keys, Column(facts, AdrFlag, {}));

    rows := [];
    var a := 0;
    while a < |index|
      invariant 0 <= a <= |index|
      invariant |rows| == a
      invariant forall b :: 0 <= b < a ==>
                  rows[b].month == index[b] && rows[b].totalEncounters == total[b] &&
                  rows[b].adrPer1000 == Per1000(adr[b], total[b])
    {
      rows := rows + [KpiOverallRow(index[a], total[a], Per1000(adr[a], total[a]))];
      a := a + 1;
    }
    OverallTableProperties(facts, rows);
  }

  /** The number of rows of service group `key` in which column col holds. */
  function GroupFlagCount(facts: seq<EncounterFact>, col: FactColumn, eventIds: set<EncounterId>, key: ServiceKey): nat
  {
    SumFor(ServiceKeys(facts), Column(facts, col, eventIds), key)
  }

  /** A group's count over two stretches of facts is the sum of its
      counts over each stretch. */
  lemma GroupFlagCountAppend(a: seq<EncounterFact>, b: seq<EncounterFact>, col: FactColumn,
                             eventIds: set<EncounterId>, key: ServiceKey)
    ensures GroupFlagCount(a + b, col, eventIds, key) ==
            GroupFlagCount(a, col, eventIds, key) + GroupFlagCount(b, col, eventIds, key)
  {
    var ka, kb := ServiceKeys(a), ServiceKeys(b);
    var ca, cb := Column(a, col, eventIds), Column(b, col, eventIds);
    assert ServiceKeys(a + b) == ka + kb;
    assert Column(a + b, col, eventIds) == ca + cb;
    SumForSplit(ka, ca, kb, cb, key);
  }

  /** A group's compliance rate pools its counts: when the group's rows
      come in two parts a and b, the rate is the reported encounters of
      both parts over the encounters with an event of both parts. */
  lemma MergedComplianceRate(a: seq<EncounterFact>, b: seq<EncounterFact>, eventIds: set<EncounterId>,
                             key: ServiceKey, r: KpiServiceRow)
    requires ServiceRowFor(a + b, eventIds, key, r)
    ensures r.complianceRate ==
            Ratio(GroupFlagCount(a, ReportedAny, eventIds, key) + GroupFlagCount(b, ReportedAny, eventIds, key),
                  GroupFlagCount(a, HasAnyEvent, eventIds, key) + GroupFlagCount(b, HasAnyEvent, eventIds, key))
  {
    GroupFlagCountAppend(a, b, ReportedAny, eventIds, key);
    GroupFlagCountAppend(a, b, HasAnyEvent, eventIds, key);
  }

  /** Rates are not averages of rates: a part with 5 of 10 encounters
      reported and a part with no encounter with an event give the group a
      compliance rate of 1/2, not the mean 1/4 of the parts' rates 1/2 and 0. */
  lemma MergedComplianceExample(a: seq<EncounterFact>, b: seq<EncounterFact>, eventIds: set<EncounterId>,
                                key: ServiceKey, r: KpiServiceRow)
    requires ServiceRowFor(a + b, eventIds, key, r)
    requires GroupFlagCount(a, ReportedAny, eventIds, key) == 5 && GroupFlagCount(a, HasAnyEvent, eventIds, key) == 10
    requires GroupFlagCount(b, ReportedAny, eventIds, key) == 0 && GroupFlagCount(b, HasAnyEvent, eventIds, key) == 0
    ensures r.complianceRate == 0.5
    ensures r.complianceRate != (Ratio(5, 10) + Ratio(0, 0)) / 2.0
  {
    MergedComplianceRate(a, b, eventIds, key, r);
  }
}
