# Clinical-quality fact and KPI pipeline in Dafny

This project models the derivation pipeline of a clinical-quality reporting system. It starts from three raw tables: encounters, medication orders and safety events. From them it builds `encounter_facts`, with one row per encounter carrying:

- the medication aggregates;
- six safety-event flags;
- the length of stay;
- a 30-day readmission flag and a 7-day ED-revisit flag, both decided by the patient's next encounter.

From the facts and the raw safety events it then derives six tables:

- `kpi_monthly_service`
- `kpi_monthly_overall`
- `event_metrics_monthly`
- `reporting_delay_bins`
- `audit_view`
- `data_quality_report`

The source is `src/build_facts_kpis.py` (`build_encounter_facts`, `build_kpis`, `run_pipeline`). Its enumerations come from `src/config.py`.

Modules, one per file:

- `Domain` (`domain.dfy`): the record types and the enumerations. Dates are whole-day ordinals counted from 1970-01-01. `MonthOf` is the civil-from-days conversion that stands for `strftime('%Y-%m')`.
- `PatientWindow` (`window.dfy`): the in-place sort by `(patient_id, admit_date)`, and `groupby('patient_id').shift(-1)`. It proves that the shifted row is the patient's next encounter by admit date, or that there is none.
- `FactBuilder` (`facts.dfy`): `build_encounter_facts`, as methods over the three raw tables. It includes the order aggregation, the event-id sets and the column-by-column frame.
- `Tables` (`tables.dfy`): `groupby(...).sum()` and `groupby(...).size()` over a first-occurrence group index, with the lemmas that group sums add up.
- `Kpis` (`kpis.dfy`): `kpi_monthly_service` and `kpi_monthly_overall`. Rates are exact `real` ratios, and a zero denominator gives 0.
- `EventMetrics` (`event_metrics.dfy`): the left merge of events with the fact columns, the `pd.cut` delay bins and the two count tables.
- `AuditQuality` (`audit_quality.dfy`): the audit filter and the two data-quality checks.
- `Pipeline` (`pipeline.dfy`): `build_kpis` and `run_pipeline`, with the properties that span both stages.

Three points where the tables' behaviour is easy to misread:

- `encounter_facts` has no has-any-event column. `has_any_event` exists only inside `build_kpis`, which adds it to its copy of the facts, so it also appears in `audit_view`. `AuditQuality.AuditRow` carries it there.
- The last delay bin is labelled "31+", but its right edge is 999, so a delay above 999 gets no bin and is not counted. `EventMetrics.DelayBinOf` returns `None` for it.
- An event's month in `event_metrics_monthly` and `reporting_delay_bins` is the month of its encounter's admit date, taken from the facts. It is not the month of the event date.

## Model

| member | source | states |
|---|---|---|
| Domain.MonthOfFirstDay | src/build_facts_kpis.py:110 | day 19723 (2024-01-01) falls in month 2024-01 |
| Domain.MonthOfLeapDay | src/build_facts_kpis.py:110 | 2024-02-29 stays in February |
| Domain.MonthOfDayAfterLeapDay | src/build_facts_kpis.py:110 | the day after the leap day is in 2024-03 |
| PatientWindow.StrLessTotal | src/build_facts_kpis.py:69 | the patient-id order (by code point) is total on distinct ids, so the sort key orders every pair of rows |
| PatientWindow.SortByPatientAdmit | src/build_facts_kpis.py:69 | the sorted frame's index is a permutation of the input rows, ordered by patient id, then admit date, then input position (stable ties) |
| PatientWindow.SamePatientSortOrder | src/build_facts_kpis.py:69 | two rows of one patient appear in admission order after the sort |
| PatientWindow.ShiftFindsNext | src/build_facts_kpis.py:72-73 | after the sort, the following row of the same patient is that patient's next encounter by admit date; no such row means the row is the patient's last encounter |
| PatientWindow.ShiftWithinPatient | src/build_facts_kpis.py:72-73 | the shifted column holds, per sorted row, its patient's next encounter, or none exactly for the patient's last encounter |
| PatientWindow.NextIsUnique | src/build_facts_kpis.py:72-73 | an encounter has at most one next encounter |
| PatientWindow.NextExcludesLast | src/build_facts_kpis.py:72-73 | an encounter with a next encounter is not its patient's last |
| FactBuilder.HighRiskOrderPrefix | src/build_facts_kpis.py:24 | one more order sets the high-risk maximum of its encounter when it is high-risk and leaves the others alone |
| FactBuilder.AggregateOrders | src/build_facts_kpis.py:21-24 | keyed by exactly the encounters that have orders: the order count and whether some order is high-risk |
| FactBuilder.EncountersWith | src/build_facts_kpis.py:28-48 | an id is in the set iff some event of that encounter meets the flag's condition; no events give the empty set |
| FactBuilder.DeriveBaseColumns | src/build_facts_kpis.py:51-66 | one row per encounter, in input order: its own columns, the order count (0 without orders), the high-risk flag, the six event flags and discharge minus admit |
| FactBuilder.BuildEncounterFacts | src/build_facts_kpis.py:6-100 | one fact row per encounter in sorted order; every column as derived; readmission and ED-revisit flags decided by the patient's next encounter and both off for the last; ED revisit implies readmission; on-time or late implies reported |
| FactBuilder.TimingFlagsNeedReport | src/build_facts_kpis.py:36-46 | an encounter flagged on time or late has a reported event |
| FactBuilder.OrderCountPositive | src/build_facts_kpis.py:21 | an encounter with an order has a positive order count |
| FactBuilder.NoEventsNoFlags | src/build_facts_kpis.py:27-63 | an encounter without safety events has all six event flags off |
| FactBuilder.OnTimeAndLateTogether | src/build_facts_kpis.py:36-46 | events reported after 3 and after 10 days make one encounter both on time and late |
| FactBuilder.EdRevisitIsReadmission | src/build_facts_kpis.py:80-87 | the ED-revisit condition implies the readmission condition |
| FactBuilder.LastEncounterNoWindowFlags | src/build_facts_kpis.py:72-87 | a patient's last encounter has both window flags off |
| FactBuilder.WindowFlagsFromNext | src/build_facts_kpis.py:77-87 | the window flags equal the 0..30-day readmission and 0..7-day ED-revisit conditions on the next encounter |
| FactBuilder.ReadmissionExample | src/build_facts_kpis.py:77-87 | discharge on day 10: readmitted iff the next admit is by day 40; a 5-day gap to an inpatient admission is no ED revisit, to an ED admission it is |
| FactBuilder.FactIdsAreEncounterIds | src/build_facts_kpis.py:51-90 | the fact table has exactly the encounter ids of the input |
| FactBuilder.FactIdsUnique | src/build_facts_kpis.py:51-90 | distinct encounter ids give distinct fact ids |
| Tables.DistinctKeys | src/build_facts_kpis.py:131 | the group index holds every key of the column, only those, and each once |
| Tables.DistinctFrom | src/build_facts_kpis.py:131 | every group of the index is the key of some row |
| Tables.SumForAbsent | src/build_facts_kpis.py:135-137 | a key no row has sums to 0 |
| Tables.SumForAtLeast | src/build_facts_kpis.py:135-137 | a group sum is at least each of its rows' values |
| Tables.SumForMonotone | src/build_facts_kpis.py:135-137 | group sums are monotone in the summed column |
| Tables.GroupedSumAppend | src/build_facts_kpis.py:131-137 | a new row adds its value to at most one group |
| Tables.GroupedSumsAddUp | src/build_facts_kpis.py:131-137 | the group sums over the index, restricted by any key predicate, add up to the column sum under it |
| Tables.SumBump | src/build_facts_kpis.py:135-137 | raising one group sum raises the total by the same amount |
| Tables.SumOfOnes | src/build_facts_kpis.py:134 | n ones sum to n |
| Tables.GroupIsNonEmpty | src/build_facts_kpis.py:134 | every group of the index has size at least 1 |
| Tables.CountAppend | src/build_facts_kpis.py:175 | a new row adds one to its own key's count only |
| Tables.GroupSum | src/build_facts_kpis.py:135-145 | groupby(keys)[col].sum(): one sum per index key, each the key's column sum, together the whole column's sum |
| Tables.CountBy | src/build_facts_kpis.py:175 | groupby(keys).size().reset_index(): one row per index key with its row count, every count at least 1, counts adding up to the row count |
| Kpis.Ratio | src/build_facts_kpis.py:139-152 | a zero denominator gives 0; otherwise ratio times denominator is the numerator; a numerator at most the denominator gives a value in [0, 1] |
| Kpis.Per1000 | src/build_facts_kpis.py:147-148 | per-1000 rate: 0 on an empty denominator, otherwise rate times denominator is 1000 times the count, in [0, 1000] when the count is at most the denominator |
| Kpis.FlagSumAtMostSize | src/build_facts_kpis.py:143-149 | a 0/1 column never sums above its group's size |
| Kpis.ConsistentGroupCounts | src/build_facts_kpis.py:135-140 | under consistent flags a group's reported count is at most its count with an event, and its on-time count at most its reported count |
| Kpis.MonthCountByServiceKeys | src/build_facts_kpis.py:131-134 | counting rows over the service keys whose month is m counts the facts of month m |
| Kpis.MonthCountByMonthKeys | src/build_facts_kpis.py:157-159 | the month group of m has the facts of month m |
| Kpis.SumWhereAll | src/build_facts_kpis.py:134 | counting every row counts the rows |
| Kpis.MonthTotalOverGroups | src/build_facts_kpis.py:131-134 | the month and grand totals of aligned service rows are grouped sums over the index |
| Kpis.ServiceTableProperties | src/build_facts_kpis.py:131-152 | every service row has total at least 1; totals add up to the fact count, month by month too; per-1000 rates in [0, 1000] and exposure rate in [0, 1]; under consistent flags reported at most with-event, on-time at most reported, both rates in [0, 1] |
| Kpis.ServiceRowPerPair | src/build_facts_kpis.py:131-134 | one service row for every (month, service line) pair of the facts and no pair twice |
| Kpis.BuildKpiMonthlyService | src/build_facts_kpis.py:131-153 | row a is group a: its seven sums of the matching columns and the rates recomputed from them; totals add up to the fact count, month by month too |
| Kpis.OverallTableProperties | src/build_facts_kpis.py:157-161 | each month row counts exactly the month's facts, at least 1, and its ADR rate is in [0, 1000] |
| Kpis.OverallRowPerMonth | src/build_facts_kpis.py:157-159 | one overall row for every month of the facts and no month twice |
| Kpis.BuildKpiMonthlyOverall | src/build_facts_kpis.py:157-163 | row a is month a: its size, equal to the month's fact count, and ADRs per 1000 from the month's ADR sum |
| Tables.SumForSplit | src/build_facts_kpis.py:135-137 | a group's sum over two stretches of rows is the sum of its sums over each stretch |
| Kpis.GroupFlagCountAppend | src/build_facts_kpis.py:135-137 | a service group's flag count over two stretches of facts is the sum of the two counts |
| Kpis.MergedComplianceRate | src/build_facts_kpis.py:135-139 | when a group's facts come in two parts, its compliance rate is the pooled reported count over the pooled with-event count of both parts |
| Kpis.MergedComplianceExample | src/build_facts_kpis.py:135-139 | a part with 5 of 10 reported and a part with no event give the group the rate 1/2, not the mean 1/4 of the parts' rates |
| EventMetrics.BinIndex | src/build_facts_kpis.py:181-182 | the index of one of the six (lo, hi] intervals between the seven edges |
| EventMetrics.DelayBinOf | src/build_facts_kpis.py:181-183 | a delay has a bin iff -1 < delay <= 999, and then lies in that bin's right-closed interval |
| EventMetrics.DelayBinExact | src/build_facts_kpis.py:181-183 | a delay lands in bin b iff it lies in b's interval |
| EventMetrics.DelayBinEdges | src/build_facts_kpis.py:181-183 | 0 and 1 give "0-1", 2 gives "2-3", 7 gives "4-7", 8 gives "8-14", 30 gives "15-30", 31 and 999 give "31+", -1 and 1000 give none |
| EventMetrics.BinLabelsDistinct | src/build_facts_kpis.py:182 | the six labels are distinct |
| EventMetrics.Orphans | src/build_facts_kpis.py:206 | the events whose encounter id is not among the fact ids, and only those |
| EventMetrics.LinksWithIdEmpty | src/build_facts_kpis.py:174 | an event matches no fact row iff its id is not a fact id |
| EventMetrics.LinksWithIdUnique | src/build_facts_kpis.py:174 | with unique fact ids an event matches at most one fact row |
| EventMetrics.UnlinkedAppend | src/build_facts_kpis.py:174 | unmatched rows of two stretches of the merge add up |
| EventMetrics.UnlinkedAllLinked | src/build_facts_kpis.py:174 | the rows of an event with matches are all matched |
| EventMetrics.UnlinkedAreOrphans | src/build_facts_kpis.py:174-175 | the merge rows left without a fact, the ones the group-by drops, are exactly the orphan events, one row each |
| EventMetrics.JoinOneUnique | src/build_facts_kpis.py:174 | with unique fact ids the merge keeps one row per event |
| EventMetrics.LeftJoinUnique | src/build_facts_kpis.py:174 | with unique fact ids one more event adds exactly its own row to the merge |
| EventMetrics.GroupKeysAppend | src/build_facts_kpis.py:175 | a merged row adds its key to the group keys when it has a fact and a key |
| EventMetrics.GroupCountIsEventCount | src/build_facts_kpis.py:174-187 | with unique fact ids, each group's size is the number of events with a fact whose key is that group's |
| EventMetrics.MetricKeysCount | src/build_facts_kpis.py:174-175 | with unique fact ids, the counted metric rows plus the orphans number the events |
| EventMetrics.UnbinnedNotCounted | src/build_facts_kpis.py:183-187 | an event whose delay has no bin is counted in no delay group |
| EventMetrics.BuildEventMetrics | src/build_facts_kpis.py:174-176 | the size table of the merged rows' (month, service line, event type) keys; with unique fact ids each count is its events' number and all counts plus the orphans give the event count |
| EventMetrics.BuildDelayBins | src/build_facts_kpis.py:181-188 | the size table of the (month, service line, delay bin) keys; with unique fact ids each count is the number of events with a fact and that bin |
| AuditQuality.AuditView | src/build_facts_kpis.py:194-199 | exactly the fact rows meeting high-risk, ADR or error or severe, and late, with their month and has_any_event columns |
| AuditQuality.AuditViewAppend | src/build_facts_kpis.py:199 | the filter keeps fact order |
| AuditQuality.AuditNeedsEveryPart | src/build_facts_kpis.py:194-198 | a row is kept iff it meets the criteria; clearing any one of the three parts removes it |
| AuditQuality.NegativeLos | src/build_facts_kpis.py:210 | exactly the fact rows with negative length of stay |
| AuditQuality.NegativeLosAppend | src/build_facts_kpis.py:210 | the filter of two stretches of facts is the two filters one after the other, so order and repetitions are kept |
| AuditQuality.NegativeLosCount | src/build_facts_kpis.py:210-212 | each fact row with a negative stay occurs in the result as often as in the facts, and no other row occurs, so the published count is the number of such rows |
| AuditQuality.StatusOf | src/build_facts_kpis.py:207-211 | PASS iff the count is 0 |
| AuditQuality.NoOrphansIffLinked | src/build_facts_kpis.py:206-207 | no orphans iff every event's encounter is a fact id |
| AuditQuality.NoNegativeLosIffAllNonNegative | src/build_facts_kpis.py:210-211 | no negative-LOS rows iff every stay is non-negative |
| AuditQuality.BuildQualityReport | src/build_facts_kpis.py:204-214 | the report is QualityReport: two rows, "Safety Events Orphans" then "Negative LOS", with the offending row counts; PASS iff no event is orphaned, resp. no stay is negative |
| AuditQuality.OrphanInsertionFails | src/build_facts_kpis.py:206-207 | adding an event of an unknown encounter raises the orphan count by exactly 1 and makes the check FAIL |
| Pipeline.OverallMatchesService | src/build_facts_kpis.py:131-161 | each month's overall total equals the sum of that month's service totals |
| Pipeline.AuditRowsHaveEvents | src/build_facts_kpis.py:129-199 | under consistent flags every audit row has has_any_event set |
| Pipeline.BuildKpis | src/build_facts_kpis.py:102-217 | the six tables as specified by the modules above, the data-quality report row for row with its check names, statuses and counts, the service totals adding up to the fact count, and the overall totals matching the service rows |
| Pipeline.DerivedFlagsConsistent | src/build_facts_kpis.py:28-63 | derived facts are consistent with the events: reported implies a distinct event id, and on time or late implies reported |
| Pipeline.FactIdMembership | src/build_facts_kpis.py:51-90 | an id is a fact id iff it is an encounter id |
| Pipeline.LosCheckOverEncounters | src/build_facts_kpis.py:66 | no negative stay in the facts iff every encounter is discharged on or after admission |
| Pipeline.FactsFromOrder | src/build_facts_kpis.py:51-90 | a sorting permutation and rows whose base and next-encounter columns fit it make a fact table of the encounters |
| Pipeline.StagesAgree | src/build_facts_kpis.py:102-221 | given what each stage produces: service totals add up to the encounter count; compliance and timeliness rates in [0, 1]; every audit row has an event; the two checks pass iff every event's encounter exists, resp. no discharge precedes its admission; with distinct encounter ids the metric counts plus the orphans give the event count |
| Pipeline.RunPipeline | src/build_facts_kpis.py:219-221 | the facts are the encounters in (patient, admit) order with their base and next-encounter columns; the tables are the service, overall, metric and delay-bin tables, the audit view and the full data-quality report (names, statuses, counts) over those facts; one fact per encounter; service totals add up to the encounter count; compliance and timeliness rates in [0, 1]; every audit row has an event; the two checks pass iff every event's encounter exists, resp. no discharge precedes its admission; with distinct encounter ids the metric counts plus the orphans give the event count |

## Left out

- Reading and writing SQLite (`pd.read_sql`, `to_sql(if_exists="replace")`), closing connections and `print` logging are left out. The raw tables are parameters and the derived tables are results. Replacing a table is therefore atomic by construction.
- `build_kpis` reads `med_orders` but never uses it; the read is left out.
- Floating point is left out. Rates are exact `real` ratios, and NaN followed by `fillna(0)` becomes an explicit 0.
- Date parsing and `strftime` are left out. Dates are day ordinals, and `Domain.MonthOf` gives the proleptic Gregorian month. Flags are booleans where the source stores 0/1 integers.
- String values outside the `src/config.py` lists are left out. The enumerations are closed datatypes, so an unknown event type or severity cannot be represented.
- Same-day admissions of one patient: the source sorts only by `(patient_id, admit_date)`. The model fixes the tie-break to input order, which is what pandas' stable multi-column sort does.
- The row order of the group-by outputs is not modelled. pandas sorts the group keys; the model lists groups in order of first occurrence. The rows themselves, their keys and their values are the same.
- Zero-count rows that the categorical `delay_bin` column can add to `reporting_delay_bins` are left out. A (month, service line, bin) combination with no events has no row, and its count is 0 where absent.
- `Domain.EncounterFact` keeps all 17 columns of `encounter_facts`. The dropped temporary columns (`next_admit_date`, `next_admission_type`, `days_to_next`) are locals of `FactBuilder.BuildEncounterFacts`, and the conversion of the date columns back to dates is left out.
- The patients table, `src/generate_data.py`, the dashboard pages, `src/sqlite_io.py`, `src/quality_checks.py` and `verify_dod.py` are not part of this model.
- EventMetrics.BuildEventMetrics: per-group counts are tied to the events only when fact ids are unique. With duplicate fact ids the merge repeats an event once per matching fact; the model computes that, but states the count only as the group size of the merged rows.
- EventMetrics.BuildDelayBins: the same restriction to unique fact ids applies to its per-group counts.
