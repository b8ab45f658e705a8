/** Raw and derived row types of the clinical-quality pipeline.
    The enumerations follow the business lists of src/config.py; dates are
    whole-day ordinals counted from 1970-01-01 (day 0). */
module Domain {

  datatype Option<T> = None | Some(value: T)

  datatype ServiceLine = Medicine | Surgery | EmergencyDept | ICU | OB | Pediatrics | Oncology

  datatype AdmissionType = ED | Inpatient | Outpatient

  datatype MedClass = Opioid | Antibiotic | Anticoagulant | Insulin | Sedative | Statin | Bronchodilator

  datatype EventType = ADR | MedError | NearMiss | Allergy | Interaction | Omission

  datatype Severity = Mild | Moderate | Severe

  type EncounterId = string
  type PatientId = string

  /** Days since 1970-01-01; negative days lie before it. */
  type Day = int

  /** A calendar month, the value of strftime('%Y-%m') on a date. */
  datatype Month = Month(year: int, month: int)

  datatype Encounter = Encounter(
    id: EncounterId,
    patient: PatientId,
    service: ServiceLine,
    admission: AdmissionType,
    admit: Day,
    discharge: Day)

  datatype MedOrder = MedOrder(
    id: string,
    encounter: EncounterId,
    medClass: MedClass,
    highRisk: bool,
    orderDate: Day)

  datatype SafetyEvent = SafetyEvent(
    id: string,
    encounter: EncounterId,
    eventType: EventType,
    severity: Severity,
    reportDelay: int,
    reported: bool,
    eventDate: Day)

  /** One row of encounter_facts: the encounter's own columns followed by
      the derived ones. */
  datatype EncounterFact = EncounterFact(
    id: EncounterId,
    patient: PatientId,
    service: ServiceLine,
    admission: AdmissionType,
    admit: Day,
    discharge: Day,
    medOrdersCount: nat,
    highRiskExposure: bool,
    adr: bool,
    medError: bool,
    severe: bool,
    reportedAny: bool,
    onTimeAny: bool,
    lateAny: bool,
    lengthOfStay: int,
    readmission30: bool,
    edRevisit7: bool)

  /** The calendar month of a day ordinal (proleptic Gregorian calendar),
      by the civil-from-days conversion on floor division. */
  function MonthOf(d: Day): Month
  {
    var z := d + 719468;
    var era := z / 146097;
    var doe := z - era * 146097;
    var yoe := (doe - doe / 1460 + doe / 36524 - doe / 146096) / 365;
    var doy := doe - (365 * yoe + yoe / 4 - yoe / 100);
    var mp := (5 * doy + 2) / 153;
    var month := if mp < 10 then mp + 3 else mp - 9;
    Month(yoe + era * 400 + (if month <= 2 then 1 else 0), month)
  }

  /** The month a fact row is reported under: the month of its admit date. */
  function FactMonth(f: EncounterFact): Month
  {
    MonthOf(f.admit)
  }

  /** 2024-01-01, the first day of the synthetic history, is day 19723. */
  lemma MonthOfFirstDay()
    ensures MonthOf(19723) == Month(2024, 1)
  {
  }

  /** 2024-02-29: the leap day stays in February. */
  lemma MonthOfLeapDay()
    ensures MonthOf(19782) == Month(2024, 2)
  {
  }

  /** 2024-03-01, the day after the leap day. */
  lemma MonthOfDayAfterLeapDay()
    ensures MonthOf(19783) == Month(2024, 3)
  {
  }
}
