/** The business rules of the patient service
    (internal/service/patient_service.go): record validation, the list
    filter defaults, medical record numbers, the public view of a record,
    and the service operations over the store. */
module Service {
  import opened Domain
  import opened Text
  import opened PatientQuery
  import opened Repository

  const GenderCodes: set<string> := {"MALE", "FEMALE"}
  const ValidBloodTypes: set<string> := {"A+", "A-", "B+", "B-", "AB+", "AB-", "O+", "O-"}
  const AllowedSortFields: set<string> := {"created_at", "updated_at", "first_name", "last_name", "nik"}

  // ---------------------------------------------------------- validation

  /** The rules `validatePatient` checks, in the order it checks them. */
  datatype Rule = NikRule | NameRule | DobRequiredRule | DobNotFutureRule | GenderRule | PhoneRule | BloodTypeRule

  const RuleOrder: seq<Rule> :=
    [NikRule, NameRule, DobRequiredRule, DobNotFutureRule, GenderRule, PhoneRule, BloodTypeRule]

  /** Whether record `p` breaks `rule` at instant `now`, rule by rule. */
  predicate Breaks(p: Patient, now: Time, rule: Rule)
  {
    match rule
    case NikRule => p.NIK == "" || |p.NIK| != 16
    case NameRule => p.FirstName == ""
    case DobRequiredRule => p.DateOfBirth == ZeroTime
    case DobNotFutureRule => p.DateOfBirth > now
    case GenderRule => p.Gender !in GenderCodes
    case PhoneRule => p.Phone == ""
    case BloodTypeRule => p.BloodType != "" && p.BloodType !in ValidBloodTypes
  }

  /** The error reported for each rule. */
  function RuleError(rule: Rule): CustomError
  {
    match rule
    case NikRule => NewCustomError("INVALID_NIK", "NIK must be 16 characters")
    case NameRule => NewCustomError("INVALID_NAME", "First name is required")
    case DobRequiredRule => NewCustomError("INVALID_DOB", "Date of birth is required")
    case DobNotFutureRule => NewCustomError("INVALID_DOB", "Date of birth cannot be in the future")
    case GenderRule => NewCustomError("INVALID_GENDER", "Gender must be MALE or FEMALE")
    case PhoneRule => NewCustomError("INVALID_PHONE", "Phone number is required")
    case BloodTypeRule => NewCustomError("INVALID_BLOOD_TYPE", "Invalid blood type")
  }

  /** `validatePatient`, with the clock read as `now`. */
  function ValidatePatient(p: Patient, now: Time): (r: Option<CustomError>)
    ensures r.None? ==> forall rule :: !Breaks(p, now, rule)
  {
    if p.NIK == "" || |p.NIK| != 16 then Some(RuleError(NikRule))
    else if p.FirstName == "" then Some(RuleError(NameRule))
    else if p.DateOfBirth == ZeroTime then Some(RuleError(DobRequiredRule))
    else if p.DateOfBirth > now then Some(RuleError(DobNotFutureRule))
    else if p.Gender != "MALE" && p.Gender != "FEMALE" then Some(RuleError(GenderRule))
    else if p.Phone == "" then Some(RuleError(PhoneRule))
    else if p.BloodType != "" && p.BloodType !in ValidBloodTypes then Some(RuleError(BloodTypeRule))
    else None
  }

  /** A rejected record is rejected for the first rule it breaks, in the
      checking order. */
  lemma ValidationReportsFirstBroken(p: Patient, now: Time)
    requires ValidatePatient(p, now).Some?
    ensures exists k | 0 <= k < |RuleOrder| ::
      && Breaks(p, now, RuleOrder[k])
      && ValidatePatient(p, now).value == RuleError(RuleOrder[k])
      && forall j | 0 <= j < k :: !Breaks(p, now, RuleOrder[j])
  {
    var k :=
      if Breaks(p, now, NikRule) then 0
      else if Breaks(p, now, NameRule) then 1
      else if Breaks(p, now, DobRequiredRule) then 2
      else if Breaks(p, now, DobNotFutureRule) then 3
      else if Breaks(p, now, GenderRule) then 4
      else if Breaks(p, now, PhoneRule) then 5
      else 6;
    assert Breaks(p, now, RuleOrder[k]);
    assert forall j | 0 <= j < k :: !Breaks(p, now, RuleOrder[j]);
  }

  /** A record is accepted exactly when it breaks none of the rules. */
  lemma ValidationAcceptsExactly(p: Patient, now: Time)
    ensures ValidatePatient(p, now).None? <==> forall rule :: !Breaks(p, now, rule)
  {
    if ValidatePatient(p, now).Some? {
      ValidationReportsFirstBroken(p, now);
    }
  }

  /** Validation only reads the rule fields: the id, the medical record
      number, the audit columns and the free-text fields do not matter. */
  lemma ValidationReadsRuleFieldsOnly(p: Patient, q: Patient, now: Time)
    requires p.NIK == q.NIK && p.FirstName == q.FirstName && p.DateOfBirth == q.DateOfBirth
    requires p.Gender == q.Gender && p.Phone == q.Phone && p.BloodType == q.BloodType
    ensures ValidatePatient(p, now) == ValidatePatient(q, now)
  {
  }

  // ------------------------------------------------------- list defaults

  /** The filter `ListPatients` hands to the store. */
  function Normalized(f: PatientFilter): (g: PatientFilter)
    ensures g.Search == f.Search && g.City == f.City && g.Province == f.Province
    ensures g.IsActive == f.IsActive
    ensures g.Page >= 1 && (f.Page >= 1 ==> g.Page == f.Page)
    ensures f.Page <= 0 ==> g.Page == 1
    ensures 1 <= g.Limit <= 100
    ensures 1 <= f.Limit <= 100 ==> g.Limit == f.Limit
    ensures f.Limit <= 0 ==> g.Limit == 10
    ensures f.Limit > 100 ==> g.Limit == 100
    ensures g.Sort in AllowedSortFields && (f.Sort in AllowedSortFields ==> g.Sort == f.Sort)
    ensures f.Sort !in AllowedSortFields ==> g.Sort == "created_at"
    ensures g.Order == "ASC" || g.Order == "DESC"
    ensures g.Order == "ASC" <==> Upper(f.Order) == "ASC"
  {
    f.(
      Page := if f.Page <= 0 then 1 else f.Page,
      Limit := if f.Limit <= 0 then 10 else if f.Limit > 100 then 100 else f.Limit,
      Sort := if f.Sort in AllowedSortFields then f.Sort else "created_at",
      Order := if Upper(f.Order) == "ASC" then "ASC" else "DESC")
  }

  /** Normalising a normalised filter changes nothing. */
  lemma NormalizeIdempotent(f: PatientFilter)
    ensures Normalized(Normalized(f)) == Normalized(f)
  {
    var g := Normalized(f);
    assert Upper("ASC") == "ASC";
    assert Upper("DESC") == "DESC";
  }

  /** The allow-list does its job: with a normalised filter the store's
      ORDER BY and page window are always well formed, so listing never
      fails on them. */
  lemma NormalizedListNeverFails(rows: Table, ids: seq<string>, f: PatientFilter)
    ensures ListSpec(rows, ids, Normalized(f)).Ok?
  {
    var g := Normalized(f);
    assert Upper("ASC") == "ASC";
    assert Upper("DESC") == "DESC";
    assert ColumnNamed(g.Sort).Some?;
  }

  // ------------------------------------------------ medical record numbers

  /** The clock reading used for a medical record number: the calendar
      date and the nanoseconds since the Unix epoch. */
  datatype Clock = Clock(Year: int, Month: int, Day: int, UnixNano: int)

  predicate ClockValid(c: Clock)
  {
    0 <= c.Year <= 9999 && 1 <= c.Month <= 12 && 1 <= c.Day <= 31 && c.UnixNano >= 0
  }

  /** `generateMedicalRecordNo`: "RM-", the date as YYYYMMDD, "-", and the
      nanosecond count modulo 100000 as five zero-padded digits. */
  function GenerateMedicalRecordNo(c: Clock): (r: string)
    requires ClockValid(c)
    ensures |r| == 17 && r[..3] == "RM-" && r[11] == '-'
  {
    PadDecimalFacts(c.Year, 4);
    PadDecimalFacts(c.Month, 2);
    PadDecimalFacts(c.Day, 2);
    PadDecimalFacts(c.UnixNano % 100000, 5);
    RecordNoLayout(PadDecimal(c.Year, 4), PadDecimal(c.Month, 2), PadDecimal(c.Day, 2),
                   PadDecimal(c.UnixNano % 100000, 5));
    "RM-" + PadDecimal(c.Year, 4) + PadDecimal(c.Month, 2) + PadDecimal(c.Day, 2)
      + "-" + PadDecimal(c.UnixNano % 100000, 5)
  }

  /** The generated number has the documented shape RM-YYYYMMDD-XXXXX and
      its digit groups read back as the date and the nanosecond suffix. */
  lemma MedicalRecordNoFormat(c: Clock)
    requires ClockValid(c)
    ensures var r := GenerateMedicalRecordNo(c);
      && |r| == 17
      && r[..3] == "RM-" && r[11] == '-'
      && (forall i | 3 <= i < 11 || 12 <= i < 17 :: IsDigit(r[i]))
      && DecimalValue(r[3..7]) == c.Year
      && DecimalValue(r[7..9]) == c.Month
      && DecimalValue(r[9..11]) == c.Day
      && DecimalValue(r[12..17]) == c.UnixNano % 100000
  {
    var year, month, day := PadDecimal(c.Year, 4), PadDecimal(c.Month, 2), PadDecimal(c.Day, 2);
    var suffix := PadDecimal(c.UnixNano % 100000, 5);
    PadDecimalFacts(c.Year, 4);
    PadDecimalFacts(c.Month, 2);
    PadDecimalFacts(c.Day, 2);
    PadDecimalFacts(c.UnixNano % 100000, 5);
    RecordNoLayout(year, month, day, suffix);
    var r := GenerateMedicalRecordNo(c);
    forall i | 3 <= i < 11 || 12 <= i < 17 ensures IsDigit(r[i]) {
      if i < 7 {
        assert r[i] == year[i - 3];
      } else if i < 9 {
        assert r[i] == month[i - 7];
      } else if i < 11 {
        assert r[i] == day[i - 9];
      } else {
        assert r[i] == suffix[i - 12];
      }
    }
  }

  /** Where the parts of a medical record number sit. */
  lemma RecordNoLayout(year: string, month: string, day: string, suffix: string)
    requires |year| == 4 && |month| == 2 && |day| == 2 && |suffix| == 5
    ensures var r := "RM-" + year + month + day + "-" + suffix;
      && |r| == 17 && r[..3] == "RM-" && r[11] == '-'
      && r[3..7] == year && r[7..9] == month && r[9..11] == day && r[12..17] == suffix
  {
  }

  /** Two clock readings give the same number exactly when they fall on
      the same date with the same nanosecond suffix. */
  lemma MedicalRecordNoCollision(c: Clock, d: Clock)
    requires ClockValid(c) && ClockValid(d)
    ensures GenerateMedicalRecordNo(c) == GenerateMedicalRecordNo(d) <==>
      c.Year == d.Year && c.Month == d.Month && c.Day == d.Day
      && c.UnixNano % 100000 == d.UnixNano % 100000
  {
    MedicalRecordNoFormat(c);
    MedicalRecordNoFormat(d);
  }

  // --------------------------------------------------------- public view

  /** The five fields a public view discloses. */
  function PublicPart(p: Patient): (string, string, string, string, string)
  {
    (p.ID, p.MedicalRecordNo, p.FirstName, p.LastName, p.Gender)
  }

  /** The record `GetPatientPublicInfo` returns: the public fields of `p`,
      every other field at its zero value. */
  function PublicInfo(p: Patient): (r: Patient)
    ensures PublicPart(r) == PublicPart(p)
    ensures r.(ID := "", MedicalRecordNo := "", FirstName := "", LastName := "", Gender := "") == ZeroPatient
  {
    ZeroPatient.(ID := p.ID, MedicalRecordNo := p.MedicalRecordNo,
                 FirstName := p.FirstName, LastName := p.LastName, Gender := p.Gender)
  }

  /** Nothing sensitive leaks: records that agree on the public fields have
      the same public view, whatever their NIK, birth date, contact,
      insurance or medical fields. */
  lemma PublicInfoHidesTheRest(p: Patient, q: Patient)
    requires PublicPart(p) == PublicPart(q)
    ensures PublicInfo(p) == PublicInfo(q)
  {
  }

  lemma PublicInfoIdempotent(p: Patient)
    ensures PublicInfo(PublicInfo(p)) == PublicInfo(p)
  {
  }

  // ------------------------------------------------------------ service

  /** The record `CreatePatient` hands to the store: a medical record
      number is generated when none is given; IsActive is left as given. */
  function Prepared(p: Patient, clock: Clock): (r: Patient)
    requires ClockValid(clock)
    ensures r.MedicalRecordNo != ""
    ensures p.MedicalRecordNo != "" ==> r == p
    ensures p.MedicalRecordNo == "" ==> r.MedicalRecordNo == GenerateMedicalRecordNo(clock)
    ensures r.(MedicalRecordNo := p.MedicalRecordNo) == p
  {
    if p.MedicalRecordNo == "" then p.(MedicalRecordNo := GenerateMedicalRecordNo(clock)) else p
  }

  /** The row `CreatePatient` inserts. */
  function CreatedRow(p: Patient, clock: Clock, newId: string, now: Time): (r: Patient)
    requires ClockValid(clock)
    ensures r.ID == newId && r.CreatedAt == now && r.UpdatedAt == now
    ensures r.MedicalRecordNo == Prepared(p, clock).MedicalRecordNo != ""
    ensures r.IsActive == p.IsActive
    ensures r.(ID := p.ID, MedicalRecordNo := p.MedicalRecordNo, CreatedAt := p.CreatedAt, UpdatedAt := p.UpdatedAt) == p
  {
    Prepared(p, clock).(ID := newId, CreatedAt := now, UpdatedAt := now)
  }

  /** Another active row already holds the NIK of `p`. */
  predicate NikTakenByOther(rows: Table, p: Patient)
  {
    exists id | id in rows :: id != p.ID && rows[id].IsActive && rows[id].NIK == p.NIK
  }

  /** The NIK pre-check of `CreatePatient` sees active rows only, while the
      UNIQUE constraint covers every row: a NIK held only by a deleted
      patient passes the pre-check and is then refused by the insert. */
  lemma NikPreCheckMissesDeletedRows(rows: Table, deleted: string, row: Patient)
    requires NaturalKeysUnique(rows)
    requires deleted in rows && !rows[deleted].IsActive && rows[deleted].NIK == row.NIK
    ensures !HasActive(rows, NikKey, row.NIK)
    ensures InsertConflict(rows, row).Some?
  {
  }

  /** An update that keeps the row's own medical record number never
      collides on that column, and collides on nothing when no other row
      holds its NIK. */
  lemma KeptRecordNoConflict(rows: Table, p: Patient, now: Time)
    requires NaturalKeysUnique(rows) && p.ID in rows
    ensures var stamped := p.(MedicalRecordNo := rows[p.ID].MedicalRecordNo, UpdatedAt := now);
      && UpdateConflict(rows, stamped) != Some(UniqueViolation("medical_record_no"))
      && ((forall id | id in rows && id != p.ID :: rows[id].NIK != p.NIK) ==> UpdateConflict(rows, stamped).None?)
  {
    var stamped := p.(MedicalRecordNo := rows[p.ID].MedicalRecordNo, UpdatedAt := now);
    assert stamped.ID == p.ID && stamped.NIK == p.NIK;
    forall id | id in rows && id != p.ID
      ensures rows[id].MedicalRecordNo != stamped.MedicalRecordNo
    {
    }
  }

  // ------------------------------------------------ NIK lookup failures

  /** How a NIK lookup at the database can end: a row found, no row, or a
      failed query (a lost connection, a scan error). */
  datatype NikLookup = NikFound(row: Patient) | NikNoRows | NikFailed(reason: string)

  /** The record and the error `GetByNIK` returns side by side. Only "no
      row" returns no record: a failed query returns the empty record that
      was being scanned into, together with the error. */
  function LookupReturn(l: NikLookup): (r: (Option<Patient>, Option<Error>))
    ensures r.0.None? <==> l.NikNoRows?
    ensures r.1.None? <==> l.NikFound?
    ensures l.NikFound? ==> r.0 == Some(l.row)
    ensures l.NikFailed? ==> r.0 == Some(ZeroPatient)
  {
    match l
    case NikFound(row) => (Some(row), None)
    case NikNoRows => (None, Some(PatientNotFound))
    case NikFailed(reason) => (Some(ZeroPatient), Some(QueryFailed(reason)))
  }

  /** The pre-check of `CreatePatient` as written: the error is dropped and
      any returned record reads as a patient holding the NIK. */
  function CreatePreCheckAsWritten(l: NikLookup): (r: Option<Error>)
    ensures r.None? <==> l.NikNoRows?
    ensures r.Some? ==> r.value == Custom(PatientExists)
  {
    if LookupReturn(l).0.Some? then Some(Custom(PatientExists)) else None
  }

  /** The NIK check of `UpdatePatient` as written: the error is dropped and
      any returned record with another id reads as another holder. */
  function UpdateNikCheckAsWritten(l: NikLookup, id: string): (r: Option<Error>)
    ensures id != "" ==> (r.None? <==> l.NikNoRows? || (l.NikFound? && l.row.ID == id))
    ensures r.Some? ==> r.value == Custom(NikExists)
  {
    var found := LookupReturn(l).0;
    if found.Some? && found.value.ID != id then Some(Custom(NikExists)) else None
  }

  /** A failed lookup is reported as PATIENT_EXISTS by the create and as
      NIK_EXISTS by the update of any patient, although no row was seen. */
  lemma FailedLookupReadsAsTaken(reason: string, id: string)
    requires id != ""
    ensures CreatePreCheckAsWritten(NikFailed(reason)) == Some(Custom(PatientExists))
    ensures UpdateNikCheckAsWritten(NikFailed(reason), id) == Some(Custom(NikExists))
  {
  }

  /** The create pre-check as intended: a failed lookup is a failure, not
      a holder of the NIK. */
  function CreatePreCheck(l: NikLookup): (r: Option<Error>)
    ensures r.None? <==> l.NikNoRows?
    ensures l.NikFound? ==> r == Some(Custom(PatientExists))
    ensures l.NikFailed? ==> r == Some(QueryFailed(l.reason))
  {
    var (found, err) := LookupReturn(l);
    if err.Some? && err.value != PatientNotFound then err
    else if found.Some? then Some(Custom(PatientExists))
    else None
  }

  /** The update NIK check as intended. */
  function UpdateNikCheck(l: NikLookup, id: string): (r: Option<Error>)
    ensures r.None? <==> l.NikNoRows? || (l.NikFound? && l.row.ID == id)
    ensures l.NikFound? && l.row.ID != id ==> r == Some(Custom(NikExists))
    ensures l.NikFailed? ==> r == Some(QueryFailed(l.reason))
  {
    var (found, err) := LookupReturn(l);
    if err.Some? && err.value != PatientNotFound then err
    else if found.Some? && found.value.ID != id then Some(Custom(NikExists))
    else None
  }

  /** When the lookup does not fail the intended checks answer as the
      written ones; the store of this model never fails a lookup, so
      `PatientService` follows both. */
  lemma PreChecksAgreeWithoutFailure(l: NikLookup, id: string)
    requires !l.NikFailed? && id != ""
    ensures CreatePreCheck(l) == CreatePreCheckAsWritten(l)
    ensures UpdateNikCheck(l, id) == UpdateNikCheckAsWritten(l, id)
  {
  }

  const PatientExists: CustomError := NewCustomError("PATIENT_EXISTS", "Patient with this NIK already exists")
  const NikExists: CustomError := NewCustomError("NIK_EXISTS", "NIK already used by another patient")

  class PatientService {
    const repo: PatientStore

    ghost predicate Valid()
      reads this, repo
    {
      repo.Valid()
    }

    constructor (repo: PatientStore)
      requires repo.Valid()
      ensures this.repo == repo && Valid()
    {
      this.repo := repo;
    }

    /** `CreatePatient`: validate, refuse a NIK an active patient holds,
        fill in the medical record number, insert, and read the row back by
        id. Reading back finds only active rows. */
    method CreatePatient(p: Patient, now: Time, clock: Clock, newId: string) returns (r: Result<Patient>)
      requires Valid() && ClockValid(clock)
      modifies repo
      ensures Valid()
      ensures ValidatePatient(p, now).Some? ==>
        r == Err(Custom(ValidatePatient(p, now).value))
      ensures ValidatePatient(p, now).None? && HasActive(old(repo.rows), NikKey, p.NIK) ==>
        r == Err(Custom(PatientExists))
      ensures ValidatePatient(p, now).None? && !HasActive(old(repo.rows), NikKey, p.NIK) ==>
        var row := CreatedRow(p, clock, newId, now);
        var conflict := InsertConflict(old(repo.rows), row);
        && (conflict.Some? ==> r == Err(Wrapped("failed to create patient", conflict.value)))
        && (conflict.None? ==>
              repo.rows == old(repo.rows)[newId := row] && repo.ids == old(repo.ids) + [newId]
              && r == (if row.IsActive then Ok(row) else Err(PatientNotFound)))
      ensures r.Err? && r.error != PatientNotFound ==>
        repo.rows == old(repo.rows) && repo.ids == old(repo.ids)
    {
      var invalid := ValidatePatient(p, now);
      if invalid.Some? {
        return Err(Custom(invalid.value));
      }
      var existing := repo.GetByNIK(p.NIK);
      if existing.Ok? {
        return Err(Custom(PatientExists));
      }
      var patient := p;
      if patient.MedicalRecordNo == "" {
        patient := patient.(MedicalRecordNo := GenerateMedicalRecordNo(clock));
      }
      if patient.IsActive {
        patient := patient.(IsActive := true);
      }
      var stamped, err := repo.Create(patient, newId, now);
      if err.Some? {
        return Err(Wrapped("failed to create patient", err.value));
      }
      r := repo.GetByID(stamped.ID);
    }

    /** `GetPatient`. */
    method GetPatient(id: string) returns (r: Result<Patient>)
      ensures id == "" ==> r == Err(InvalidInput)
      ensures id != "" ==> (r.Ok? <==> ActiveId(repo.rows, id))
      ensures id != "" && r.Ok? ==> r.value == repo.rows[id]
      ensures id != "" && r.Err? ==> r.error == PatientNotFound
    {
      if id == "" {
        return Err(InvalidInput);
      }
      r := repo.GetByID(id);
    }

    /** `GetPatientByNIK`. */
    method GetPatientByNIK(nik: string) returns (r: Result<Patient>)
      requires Valid()
      ensures nik == "" ==> r == Err(InvalidInput)
      ensures nik != "" ==> (r.Ok? <==> HasActive(repo.rows, NikKey, nik))
      ensures nik != "" && r.Ok? ==>
        r.value.ID in repo.rows && repo.rows[r.value.ID] == r.value && r.value.IsActive && r.value.NIK == nik
      ensures nik != "" && r.Err? ==> r.error == PatientNotFound
    {
      if nik == "" {
        return Err(InvalidInput);
      }
      r := repo.GetByNIK(nik);
    }

    /** `UpdatePatient`: the id must name an active patient; the record is
        validated; a changed NIK must not be held by another active
        patient; then the row is overwritten and read back. */
    method UpdatePatient(p: Patient, now: Time) returns (r: Result<Patient>)
      requires Valid()
      modifies repo
      ensures Valid()
      ensures repo.ids == old(repo.ids)
      ensures p.ID == "" ==> r == Err(InvalidInput)
      ensures p.ID != "" && !ActiveId(old(repo.rows), p.ID) ==> r == Err(PatientNotFound)
      ensures p.ID != "" && ActiveId(old(repo.rows), p.ID) && ValidatePatient(p, now).Some? ==>
        r == Err(Custom(ValidatePatient(p, now).value))
      ensures p.ID != "" && ActiveId(old(repo.rows), p.ID) && ValidatePatient(p, now).None?
              && p.NIK != old(repo.rows)[p.ID].NIK && NikTakenByOther(old(repo.rows), p) ==>
        r == Err(Custom(NikExists))
      ensures p.ID != "" && ActiveId(old(repo.rows), p.ID) && ValidatePatient(p, now).None?
              && !(p.NIK != old(repo.rows)[p.ID].NIK && NikTakenByOther(old(repo.rows), p)) ==>
        var stamped := p.(UpdatedAt := now);
        var conflict := UpdateConflict(old(repo.rows), stamped);
        var row := ApplyUpdate(old(repo.rows)[p.ID], stamped);
        && (conflict.Some? ==> r == Err(Wrapped("failed to update patient", conflict.value)))
        && (conflict.None? ==> repo.rows == old(repo.rows)[p.ID := row] && r == Ok(row))
      ensures r.Err? ==> repo.rows == old(repo.rows)
    {
      if p.ID == "" {
        return Err(InvalidInput);
      }
      var existing := repo.GetByID(p.ID);
      if existing.Err? {
        return Err(existing.error);
      }
      var invalid := ValidatePatient(p, now);
      if invalid.Some? {
        return Err(Custom(invalid.value));
      }
      if p.NIK != existing.value.NIK {
        var withNik := repo.GetByNIK(p.NIK);
        if withNik.Ok? && withNik.value.ID != p.ID {
          return Err(Custom(NikExists));
        }
      }
      var stamped, err := repo.Update(p, now);
      if err.Some? {
        return Err(Wrapped("failed to update patient", err.value));
      }
      r := repo.GetByID(p.ID);
    }

    /** `DeletePatient`: only an active patient can be deleted; the delete
        is soft. */
    method DeletePatient(id: string, now: Time) returns (err: Option<Error>)
      requires Valid()
      modifies repo
      ensures Valid()
      ensures repo.ids == old(repo.ids)
      ensures id == "" ==> err == Some(InvalidInput)
      ensures id != "" && !ActiveId(old(repo.rows), id) ==> err == Some(PatientNotFound)
      ensures id != "" && ActiveId(old(repo.rows), id) ==>
        err == None
        && repo.rows == old(repo.rows)[id := old(repo.rows)[id].(IsActive := false, UpdatedAt := now)]
      ensures err.Some? ==> repo.rows == old(repo.rows)
    {
      if id == "" {
        return Some(InvalidInput);
      }
      var active := repo.Exists(id);
      if !active {
        return Some(PatientNotFound);
      }
      err := repo.Delete(id, now);
    }

    /** `ListPatients`: applies the defaults and the allow-lists to the
        filter, then lists. */
    method ListPatients(f: PatientFilter) returns (r: Result<ListPage>)
      requires Valid()
      ensures r == ListSpec(repo.rows, repo.ids, Normalized(f))
      ensures r.Ok?
    {
      var g := Normalized(f);
      var filter := f;
      if filter.Page <= 0 {
        filter := filter.(Page := 1);
      }
      if filter.Limit <= 0 {
        filter := filter.(Limit := 10);
      }
      if filter.Limit > 100 {
        filter := filter.(Limit := 100);
      }
      assert filter == f.(Page := g.Page, Limit := g.Limit);
      if filter.Sort == "" {
        filter := filter.(Sort := "created_at");
      }
      if filter.Order == "" {
        filter := filter.(Order := "DESC");
      }
      if filter.Sort !in AllowedSortFields {
        filter := filter.(Sort := "created_at");
      }
      assert filter.Sort == g.Sort;
      assert Upper("DESC") == "DESC";
      assert Upper(filter.Order) == "ASC" <==> Upper(f.Order) == "ASC";
      filter := filter.(Order := Upper(filter.Order));
      if filter.Order != "ASC" && filter.Order != "DESC" {
        filter := filter.(Order := "DESC");
      }
      assert filter.Order == g.Order;
      assert filter == g;
      NormalizedListNeverFails(repo.rows, repo.ids, f);
      r := repo.List(filter);
    }

    /** `GetPatientPublicInfo`. */
    method GetPatientPublicInfo(id: string) returns (r: Result<Patient>)
      ensures id == "" ==> r == Err(InvalidInput)
      ensures id != "" ==> (r.Ok? <==> ActiveId(repo.rows, id))
      ensures id != "" && r.Ok? ==> r.value == PublicInfo(repo.rows[id])
      ensures id != "" && r.Err? ==> r.error == PatientNotFound
    {
      if id == "" {
        return Err(InvalidInput);
      }
      var found := repo.GetByID(id);
      if found.Err? {
        return Err(found.error);
      }
      r := Ok(PublicInfo(found.value));
    }

    // ---------------------------------------- corrected operations

    /** `CreatePatient` with the "set default values" step doing what it
        says: the record is made active before it is inserted, so a
        successful create always reads its row back. */
    method CreateActivePatient(p: Patient, now: Time, clock: Clock, newId: string) returns (r: Result<Patient>)
      requires Valid() && ClockValid(clock)
      modifies repo
      ensures Valid()
      ensures r.Err? ==> r.error != PatientNotFound
      ensures r.Err? ==> repo.rows == old(repo.rows) && repo.ids == old(repo.ids)
      ensures ValidatePatient(p, now).None? && !HasActive(old(repo.rows), NikKey, p.NIK)
              && InsertConflict(old(repo.rows), CreatedRow(p.(IsActive := true), clock, newId, now)).None?
              ==> r.Ok?
      ensures r.Ok? ==>
        && r.value == CreatedRow(p.(IsActive := true), clock, newId, now)
        && r.value.IsActive && r.value.ID == newId
        && repo.rows == old(repo.rows)[newId := r.value] && repo.ids == old(repo.ids) + [newId]
    {
      r := CreatePatient(p.(IsActive := true), now, clock, newId);
    }

    /** `UpdatePatient` keeping the stored medical record number when the
        input carries none, as an update from a request always does. */
    method UpdatePatientKeepingRecordNo(p: Patient, now: Time) returns (r: Result<Patient>)
      requires Valid()
      modifies repo
      ensures Valid()
      ensures repo.ids == old(repo.ids)
      ensures r.Err? ==> repo.rows == old(repo.rows)
      ensures r.Ok? ==> p.ID in old(repo.rows) && repo.rows == old(repo.rows)[p.ID := r.value]
      ensures r.Ok? ==>
        r.value == ApplyUpdate(old(repo.rows)[p.ID], p.(
          MedicalRecordNo := if p.MedicalRecordNo == "" then old(repo.rows)[p.ID].MedicalRecordNo else p.MedicalRecordNo,
          UpdatedAt := now))
      ensures r.Ok? ==>
        r.value.MedicalRecordNo
          == (if p.MedicalRecordNo == "" then old(repo.rows)[p.ID].MedicalRecordNo else p.MedicalRecordNo)
      ensures p.MedicalRecordNo == "" && r.Err? ==> r.error != Wrapped("failed to update patient", UniqueViolation("medical_record_no"))
      ensures p.ID != "" && ActiveId(old(repo.rows), p.ID) && ValidatePatient(p, now).None?
              && p.MedicalRecordNo == ""
              && (forall id | id in old(repo.rows) && id != p.ID :: old(repo.rows)[id].NIK != p.NIK)
              ==> r.Ok?
    {
      var input := p;
      if p.MedicalRecordNo == "" && p.ID in repo.rows {
        input := p.(MedicalRecordNo := repo.rows[p.ID].MedicalRecordNo);
        KeptRecordNoConflict(repo.rows, p, now);
        ValidationReadsRuleFieldsOnly(p, input, now);
      }
      r := UpdatePatient(input, now);
    }
  }
}
