/** How the layers fit together along the HTTP path
    (internal/handler/patient_handler.go drives the core): what the request
    tags guarantee to the service rules, the filter the list endpoint
    builds, its page count, and worked scenarios over a fresh store. */
module HandlerPath {
  import opened Domain
  import opened Text
  import opened Request
  import opened Response
  import opened PatientQuery
  import opened Repository
  import opened Service

  // ------------------------------------------------ tags and service rules

  /** The tag vocabulary and the service agree on the option sets. */
  lemma OptionSetsAgree()
    ensures GenderOptions == GenderCodes
    ensures BloodTypeOptions == ValidBloodTypes
    ensures SortOptions == AllowedSortFields
  {
  }

  /** A create request that passed its tags breaks no service rule except,
      possibly, a birth date later than the service's clock: the tags do
      not look at the clock. */
  lemma CreateTagsImplyServiceRules(req: CreatePatientRequest, now: Time)
    requires CreateRequestValid(req)
    ensures ValidatePatient(ToPatientDomain(req), now).None? <==> req.DateOfBirth <= now
    ensures req.DateOfBirth > now ==>
      ValidatePatient(ToPatientDomain(req), now) == Some(RuleError(DobNotFutureRule))
  {
  }

  /** The same for an update request and the record built from it. */
  lemma UpdateTagsImplyServiceRules(id: string, req: UpdatePatientRequest, now: Time)
    requires UpdateRequestValid(req)
    ensures ValidatePatient(ToUpdatePatientDomain(id, req), now).None? <==> req.DateOfBirth <= now
    ensures req.DateOfBirth > now ==>
      ValidatePatient(ToUpdatePatientDomain(id, req), now) == Some(RuleError(DobNotFutureRule))
  {
  }

  // ------------------------------------------------------------- listing

  /** The handler's own defaults, applied before the tags are checked. */
  function WithListDefaults(req: ListPatientsRequest): (d: ListPatientsRequest)
    ensures d.Page != 0 && d.Limit != 0
    ensures req.Page != 0 ==> d.Page == req.Page
    ensures req.Limit != 0 ==> d.Limit == req.Limit
    ensures d.(Page := req.Page, Limit := req.Limit) == req
  {
    req.(Page := if req.Page == 0 then 1 else req.Page,
         Limit := if req.Limit == 0 then 10 else req.Limit)
  }

  /** The filter the list handler builds from its query. */
  function FilterOf(req: ListPatientsRequest): (f: PatientFilter)
    ensures (f.Search, f.City, f.Province, f.IsActive) == (req.Search, req.City, req.Province, req.IsActive)
    ensures (f.Page, f.Limit, f.Sort, f.Order) == (req.Page, req.Limit, req.Sort, req.Order)
  {
    PatientFilter(req.Search, req.City, req.Province, req.IsActive,
                  req.Page, req.Limit, req.Sort, req.Order)
  }

  /** For a query that passed its tags the service's defaults change only
      an empty sort and the case of the order keyword: page and limit reach
      the store as given. */
  lemma ValidQueryKeepsPaging(req: ListPatientsRequest)
    requires ListRequestValid(req)
    ensures Normalized(FilterOf(req)).Page == req.Page
    ensures Normalized(FilterOf(req)).Limit == req.Limit
    ensures req.Sort != "" ==> Normalized(FilterOf(req)).Sort == req.Sort
    ensures req.Sort == "" ==> Normalized(FilterOf(req)).Sort == "created_at"
    ensures req.Order in {"ASC", "asc"} ==> Normalized(FilterOf(req)).Order == "ASC"
    ensures req.Order in {"", "DESC", "desc"} ==> Normalized(FilterOf(req)).Order == "DESC"
  {
    assert Upper("asc") == "ASC";
    assert Upper("desc") == "DESC";
    assert Upper("DESC") == "DESC";
    assert Upper("ASC") == "ASC";
  }

  /** The page count of the list response: `total / limit` rounded up,
      which is the least number of pages of `limit` rows holding `total`
      rows. */
  function TotalPages(total: nat, limit: int): (n: nat)
    requires limit >= 1
    ensures n * limit >= total
    ensures n == 0 || (n - 1) * limit < total
  {
    var q, m := (total + limit - 1) / limit, (total + limit - 1) % limit;
    assert total + limit - 1 == q * limit + m && 0 <= m < limit;
    assert (q - 1) * limit == q * limit - limit;
    q
  }

  /** The list response: every listed row converted for the response, in
      order, and the pagination block built from the request's paging and
      the total. */
  function ListResponseOf(req: ListPatientsRequest, page: ListPage): (r: ListPatientsResponse)
    requires req.Limit >= 1 && page.total >= 0
    ensures |r.Data| == |page.patients|
    ensures forall i :: 0 <= i < |page.patients| ==>
      WithActors(r.Data[i], page.patients[i].CreatedBy, page.patients[i].UpdatedBy) == page.patients[i]
    ensures r.Pagination.Page == req.Page && r.Pagination.Limit == req.Limit
    ensures r.Pagination.Total == page.total
    ensures r.Pagination.TotalPages * req.Limit >= page.total
    ensures r.Pagination.TotalPages == 0 || (r.Pagination.TotalPages - 1) * req.Limit < page.total
  {
    var data := seq(|page.patients|, i requires 0 <= i < |page.patients| => ToPatientResponse(page.patients[i]));
    ListPatientsResponse(data, PaginationResponse(req.Page, req.Limit, page.total, TotalPages(page.total, req.Limit)))
  }

  /** For a query that passed its tags, listing succeeds and the response
      fits together: at most `Limit` rows, the total counts every active
      matching row, and the page count covers the total. */
  lemma ListResponseConsistent(rows: Table, ids: seq<string>, req: ListPatientsRequest)
    requires TableValid(rows, ids) && ListRequestValid(req)
    ensures ListSpec(rows, ids, Normalized(FilterOf(req))).Ok?
    ensures var page := ListSpec(rows, ids, Normalized(FilterOf(req))).value;
      && page.total == |ActiveMatchingIds(rows, Normalized(FilterOf(req)))|
      && req.Limit >= 1
      && var response := ListResponseOf(req, page);
      && |response.Data| <= response.Pagination.Limit
      && response.Pagination.TotalPages * response.Pagination.Limit >= response.Pagination.Total
  {
    var g := Normalized(FilterOf(req));
    ValidQueryKeepsPaging(req);
    NormalizedListNeverFails(rows, ids, FilterOf(req));
    ListSpecFacts(rows, ids, g);
  }

  // ------------------------------------------------------------ scenarios

  /** A record that passes every service rule. */
  function SamplePatient(id: string, nik: string, recordNo: string): Patient
  {
    ZeroPatient.(ID := id, MedicalRecordNo := recordNo, NIK := nik, FirstName := "Siti",
                 DateOfBirth := 100, Gender := "FEMALE", BloodType := "O+",
                 Phone := "081234567890", IsActive := true)
  }

  const SampleClock: Clock := Clock(2024, 5, 17, 123456789)

  /** Deleting twice: whatever the store holds, the second delete of an id
      is refused as not found and changes nothing. */
  method DeleteTwice(service: PatientService, id: string, first: Time, second: Time) returns (e1: Option<Error>, e2: Option<Error>)
    requires service.Valid() && id != ""
    modifies service.repo
    ensures service.Valid()
    ensures e2 == Some(PatientNotFound)
    ensures e1 == None <==> ActiveId(old(service.repo.rows), id)
    ensures !ActiveId(service.repo.rows, id)
  {
    e1 := service.DeletePatient(id, first);
    e2 := service.DeletePatient(id, second);
  }

  /** After the soft delete of `id`, a record carrying its NIK passes the
      active-only pre-check and collides with the deleted row on nik. */
  lemma ReusedNikConflict(before: Table, id: string, q: Patient, clock: Clock, newId: string,
                          first: Time, second: Time)
    requires NaturalKeysUnique(before) && ClockValid(clock)
    requires id in before && q.NIK == before[id].NIK
    requires newId !in before
    requires forall k | k in before :: before[k].MedicalRecordNo != Prepared(q, clock).MedicalRecordNo
    ensures var rows := before[id := before[id].(IsActive := false, UpdatedAt := first)];
      && !HasActive(rows, NikKey, q.NIK)
      && InsertConflict(rows, CreatedRow(q, clock, newId, second)) == Some(UniqueViolation("nik"))
  {
    var rows := before[id := before[id].(IsActive := false, UpdatedAt := first)];
    var row := CreatedRow(q, clock, newId, second);
    assert row.NIK == q.NIK && row.MedicalRecordNo == Prepared(q, clock).MedicalRecordNo && row.ID == newId;
    forall k | k in rows
      ensures rows[k].MedicalRecordNo != row.MedicalRecordNo
      ensures !(rows[k].IsActive && KeyValue(rows[k], NikKey) == q.NIK)
    {
      if k != id {
        assert rows[k] == before[k];
      }
    }
    assert rows[id].NIK == row.NIK;
  }

  /** A patient is deleted and a new patient registers with the same NIK:
      the pre-check lets it through and the insert fails on the nik
      constraint, reported as a failed create rather than PATIENT_EXISTS. */
  method ReusedNikScenario(service: PatientService, id: string, q: Patient, newId: string,
                           clock: Clock, first: Time, second: Time)
    returns (deleted: Option<Error>, r: Result<Patient>)
    requires service.Valid() && ClockValid(clock)
    requires id != "" && ActiveId(service.repo.rows, id)
    requires q.NIK == service.repo.rows[id].NIK && ValidatePatient(q, second).None?
    requires newId !in service.repo.rows
    requires forall k | k in service.repo.rows ::
      service.repo.rows[k].MedicalRecordNo != Prepared(q, clock).MedicalRecordNo
    modifies service.repo
    ensures deleted == None
    ensures r == Err(Wrapped("failed to create patient", UniqueViolation("nik")))
  {
    ghost var before := service.repo.rows;
    deleted := service.DeletePatient(id, first);
    ReusedNikConflict(before, id, q, clock, newId, first, second);
    r := service.CreatePatient(q, second, clock, newId);
  }

  /** The service creates an inactive row when handed an inactive record,
      then cannot read it back: the caller sees "not found" although the
      row was stored. */
  method InactiveCreateScenario() returns (r: Result<Patient>, stored: bool)
    ensures r == Err(PatientNotFound) && stored
  {
    var store := new PatientStore();
    var service := new PatientService(store);
    var p := SamplePatient("", "3171010101010001", "RM-20240517-00001").(IsActive := false);
    assert ValidatePatient(p, 1000).None?;
    r := service.CreatePatient(p, 1000, SampleClock, "id-1");
    stored := "id-1" in store.rows;
  }

  /** The corrected create on the same record: the row is active and is
      read back. */
  method ActiveCreateScenario() returns (r: Result<Patient>)
    ensures r.Ok? && r.value.IsActive && r.value.ID == "id-1"
  {
    var store := new PatientStore();
    var service := new PatientService(store);
    var p := SamplePatient("", "3171010101010001", "RM-20240517-00001").(IsActive := false);
    assert ValidatePatient(p.(IsActive := true), 1000).None?;
    r := service.CreateActivePatient(p, 1000, SampleClock, "id-1");
  }

  /** The record the update endpoint builds when a client resubmits the
      stored fields of patient `id` unchanged. */
  function Resubmitted(rows: Table, id: string): (p: Patient)
    requires id in rows
    ensures p.ID == id && p.NIK == rows[id].NIK && p.MedicalRecordNo == ""
  {
    ToUpdatePatientDomain(id, UpdateFieldsOf(rows[id]))
  }

  /** On values: the first resubmission collides on nothing, and once it
      has blanked the first number the second collides with it on
      medical_record_no. */
  lemma ClearedRecordNoConflict(rows: Table, a: string, b: string, t1: Time, t2: Time)
    requires NaturalKeysUnique(rows) && a in rows && b in rows && a != b
    requires forall id | id in rows :: rows[id].MedicalRecordNo != ""
    ensures UpdateConflict(rows, Resubmitted(rows, a).(UpdatedAt := t1)).None?
    ensures var cleared := rows[a := ApplyUpdate(rows[a], Resubmitted(rows, a).(UpdatedAt := t1))];
      UpdateConflict(cleared, Resubmitted(rows, b).(UpdatedAt := t2)) == Some(UniqueViolation("medical_record_no"))
  {
    var first := Resubmitted(rows, a).(UpdatedAt := t1);
    var second := Resubmitted(rows, b).(UpdatedAt := t2);
    forall id | id in rows && id != a
      ensures rows[id].NIK != first.NIK && rows[id].MedicalRecordNo != first.MedicalRecordNo
    {
    }
    var cleared := rows[a := ApplyUpdate(rows[a], first)];
    assert cleared[a].MedicalRecordNo == "" == second.MedicalRecordNo && second.ID == b;
  }

  /** Two active patients with valid records, in a store where no number
      is blank, each resubmitted once through the update endpoint: the
      first update blanks the first patient's medical record number; the
      second would blank the second's too and breaks the UNIQUE constraint
      on the column. */
  method ClearedRecordNoScenario(service: PatientService, a: string, b: string, t1: Time, t2: Time)
    returns (first: Result<Patient>, second: Result<Patient>)
    requires service.Valid()
    requires a != "" && b != "" && a != b
    requires ActiveId(service.repo.rows, a) && ActiveId(service.repo.rows, b)
    requires forall id | id in service.repo.rows :: service.repo.rows[id].MedicalRecordNo != ""
    requires ValidatePatient(Resubmitted(service.repo.rows, a), t1).None?
    requires ValidatePatient(Resubmitted(service.repo.rows, b), t2).None?
    modifies service.repo
    ensures first.Ok? && first.value.MedicalRecordNo == ""
    ensures second == Err(Wrapped("failed to update patient", UniqueViolation("medical_record_no")))
  {
    ghost var rows := service.repo.rows;
    ClearedRecordNoConflict(rows, a, b, t1, t2);
    var updateB := Resubmitted(service.repo.rows, b);
    first := service.UpdatePatient(Resubmitted(service.repo.rows, a), t1);
    assert service.repo.rows[b] == rows[b];
    second := service.UpdatePatient(updateB, t2);
  }

  /** The same two updates through the corrected update: both succeed and
      both patients keep their numbers. */
  method KeptRecordNoScenario(service: PatientService, a: string, b: string, t1: Time, t2: Time)
    returns (first: Result<Patient>, second: Result<Patient>)
    requires service.Valid()
    requires a != "" && b != "" && a != b
    requires ActiveId(service.repo.rows, a) && ActiveId(service.repo.rows, b)
    requires ValidatePatient(Resubmitted(service.repo.rows, a), t1).None?
    requires ValidatePatient(Resubmitted(service.repo.rows, b), t2).None?
    modifies service.repo
    ensures first.Ok? && first.value.MedicalRecordNo == old(service.repo.rows)[a].MedicalRecordNo
    ensures second.Ok? && second.value.MedicalRecordNo == old(service.repo.rows)[b].MedicalRecordNo
  {
    var rowB := service.repo.rows[b];
    var updateB := Resubmitted(service.repo.rows, b);
    first := service.UpdatePatientKeepingRecordNo(Resubmitted(service.repo.rows, a), t1);
    assert service.repo.rows[b] == rowB;
    assert forall id | id in service.repo.rows && id != b :: service.repo.rows[id].NIK != updateB.NIK;
    second := service.UpdatePatientKeepingRecordNo(updateB, t2);
  }
}
