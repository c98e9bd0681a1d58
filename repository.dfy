/** The patient store (internal/repository/patient_repo.go) as an in-memory
    table. Rows are kept by id, active and soft-deleted alike; `ids` keeps
    the ids in insertion order, the order in which the table is scanned.
    The UNIQUE constraints of the schema (id, medical_record_no and nik over
    all rows, internal/database/connection.go) are failure conditions of
    Create and Update. */
module Repository {
  import opened Domain
  import opened PatientQuery

  type Table = map<string, Patient>

  // ------------------------------------------------------- table shape

  /** Every row sits under its own id. */
  predicate KeyedById(rows: Table)
  {
    forall id | id in rows :: rows[id].ID == id
  }

  /** No two rows, active or not, share a NIK or a medical record number. */
  predicate NaturalKeysUnique(rows: Table)
  {
    forall a, b | a in rows && b in rows && a != b ::
      rows[a].NIK != rows[b].NIK && rows[a].MedicalRecordNo != rows[b].MedicalRecordNo
  }

  /** `ids` lists every row id exactly once. */
  predicate ScanOrder(rows: Table, ids: seq<string>)
  {
    && (forall i, j | 0 <= i < j < |ids| :: ids[i] != ids[j])
    && (forall i | 0 <= i < |ids| :: ids[i] in rows)
    && (forall id | id in rows :: id in ids)
  }

  predicate TableValid(rows: Table, ids: seq<string>)
  {
    KeyedById(rows) && NaturalKeysUnique(rows) && ScanOrder(rows, ids)
  }

  // ------------------------------------------------------ row transitions

  /** The unique column an INSERT of `row` collides on, if any. Which one
      is reported when several collide is the model's choice: id, then
      medical_record_no, then nik. */
  function InsertConflict(rows: Table, row: Patient): (r: Option<Error>)
    ensures r.None? <==>
      row.ID !in rows
      && forall id | id in rows :: rows[id].NIK != row.NIK && rows[id].MedicalRecordNo != row.MedicalRecordNo
    ensures r.Some? ==> r.value.UniqueViolation?
  {
    if row.ID in rows then Some(UniqueViolation("id"))
    else if exists id | id in rows :: rows[id].MedicalRecordNo == row.MedicalRecordNo
    then Some(UniqueViolation("medical_record_no"))
    else if exists id | id in rows :: rows[id].NIK == row.NIK
    then Some(UniqueViolation("nik"))
    else None
  }

  /** The unique column an UPDATE of row `row.ID` to the values of `row`
      collides on, if any: another row holding the new NIK or number. */
  function UpdateConflict(rows: Table, row: Patient): (r: Option<Error>)
    ensures r.None? <==>
      forall id | id in rows && id != row.ID ::
        rows[id].NIK != row.NIK && rows[id].MedicalRecordNo != row.MedicalRecordNo
    ensures r.Some? ==> r.value.UniqueViolation?
  {
    if exists id | id in rows && id != row.ID :: rows[id].MedicalRecordNo == row.MedicalRecordNo
    then Some(UniqueViolation("medical_record_no"))
    else if exists id | id in rows && id != row.ID :: rows[id].NIK == row.NIK
    then Some(UniqueViolation("nik"))
    else None
  }

  /** The row after `UPDATE patients SET ...`: the 19 content columns,
      updated_at and updated_by come from the input; exactly id, is_active,
      created_at and created_by keep the stored values. */
  function ApplyUpdate(row: Patient, input: Patient): (r: Patient)
    ensures r == input.(ID := row.ID, IsActive := row.IsActive,
                        CreatedAt := row.CreatedAt, CreatedBy := row.CreatedBy)
  {
    row.(
      MedicalRecordNo := input.MedicalRecordNo,
      NIK := input.NIK,
      FirstName := input.FirstName,
      LastName := input.LastName,
      DateOfBirth := input.DateOfBirth,
      Gender := input.Gender,
      BloodType := input.BloodType,
      Phone := input.Phone,
      Email := input.Email,
      Address := input.Address,
      City := input.City,
      Province := input.Province,
      PostalCode := input.PostalCode,
      EmergencyContact := input.EmergencyContact,
      EmergencyPhone := input.EmergencyPhone,
      InsuranceProvider := input.InsuranceProvider,
      InsuranceNumber := input.InsuranceNumber,
      Allergies := input.Allergies,
      ChronicConditions := input.ChronicConditions,
      UpdatedAt := input.UpdatedAt,
      UpdatedBy := input.UpdatedBy)
  }

  // ------------------------------------------------------------- lookups

  predicate ActiveId(rows: Table, id: string)
  {
    id in rows && rows[id].IsActive
  }

  datatype LookupKey = NikKey | RecordNoKey

  function KeyValue(p: Patient, key: LookupKey): string
  {
    match key
    case NikKey => p.NIK
    case RecordNoKey => p.MedicalRecordNo
  }

  /** Some active row has `value` in the `key` column. */
  predicate HasActive(rows: Table, key: LookupKey, value: string)
  {
    exists id | id in rows :: rows[id].IsActive && KeyValue(rows[id], key) == value
  }

  // ---------------------------------------------------------------- list

  datatype ListPage = ListPage(patients: seq<Patient>, total: int)

  predicate Qualifies(rows: Table, id: string, f: PatientFilter)
  {
    id in rows && rows[id].IsActive && MatchesFilter(rows[id], f)
  }

  /** The active rows matching the filter, in scan order. */
  function MatchingRows(rows: Table, ids: seq<string>, f: PatientFilter): seq<Patient>
  {
    if ids == [] then []
    else
      var id := ids[|ids| - 1];
      MatchingRows(rows, ids[..|ids| - 1], f) + (if Qualifies(rows, id, f) then [rows[id]] else [])
  }

  /** The ids of all active rows matching the filter. */
  function ActiveMatchingIds(rows: Table, f: PatientFilter): set<string>
  {
    set id | id in rows && Qualifies(rows, id, f)
  }

  /** The OFFSET of page `page` with `limit` rows per page. */
  function PageOffset(page: int, limit: int): nat
    requires page >= 1 && limit >= 1
  {
    (page - 1) * limit
  }

  /** What `List` returns: the number of active matching rows, counted
      before paging, and the window (Page-1)*Limit .. of those rows in the
      requested order. An ORDER BY the model cannot read, a negative offset
      or a non-positive fetch count fails the page query. */
  function ListSpec(rows: Table, ids: seq<string>, f: PatientFilter): (r: Result<ListPage>)
    ensures r.Ok? <==> OrderingOf(f.Sort, f.Order).Ok? && f.Page >= 1 && f.Limit >= 1
    ensures r.Ok? ==> |r.value.patients| <= f.Limit && r.value.total >= 0
    ensures OrderingOf(f.Sort, f.Order).Err? ==> r == Err(OrderingOf(f.Sort, f.Order).error)
  {
    var matching := MatchingRows(rows, ids, f);
    match OrderingOf(f.Sort, f.Order)
    case Err(e) => Err(e)
    case Ok(o) =>
      if f.Page < 1 || f.Limit < 1 then Err(QueryFailed("invalid OFFSET or FETCH count"))
      else Ok(ListPage(Window(SortRows(matching, o), PageOffset(f.Page, f.Limit), f.Limit), |matching|))
  }

  lemma {:induction false} MatchingRowsMembers(rows: Table, ids: seq<string>, f: PatientFilter)
    requires KeyedById(rows)
    ensures forall p | p in MatchingRows(rows, ids, f) ::
      p.ID in rows && rows[p.ID] == p && p.IsActive && MatchesFilter(p, f)
  {
    if ids != [] {
      MatchingRowsMembers(rows, ids[..|ids| - 1], f);
    }
  }

  /** One more scanned id adds its row exactly when it qualifies. */
  lemma MatchingRowsStep(rows: Table, ids: seq<string>, i: nat, f: PatientFilter)
    requires i < |ids|
    ensures MatchingRows(rows, ids[..i + 1], f)
         == MatchingRows(rows, ids[..i], f) + (if Qualifies(rows, ids[i], f) then [rows[ids[i]]] else [])
  {
    assert ids[..i + 1][..i] == ids[..i];
  }

  /** The ids of the rows `MatchingRows` keeps. */
  function MatchingIds(rows: Table, ids: seq<string>, f: PatientFilter): set<string>
  {
    if ids == [] then {}
    else
      var id := ids[|ids| - 1];
      MatchingIds(rows, ids[..|ids| - 1], f) + (if Qualifies(rows, id, f) then {id} else {})
  }

  lemma {:induction false} MatchingIdsMembers(rows: Table, ids: seq<string>, f: PatientFilter)
    ensures forall id :: id in MatchingIds(rows, ids, f) <==> id in ids && Qualifies(rows, id, f)
  {
    if ids != [] {
      var init := ids[..|ids| - 1];
      MatchingIdsMembers(rows, init, f);
      assert ids == init + [ids[|ids| - 1]];
    }
  }

  /** The scan keeps one row per qualifying id when the ids are distinct. */
  lemma {:induction false} MatchingRowsCount(rows: Table, ids: seq<string>, f: PatientFilter)
    requires forall i, j | 0 <= i < j < |ids| :: ids[i] != ids[j]
    ensures |MatchingRows(rows, ids, f)| == |MatchingIds(rows, ids, f)|
  {
    if ids != [] {
      var init := ids[..|ids| - 1];
      var last := ids[|ids| - 1];
      MatchingRowsCount(rows, init, f);
      MatchingIdsMembers(rows, init, f);
      assert last !in init;
      assert last !in MatchingIds(rows, init, f);
    }
  }

  /** A window of an ordered sequence is ordered and holds only its elements. */
  lemma WindowOfSorted(s: seq<Patient>, offset: nat, limit: nat, o: Ordering)
    requires Sorted(s, o)
    ensures Sorted(Window(s, offset, limit), o)
    ensures forall p | p in Window(s, offset, limit) :: p in s
  {
    var w := Window(s, offset, limit);
    if offset < |s| {
      forall i, j | 0 <= i < j < |w| ensures !Before(w[j], w[i], o) {
        assert w[i] == s[offset + i] && w[j] == s[offset + j];
      }
      forall p | p in w ensures p in s {
        var i :| 0 <= i < |w| && w[i] == p;
        assert s[offset + i] == p;
      }
    }
  }

  /** What a successful list promises: the total counts every active
      matching row of the table, the page holds at most Limit rows, all of
      them active matching rows of the table, in the requested order. */
  lemma ListSpecFacts(rows: Table, ids: seq<string>, f: PatientFilter)
    requires TableValid(rows, ids)
    requires OrderingOf(f.Sort, f.Order).Ok? && f.Page >= 1 && f.Limit >= 1
    ensures ListSpec(rows, ids, f).Ok?
    ensures ListSpec(rows, ids, f).value.total == |ActiveMatchingIds(rows, f)|
    ensures Sorted(ListSpec(rows, ids, f).value.patients, OrderingOf(f.Sort, f.Order).value)
    ensures forall p | p in ListSpec(rows, ids, f).value.patients ::
      p.ID in rows && rows[p.ID] == p && p.IsActive && MatchesFilter(p, f)
  {
    var o := OrderingOf(f.Sort, f.Order).value;
    var matching := MatchingRows(rows, ids, f);
    var sorted := SortRows(matching, o);
    assert f.Page >= 1 && f.Limit >= 1;
    var offset := PageOffset(f.Page, f.Limit);
    var page := Window(sorted, offset, f.Limit);
    assert ListSpec(rows, ids, f) == Ok(ListPage(page, |matching|));
    MatchingRowsCount(rows, ids, f);
    MatchingIdsMembers(rows, ids, f);
    assert MatchingIds(rows, ids, f) == ActiveMatchingIds(rows, f);
    MatchingRowsMembers(rows, ids, f);
    WindowOfSorted(sorted, offset, f.Limit, o);
    forall p | p in sorted ensures p in matching {
      assert p in multiset(sorted);
    }
  }

  /** OFFSET `offset` ROWS FETCH NEXT `limit` ROWS ONLY, row by row. */
  method TakeWindow(sorted: seq<Patient>, offset: nat, limit: nat) returns (page: seq<Patient>)
    ensures page == Window(sorted, offset, limit)
  {
    page := [];
    if offset < |sorted| {
      var stop := Min(offset + limit, |sorted|);
      var k := offset;
      while k < stop
        invariant offset <= k <= stop
        invariant page == sorted[offset..k]
      {
        page := page + [sorted[k]];
        k := k + 1;
      }
    }
  }

  // --------------------------------------------------------- the store

  class PatientStore {
    var rows: Table
    var ids: seq<string>

    ghost predicate Valid()
      reads this
    {
      TableValid(rows, ids)
    }

    constructor ()
      ensures Valid()
      ensures rows == map[] && ids == []
    {
      rows := map[];
      ids := [];
    }

    /** `Create`: stamps a fresh id and the clock into the record, then
        inserts it with every other field as given, IsActive included.
        The stamped record is returned whether or not the insert succeeds,
        as the caller's struct is written before the INSERT runs. */
    method Create(p: Patient, newId: string, now: Time) returns (stamped: Patient, err: Option<Error>)
      requires Valid()
      modifies this
      ensures Valid()
      ensures stamped == p.(ID := newId, CreatedAt := now, UpdatedAt := now)
      ensures err == InsertConflict(old(rows), stamped)
      ensures err.None? ==> rows == old(rows)[newId := stamped] && ids == old(ids) + [newId]
      ensures err.Some? ==> rows == old(rows) && ids == old(ids)
    {
      stamped := p.(ID := newId, CreatedAt := now, UpdatedAt := now);
      err := InsertConflict(rows, stamped);
      if err.None? {
        rows := rows[newId := stamped];
        ids := ids + [newId];
      }
    }

    /** `GetByID`: only an active row is found. */
    method GetByID(id: string) returns (r: Result<Patient>)
      ensures r.Ok? <==> ActiveId(rows, id)
      ensures r.Ok? ==> r.value == rows[id]
      ensures r.Err? ==> r.error == PatientNotFound
    {
      if id in rows && rows[id].IsActive {
        r := Ok(rows[id]);
      } else {
        r := Err(PatientNotFound);
      }
    }

    /** The scan behind `GetByNIK` and `GetByMedicalRecordNo`: the active
        row holding `value` in the `key` column, if there is one. */
    method FindActive(key: LookupKey, value: string) returns (r: Result<Patient>)
      requires Valid()
      ensures r.Ok? <==> HasActive(rows, key, value)
      ensures r.Ok? ==> r.value.ID in rows && rows[r.value.ID] == r.value
                        && r.value.IsActive && KeyValue(r.value, key) == value
      ensures r.Err? ==> r.error == PatientNotFound
    {
      var i := 0;
      while i < |ids|
        invariant 0 <= i <= |ids|
        invariant forall j | 0 <= j < i :: !(rows[ids[j]].IsActive && KeyValue(rows[ids[j]], key) == value)
      {
        var row := rows[ids[i]];
        if row.IsActive && KeyValue(row, key) == value {
          assert rows[ids[i]].ID == ids[i];
          return Ok(row);
        }
        i := i + 1;
      }
      forall id | id in rows ensures !(rows[id].IsActive && KeyValue(rows[id], key) == value) {
        var j :| 0 <= j < |ids| && ids[j] == id;
      }
      r := Err(PatientNotFound);
    }

    /** `GetByNIK`: only an active row is found. */
    method GetByNIK(nik: string) returns (r: Result<Patient>)
      requires Valid()
      ensures r.Ok? <==> HasActive(rows, NikKey, nik)
      ensures r.Ok? ==> r.value.ID in rows && rows[r.value.ID] == r.value
                        && r.value.IsActive && r.value.NIK == nik
      ensures r.Err? ==> r.error == PatientNotFound
    {
      r := FindActive(NikKey, nik);
    }

    /** `GetByMedicalRecordNo`: only an active row is found. */
    method GetByMedicalRecordNo(recordNo: string) returns (r: Result<Patient>)
      requires Valid()
      ensures r.Ok? <==> HasActive(rows, RecordNoKey, recordNo)
      ensures r.Ok? ==> r.value.ID in rows && rows[r.value.ID] == r.value
                        && r.value.IsActive && r.value.MedicalRecordNo == recordNo
      ensures r.Err? ==> r.error == PatientNotFound
    {
      r := FindActive(RecordNoKey, recordNo);
    }

    /** `Update`: stamps the clock into the record, then overwrites the row
        with the record's id, active or not. No such row is reported as not
        found (no row affected); a NIK or number held by another row breaks
        a UNIQUE constraint. */
    method Update(p: Patient, now: Time) returns (stamped: Patient, err: Option<Error>)
      requires Valid()
      modifies this
      ensures Valid()
      ensures stamped == p.(UpdatedAt := now)
      ensures ids == old(ids)
      ensures p.ID !in old(rows) ==> err == Some(PatientNotFound) && rows == old(rows)
      ensures p.ID in old(rows) ==> err == UpdateConflict(old(rows), stamped)
      ensures p.ID in old(rows) && err.None? ==>
                rows == old(rows)[p.ID := ApplyUpdate(old(rows)[p.ID], stamped)]
      ensures err.Some? ==> rows == old(rows)
    {
      stamped := p.(UpdatedAt := now);
      if p.ID !in rows {
        err := Some(PatientNotFound);
        return;
      }
      err := UpdateConflict(rows, stamped);
      if err.None? {
        rows := rows[p.ID := ApplyUpdate(rows[p.ID], stamped)];
      }
    }

    /** `Delete`: a soft delete. The row with the id, active or not, is
        marked inactive with a fresh updated_at and stays in the table. */
    method Delete(id: string, now: Time) returns (err: Option<Error>)
      requires Valid()
      modifies this
      ensures Valid()
      ensures ids == old(ids)
      ensures id !in old(rows) ==> err == Some(PatientNotFound) && rows == old(rows)
      ensures id in old(rows) ==>
                err == None && rows == old(rows)[id := old(rows)[id].(IsActive := false, UpdatedAt := now)]
    {
      if id !in rows {
        err := Some(PatientNotFound);
        return;
      }
      rows := rows[id := rows[id].(IsActive := false, UpdatedAt := now)];
      err := None;
    }

    /** `Exists`: whether an active row has the id. */
    method Exists(id: string) returns (b: bool)
      ensures b <==> ActiveId(rows, id)
    {
      b := id in rows && rows[id].IsActive;
    }

    /** The scan of `List`: the active rows satisfying the WHERE clause
        built from the filter, in table order. */
    method CollectMatching(f: PatientFilter) returns (matching: seq<Patient>)
      requires Valid()
      ensures matching == MatchingRows(rows, ids, f)
    {
      var where := BuildWhere(f);
      matching := [];
      var i := 0;
      while i < |ids|
        invariant 0 <= i <= |ids|
        invariant matching == MatchingRows(rows, ids[..i], f)
      {
        var row := rows[ids[i]];
        WhereMeansFilter(f, row);
        MatchingRowsStep(rows, ids, i, f);
        assert row.IsActive && AllHold(where, row) <==> Qualifies(rows, ids[i], f);
        if row.IsActive && AllHold(where, row) {
          matching := matching + [row];
        }
        i := i + 1;
      }
      assert ids[..|ids|] == ids;
    }

    /** `List`: counts the matching active rows, orders them and takes the
        page window. */
    method List(f: PatientFilter) returns (r: Result<ListPage>)
      requires Valid()
      ensures r == ListSpec(rows, ids, f)
    {
      var matching := CollectMatching(f);
      var total := |matching|;
      var ordering := OrderingOf(f.Sort, f.Order);
      if ordering.Err? {
        return Err(ordering.error);
      }
      if f.Page < 1 || f.Limit < 1 {
        return Err(QueryFailed("invalid OFFSET or FETCH count"));
      }
      var sorted := SortRows(matching, ordering.value);
      var patients := TakeWindow(sorted, PageOffset(f.Page, f.Limit), f.Limit);
      r := Ok(ListPage(patients, total));
    }
  }
}
