/** The response bodies and the converters between requests, the domain
    record and responses (internal/dto/response.go). */
module Response {
  import opened Domain
  import opened Request

  /** `PatientResponse`: the record without its two audit-actor fields. */
  datatype PatientResponse = PatientResponse(
    ID: string,
    MedicalRecordNo: string,
    NIK: string,
    FirstName: string,
    LastName: string,
    DateOfBirth: Time,
    Gender: string,
    BloodType: string,
    Phone: string,
    Email: string,
    Address: string,
    City: string,
    Province: string,
    PostalCode: string,
    EmergencyContact: string,
    EmergencyPhone: string,
    InsuranceProvider: string,
    InsuranceNumber: string,
    Allergies: string,
    ChronicConditions: string,
    IsActive: bool,
    CreatedAt: Time,
    UpdatedAt: Time)

  datatype PaginationResponse = PaginationResponse(Page: int, Limit: int, Total: int, TotalPages: int)

  datatype ListPatientsResponse = ListPatientsResponse(Data: seq<PatientResponse>, Pagination: PaginationResponse)

  datatype ErrorDetail = ErrorDetail(Code: string, Message: string, Details: string)

  // ------------------------------------------------- inverse projections

  /** The record a response was made from, given the two fields a response
      does not carry. */
  function WithActors(r: PatientResponse, createdBy: string, updatedBy: string): Patient
  {
    Patient(r.ID, r.MedicalRecordNo, r.NIK, r.FirstName, r.LastName, r.DateOfBirth,
      r.Gender, r.BloodType, r.Phone, r.Email, r.Address, r.City, r.Province,
      r.PostalCode, r.EmergencyContact, r.EmergencyPhone, r.InsuranceProvider,
      r.InsuranceNumber, r.Allergies, r.ChronicConditions, r.IsActive,
      r.CreatedAt, r.UpdatedAt, createdBy, updatedBy)
  }

  /** The 18 request fields of a record, read back as a create request. */
  function CreateFieldsOf(p: Patient): CreatePatientRequest
  {
    CreatePatientRequest(p.NIK, p.FirstName, p.LastName, p.DateOfBirth, p.Gender,
      p.BloodType, p.Phone, p.Email, p.Address, p.City, p.Province, p.PostalCode,
      p.EmergencyContact, p.EmergencyPhone, p.InsuranceProvider, p.InsuranceNumber,
      p.Allergies, p.ChronicConditions)
  }

  /** The 18 request fields of a record, read back as an update request. */
  function UpdateFieldsOf(p: Patient): UpdatePatientRequest
  {
    UpdatePatientRequest(p.NIK, p.FirstName, p.LastName, p.DateOfBirth, p.Gender,
      p.BloodType, p.Phone, p.Email, p.Address, p.City, p.Province, p.PostalCode,
      p.EmergencyContact, p.EmergencyPhone, p.InsuranceProvider, p.InsuranceNumber,
      p.Allergies, p.ChronicConditions)
  }

  // ---------------------------------------------------------- converters

  /** `ToPatientResponse`: all 23 shared fields are copied unchanged, so
      adding back the two actor fields restores the record exactly. */
  function ToPatientResponse(p: Patient): (r: PatientResponse)
    ensures WithActors(r, p.CreatedBy, p.UpdatedBy) == p
  {
    PatientResponse(
      p.ID, p.MedicalRecordNo, p.NIK, p.FirstName, p.LastName,
      p.DateOfBirth, p.Gender, p.BloodType, p.Phone, p.Email,
      p.Address, p.City, p.Province, p.PostalCode,
      p.EmergencyContact, p.EmergencyPhone,
      p.InsuranceProvider, p.InsuranceNumber,
      p.Allergies, p.ChronicConditions,
      p.IsActive, p.CreatedAt, p.UpdatedAt)
  }

  /** `ToPatientDomain`: the request fields are copied, the record is
      active, and nothing else is set. */
  function ToPatientDomain(req: CreatePatientRequest): (p: Patient)
    ensures CreateFieldsOf(p) == req
    ensures p.IsActive
    ensures p.ID == "" && p.MedicalRecordNo == ""
    ensures p.CreatedAt == ZeroTime && p.UpdatedAt == ZeroTime
    ensures p.CreatedBy == "" && p.UpdatedBy == ""
  {
    ZeroPatient.(
      NIK := req.NIK,
      FirstName := req.FirstName,
      LastName := req.LastName,
      DateOfBirth := req.DateOfBirth,
      Gender := req.Gender,
      BloodType := req.BloodType,
      Phone := req.Phone,
      Email := req.Email,
      Address := req.Address,
      City := req.City,
      Province := req.Province,
      PostalCode := req.PostalCode,
      EmergencyContact := req.EmergencyContact,
      EmergencyPhone := req.EmergencyPhone,
      InsuranceProvider := req.InsuranceProvider,
      InsuranceNumber := req.InsuranceNumber,
      Allergies := req.Allergies,
      ChronicConditions := req.ChronicConditions,
      IsActive := true)
  }

  /** `ToUpdatePatientDomain`: the id and the request fields are copied;
      the medical record number stays empty and the record is not marked
      active. */
  function ToUpdatePatientDomain(id: string, req: UpdatePatientRequest): (p: Patient)
    ensures UpdateFieldsOf(p) == req
    ensures p.ID == id
    ensures p.MedicalRecordNo == "" && !p.IsActive
    ensures p.CreatedAt == ZeroTime && p.UpdatedAt == ZeroTime
    ensures p.CreatedBy == "" && p.UpdatedBy == ""
  {
    ZeroPatient.(
      ID := id,
      NIK := req.NIK,
      FirstName := req.FirstName,
      LastName := req.LastName,
      DateOfBirth := req.DateOfBirth,
      Gender := req.Gender,
      BloodType := req.BloodType,
      Phone := req.Phone,
      Email := req.Email,
      Address := req.Address,
      City := req.City,
      Province := req.Province,
      PostalCode := req.PostalCode,
      EmergencyContact := req.EmergencyContact,
      EmergencyPhone := req.EmergencyPhone,
      InsuranceProvider := req.InsuranceProvider,
      InsuranceNumber := req.InsuranceNumber,
      Allergies := req.Allergies,
      ChronicConditions := req.ChronicConditions)
  }

  // -------------------------------------------------------------- lemmas

  /** For requests with equal contents the two converters differ only in
      the id and the active flag. */
  lemma ConvertersAgree(req: CreatePatientRequest, id: string)
    ensures ToPatientDomain(req).(ID := id, IsActive := false)
         == ToUpdatePatientDomain(id, AsUpdateRequest(req))
  {
  }

  /** Converting a create request to a record and the record to a response
      reproduces every request field, and the response says active. */
  lemma CreatedResponseCarriesRequest(req: CreatePatientRequest)
    ensures CreateFieldsOf(WithActors(ToPatientResponse(ToPatientDomain(req)), "", "")) == req
    ensures ToPatientResponse(ToPatientDomain(req)).IsActive
  {
  }

  /** The response does not depend on who created or last updated the record. */
  lemma ResponseIgnoresActors(p: Patient, createdBy: string, updatedBy: string)
    ensures ToPatientResponse(p.(CreatedBy := createdBy, UpdatedBy := updatedBy))
         == ToPatientResponse(p)
  {
  }
}
