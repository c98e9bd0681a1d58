/** The patient record, the list filter and the error values of the
    patient service (internal/domain/patient.go and internal/domain/errors.go). */
module Domain {

  /** An instant. Go's `time.Time` is modelled as an integer count of
      time units; the zero value of `time.Time` is the instant 0. */
  type Time = int

  const ZeroTime: Time := 0

  datatype Option<+T> = None | Some(value: T)

  /** The stored patient record: 20 content columns, the active flag and
      four audit columns. */
  datatype Patient = Patient(
    ID: string,
    MedicalRecordNo: string,
    NIK: string,
    FirstName: string,
    LastName: string,
    DateOfBirth: Time,
    Gender: string,
    BloodType: string,
    Phone: string,
    Email: string,
    Address: string,
    City: string,
    Province: string,
    PostalCode: string,
    EmergencyContact: string,
    EmergencyPhone: string,
    InsuranceProvider: string,
    InsuranceNumber: string,
    Allergies: string,
    ChronicConditions: string,
    IsActive: bool,
    CreatedAt: Time,
    UpdatedAt: Time,
    CreatedBy: string,
    UpdatedBy: string)

  /** The zero value of `domain.Patient`: every string empty, every time
      zero, not active. */
  const ZeroPatient: Patient :=
    Patient("", "", "", "", "", ZeroTime, "", "", "", "", "", "", "", "",
            "", "", "", "", "", "", false, ZeroTime, ZeroTime, "", "")

  /** `domain.PatientFilter`; the optional `IsActive` (a `*bool`) is an Option. */
  datatype PatientFilter = PatientFilter(
    Search: string,
    City: string,
    Province: string,
    IsActive: Option<bool>,
    Page: int,
    Limit: int,
    Sort: string,
    Order: string)

  datatype CustomError = CustomError(Code: string, Message: string, Details: string)

  /** The errors the core can return: the sentinel errors of errors.go, a
      CustomError, the two kinds of store failure the model distinguishes,
      and an error wrapped with a context prefix (`fmt.Errorf("...: %w")`). */
  datatype Error =
    | PatientNotFound
    | PatientAlreadyExists
    | InvalidPatientData
    | InvalidInput
    | Unauthorized
    | Forbidden
    | InternalServerError
    | Custom(custom: CustomError)
    | UniqueViolation(column: string)
    | QueryFailed(reason: string)
    | Wrapped(context: string, cause: Error)

  datatype Result<+T> = Ok(value: T) | Err(error: Error)

  /** `NewCustomError` with empty details, as every call in the service has it. */
  function NewCustomError(code: string, message: string): CustomError
  {
    CustomError(code, message, "")
  }
}
