/** The request bodies and query of the patient endpoints
    (internal/dto/request.go). Their `validate` struct tags are restated as
    predicates built from one small vocabulary of tags. Lengths are counted
    in characters; for ASCII text this is both Go's byte length and the
    validator's rune count. */
module Request {
  import opened Domain

  datatype CreatePatientRequest = CreatePatientRequest(
    NIK: string,
    FirstName: string,
    LastName: string,
    DateOfBirth: Time,
    Gender: string,
    BloodType: string,
    Phone: string,
    Email: string,
    Address: string,
    City: string,
    Province: string,
    PostalCode: string,
    EmergencyContact: string,
    EmergencyPhone: string,
    InsuranceProvider: string,
    InsuranceNumber: string,
    Allergies: string,
    ChronicConditions: string)

  datatype UpdatePatientRequest = UpdatePatientRequest(
    NIK: string,
    FirstName: string,
    LastName: string,
    DateOfBirth: Time,
    Gender: string,
    BloodType: string,
    Phone: string,
    Email: string,
    Address: string,
    City: string,
    Province: string,
    PostalCode: string,
    EmergencyContact: string,
    EmergencyPhone: string,
    InsuranceProvider: string,
    InsuranceNumber: string,
    Allergies: string,
    ChronicConditions: string)

  datatype ListPatientsRequest = ListPatientsRequest(
    Search: string,
    City: string,
    Province: string,
    IsActive: Option<bool>,
    Page: int,
    Limit: int,
    Sort: string,
    Order: string)

  // ------------------------------------------------------ tag vocabulary

  /** `required` on a string: not the zero value. */
  predicate Required(s: string) { s != "" }

  /** `required` on a `time.Time`: not the zero instant. */
  predicate RequiredTime(t: Time) { t != ZeroTime }

  /** `len=n`, `min=n`, `max=n` on a string. */
  predicate Len(s: string, n: nat) { |s| == n }
  predicate Min(s: string, n: nat) { |s| >= n }
  predicate Max(s: string, n: nat) { |s| <= n }

  /** `oneof=...`. */
  predicate OneOf(s: string, options: set<string>) { s in options }

  /** `email`, reduced to its shape: some '@' with text on both sides.
      The validator library's full address grammar is not modelled. */
  predicate EmailShape(s: string)
  {
    exists i | 0 < i < |s| - 1 :: s[i] == '@'
  }

  const GenderOptions: set<string> := {"MALE", "FEMALE"}
  const BloodTypeOptions: set<string> := {"A+", "A-", "B+", "B-", "AB+", "AB-", "O+", "O-"}
  const SortOptions: set<string> := {"created_at", "updated_at", "first_name", "last_name", "nik"}
  const OrderOptions: set<string> := {"ASC", "DESC", "asc", "desc"}

  // -------------------------------------------- the tags of each request

  /** The tags of `CreatePatientRequest`, field by field. */
  predicate CreateRequestValid(r: CreatePatientRequest)
  {
    && Required(r.NIK) && Len(r.NIK, 16)
    && Required(r.FirstName) && Min(r.FirstName, 2) && Max(r.FirstName, 100)
    && Max(r.LastName, 100)
    && RequiredTime(r.DateOfBirth)
    && Required(r.Gender) && OneOf(r.Gender, GenderOptions)
    && (r.BloodType == "" || OneOf(r.BloodType, BloodTypeOptions))
    && Required(r.Phone) && Min(r.Phone, 10) && Max(r.Phone, 20)
    && (r.Email == "" || EmailShape(r.Email))
    && Max(r.Address, 255)
    && Max(r.City, 100)
    && Max(r.Province, 100)
    && Max(r.PostalCode, 10)
    && Max(r.EmergencyContact, 100)
    && Max(r.EmergencyPhone, 20)
    && Max(r.InsuranceProvider, 100)
    && Max(r.InsuranceNumber, 50)
  }

  /** The tags of `UpdatePatientRequest`, field by field. */
  predicate UpdateRequestValid(r: UpdatePatientRequest)
  {
    && Required(r.NIK) && Len(r.NIK, 16)
    && Required(r.FirstName) && Min(r.FirstName, 2) && Max(r.FirstName, 100)
    && Max(r.LastName, 100)
    && RequiredTime(r.DateOfBirth)
    && Required(r.Gender) && OneOf(r.Gender, GenderOptions)
    && (r.BloodType == "" || OneOf(r.BloodType, BloodTypeOptions))
    && Required(r.Phone) && Min(r.Phone, 10) && Max(r.Phone, 20)
    && (r.Email == "" || EmailShape(r.Email))
    && Max(r.Address, 255)
    && Max(r.City, 100)
    && Max(r.Province, 100)
    && Max(r.PostalCode, 10)
    && Max(r.EmergencyContact, 100)
    && Max(r.EmergencyPhone, 20)
    && Max(r.InsuranceProvider, 100)
    && Max(r.InsuranceNumber, 50)
  }

  /** The tags of `ListPatientsRequest`. */
  predicate ListRequestValid(r: ListPatientsRequest)
  {
    && r.Page >= 1
    && 1 <= r.Limit <= 100
    && (r.Sort == "" || OneOf(r.Sort, SortOptions))
    && (r.Order == "" || OneOf(r.Order, OrderOptions))
  }

  /** The update request carrying the same field values as a create request. */
  function AsUpdateRequest(c: CreatePatientRequest): UpdatePatientRequest
  {
    UpdatePatientRequest(c.NIK, c.FirstName, c.LastName, c.DateOfBirth, c.Gender,
      c.BloodType, c.Phone, c.Email, c.Address, c.City, c.Province, c.PostalCode,
      c.EmergencyContact, c.EmergencyPhone, c.InsuranceProvider, c.InsuranceNumber,
      c.Allergies, c.ChronicConditions)
  }

  /** Create and update requests carry the same constraints: equal field
      values are accepted by both tag sets or rejected by both. */
  lemma CreateAndUpdateTagsAgree(c: CreatePatientRequest)
    ensures CreateRequestValid(c) <==> UpdateRequestValid(AsUpdateRequest(c))
  {
  }

  /** What the required tags of a create request guarantee. */
  lemma CreateRequestRequiredFields(r: CreatePatientRequest)
    requires CreateRequestValid(r)
    ensures |r.NIK| == 16
    ensures 2 <= |r.FirstName| <= 100
    ensures r.DateOfBirth != ZeroTime
    ensures 10 <= |r.Phone| <= 20
    ensures r.Gender == "MALE" || r.Gender == "FEMALE"
    ensures r.BloodType == "" || r.BloodType in BloodTypeOptions
  {
  }
}
