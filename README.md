# Patient service of hospital-microservices, modelled in Dafny

This project models the patient record lifecycle of the `patient-service`
microservice. It has two layers:

- **The store** (`Repository`): a table of patient rows kept by id, with
  soft deletion. Reads see active rows only. `Update` and `Delete` match any
  row with the id. The UNIQUE constraints on id, NIK and medical record
  number cover every row, deleted ones included.
- **The service** (`Service`): record validation, list-filter defaults,
  medical record number generation, the public view of a record, and the
  create, read, update, delete and list operations over the store.

Around these sit the request tags and the DTO converters (`Request`,
`Response`), the formatting of validation errors (`Utils`), the pure parts
of the list query (`PatientQuery`: WHERE conditions, ORDER BY, stable sort,
page window), and a module (`HandlerPath`) that ties the layers together
along the HTTP path.

Modules and files:

| file | module | models |
|---|---|---|
| domain.dfy | `Domain` | `Patient`, `PatientFilter`, the sentinel and custom errors |
| text.dfy | `Text` | ASCII upper-casing, substring, joining, text order, zero-padded decimals |
| request.dfy | `Request` | request bodies and their `validate` tags as predicates |
| response.dfy | `Response` | response bodies and the three converters |
| utils.dfy | `Utils` | `formatValidationError`, `joinErrors`, `ValidationErrorResponse` |
| query.dfy | `PatientQuery` | WHERE building, filter meaning, ORDER BY, sorting, paging |
| repository.dfy | `Repository` | the store as class `PatientStore` over a map and a scan order |
| service.dfy | `Service` | the business rules and class `PatientService` |
| handler_path.dfy | `HandlerPath` | cross-layer lemmas and worked scenarios |

Modelling choices:

- An instant (`time.Time`) is an integer. Instant 0 is Go's zero time.
- The clock, `uuid.New()` and the date digits are parameters: `now`,
  `newId` and a `Clock` record.
- The table is a `map` from id to row, plus a sequence of ids in insertion
  order, which is the order in which the table is scanned.
- Writes that Go makes into the caller's struct are returned as values:
  `Create` writes the id and timestamps, `Update` writes `UpdatedAt`.
- A UNIQUE violation is the error `UniqueViolation(column)`. An ORDER BY or
  OFFSET/FETCH clause the database would refuse is `QueryFailed`.
- Where the code comments and the code disagree, the model follows the code.
  The code does not make a created record active. An update through the
  HTTP path overwrites the medical record number with an empty one. Both
  are listed under Findings.

## Model

| member | source | states |
|---|---|---|
| Text.Upper | services/patient-service/internal/service/patient_service.go:168 | upper-casing keeps the length and maps each character by the ASCII case rule |
| Text.PadDecimalFacts | services/patient-service/internal/service/patient_service.go:245-247 | a zero-padded decimal has exactly the requested width, only digits, and reads back as the number |
| Text.StrLessTransitive | services/patient-service/internal/repository/patient_repo.go:276-279 | the text order used for ORDER BY on text columns is transitive (with irreflexivity and totality beside it) |
| Request.CreateAndUpdateTagsAgree | services/patient-service/internal/dto/request.go:6-46 | create and update requests with equal fields are accepted by both tag sets or rejected by both |
| Request.CreateRequestRequiredFields | services/patient-service/internal/dto/request.go:7-13 | a tag-valid create request has a 16-character NIK, a first name of 2..100, a non-zero birth date, a phone of 10..20, gender MALE or FEMALE, and an empty or listed blood type |
| Response.ToPatientResponse | services/patient-service/internal/dto/response.go:63-89 | the response carries all 23 shared fields unchanged: adding back the two actor fields restores the record |
| Response.ToPatientDomain | services/patient-service/internal/dto/response.go:91-113 | the 18 request fields are copied, the record is active, and the id, number, timestamps and actors stay empty |
| Response.ToUpdatePatientDomain | services/patient-service/internal/dto/response.go:115-137 | the id and the 18 request fields are copied; the medical record number stays empty and the record is not active |
| Response.ConvertersAgree | services/patient-service/internal/dto/response.go:91-137 | for equal request contents the two converters differ only in the id and the active flag |
| Response.CreatedResponseCarriesRequest | services/patient-service/internal/dto/response.go:63-113 | converting a create request to a record and then to a response reproduces every request field, marked active |
| Response.ResponseIgnoresActors | services/patient-service/internal/dto/response.go:9-33 | the response does not depend on who created or last updated the record |
| Utils.FormatValidationError | services/patient-service/pkg/utils/response.go:50-70 | each message starts with the field name; an unknown tag reads "is invalid"; `required` reads "is required" |
| Utils.JoinErrors | services/patient-service/pkg/utils/response.go:72-81 | the accumulating loop returns the messages joined by "; " |
| Utils.FormatAll | services/patient-service/pkg/utils/response.go:35-39 | one formatted message per field error, in order |
| Utils.ValidationErrorDetail | services/patient-service/pkg/utils/response.go:31-48 | code VALIDATION_ERROR, message "Validation failed", and details that are the in-order join of the formatted field errors, or empty for any other error |
| Utils.JoinEmptyAndSingle | services/patient-service/pkg/utils/response.go:72-81 | no messages join to ""; one message joins to itself |
| Utils.JoinLength | services/patient-service/pkg/utils/response.go:72-81 | the joined length is the sum of the message lengths plus 2·(n−1) |
| Utils.JoinAppend | services/patient-service/pkg/utils/response.go:72-81 | joining two non-empty lists puts exactly one separator between their joins, so separators sit only between consecutive messages |
| Utils.JoinBoundaries | services/patient-service/pkg/utils/response.go:72-81 | the join starts with the first message and ends with the last: no leading or trailing separator |
| PatientQuery.BuildWhere | services/patient-service/internal/repository/patient_repo.go:235-261 | the appending code with its running placeholder counter builds exactly the declarative condition list |
| PatientQuery.WhereOf | services/patient-service/internal/repository/patient_repo.go:235-261 | at most three conditions, as many arguments as conditions, placeholders numbered 1, 2, 3 in order |
| PatientQuery.WhereIgnoresIsActive | services/patient-service/internal/repository/patient_repo.go:235-265 | the filter's IsActive field never changes the WHERE clause |
| PatientQuery.WhereMeansFilter | services/patient-service/internal/repository/patient_repo.go:239-265 | a row satisfies every built condition exactly when it matches the search, city and province given in the filter |
| PatientQuery.OrderingOf | services/patient-service/internal/repository/patient_repo.go:275-279 | no sort means created_at descending; a known column with DESC or ASC sorts by that column that way; an unknown column fails |
| PatientQuery.BeforeStrict | services/patient-service/internal/repository/patient_repo.go:275-279 | the row order of an ORDER BY is irreflexive and transitive |
| PatientQuery.SortRows | services/patient-service/internal/repository/patient_repo.go:275-279 | the sorted rows are a permutation of the matching rows and are in the requested ORDER BY order |
| PatientQuery.Window | services/patient-service/internal/repository/patient_repo.go:281-283 | OFFSET/FETCH returns at most `limit` rows: the slice from the offset, or nothing past the end |
| Repository.InsertConflict | services/patient-service/internal/database/connection.go:52-54 | an insert collides exactly when the id is taken or any row, active or not, holds the NIK or the medical record number |
| Repository.UpdateConflict | services/patient-service/internal/database/connection.go:53-54 | an update collides exactly when another row, active or not, holds the new NIK or number |
| Repository.ApplyUpdate | services/patient-service/internal/repository/patient_repo.go:159-184 | the updated row takes every input column except id, is_active, created_at and created_by, which keep the stored values |
| Repository.MatchingIdsMembers | services/patient-service/internal/repository/patient_repo.go:239-273 | the ids the scan keeps are exactly the scanned ids whose rows are active and match the filter |
| Repository.MatchingRowsCount | services/patient-service/internal/repository/patient_repo.go:267-273 | over distinct ids the scan keeps one row per kept id, so the count query and the row scan agree |
| Repository.WindowOfSorted | services/patient-service/internal/repository/patient_repo.go:281-283 | a page of ordered rows is ordered and holds only those rows |
| Repository.ListSpecFacts | services/patient-service/internal/repository/patient_repo.go:233-322 | with a readable ORDER BY and page and limit at least 1 the list succeeds; it counts every active matching row before paging, and every returned row is an active matching row of the table, in the requested order |
| Repository.ListSpec | services/patient-service/internal/repository/patient_repo.go:233-322 | listing fails exactly when the ORDER BY cannot be read (with that error) or page or limit is below 1; a page holds at most Limit rows and the total is not negative |
| Repository.TakeWindow | services/patient-service/internal/repository/patient_repo.go:281-283 | the row-by-row copy returns exactly the OFFSET/FETCH window |
| Repository.PatientStore.Create | services/patient-service/internal/repository/patient_repo.go:25-58 | the row gets the fresh id and both timestamps and keeps every other field, IsActive included; a collision leaves the table unchanged; the table stays keyed and unique |
| Repository.PatientStore.GetByID | services/patient-service/internal/repository/patient_repo.go:61-91 | found exactly when an active row has the id, returning that row; otherwise not found |
| Repository.PatientStore.FindActive | services/patient-service/internal/repository/patient_repo.go:93-155 | the scan finds a row exactly when an active row holds the key value, and returns that row |
| Repository.PatientStore.GetByNIK | services/patient-service/internal/repository/patient_repo.go:93-123 | found exactly when an active row holds the NIK; otherwise not found |
| Repository.PatientStore.GetByMedicalRecordNo | services/patient-service/internal/repository/patient_repo.go:125-155 | found exactly when an active row holds the number; otherwise not found |
| Repository.PatientStore.Update | services/patient-service/internal/repository/patient_repo.go:157-210 | an unknown id is not found; otherwise the row with the id, active or not, is overwritten as `ApplyUpdate` says and other rows are untouched, unless a constraint breaks |
| Repository.PatientStore.Delete | services/patient-service/internal/repository/patient_repo.go:212-231 | an unknown id is not found; otherwise only is_active and updated_at of that row change and the row stays |
| Repository.PatientStore.Exists | services/patient-service/internal/repository/patient_repo.go:324-334 | true exactly when an active row has the id |
| Repository.PatientStore.CollectMatching | services/patient-service/internal/repository/patient_repo.go:239-273 | the scan keeps the active rows that satisfy the built WHERE clause, in table order |
| Repository.PatientStore.List | services/patient-service/internal/repository/patient_repo.go:233-322 | the result is the total and page that `ListSpec` describes, and `ListSpecFacts` gives its properties |
| Service.ValidatePatient | services/patient-service/internal/service/patient_service.go:201-241 | a record that passes validation breaks none of the seven rules |
| Service.ValidationReportsFirstBroken | services/patient-service/internal/service/patient_service.go:201-241 | a rejected record is rejected with the error of the first rule it breaks, in the order NIK, name, birth date present, birth date not in the future, gender, phone, blood type |
| Service.ValidationAcceptsExactly | services/patient-service/internal/service/patient_service.go:201-241 | validation passes exactly when no rule is broken |
| Service.ValidationReadsRuleFieldsOnly | services/patient-service/internal/service/patient_service.go:201-241 | records that agree on NIK, first name, birth date, gender, phone and blood type validate alike |
| Service.Normalized | services/patient-service/internal/service/patient_service.go:134-171 | Page ≥ 1, 1 ≤ Limit ≤ 100, Sort allow-listed, Order ASC or DESC; in-range values survive, Page ≤ 0 becomes 1, Limit ≤ 0 becomes 10, Limit > 100 becomes 100, a sort field outside the allow-list becomes "created_at", "asc" becomes ASC; search, city, province and IsActive pass through |
| Service.NormalizeIdempotent | services/patient-service/internal/service/patient_service.go:136-171 | normalising a normalised filter changes nothing |
| Service.NormalizedListNeverFails | services/patient-service/internal/service/patient_service.go:154-173 | after the allow-list the store's ORDER BY and page window are always accepted |
| Service.GenerateMedicalRecordNo | services/patient-service/internal/service/patient_service.go:243-248 | the number has 17 characters, starts with "RM-" and has '-' after the date |
| Service.MedicalRecordNoFormat | services/patient-service/internal/service/patient_service.go:243-248 | the number is "RM-", eight date digits, "-", five digits: 17 characters whose digit groups read back as year, month, day and nanoseconds mod 100000 |
| Service.MedicalRecordNoCollision | services/patient-service/internal/service/patient_service.go:243-248 | two readings give the same number exactly when the date and the nanosecond suffix agree |
| Service.PublicInfo | services/patient-service/internal/service/patient_service.go:186-194 | the view has the five public fields of the record and every other field at its zero value |
| Service.PublicInfoHidesTheRest | services/patient-service/internal/service/patient_service.go:186-194 | records that agree on the public fields have the same view, whatever their sensitive fields |
| Service.PublicInfoIdempotent | services/patient-service/internal/service/patient_service.go:186-194 | the view of a view is the view |
| Service.LookupReturn | services/patient-service/internal/repository/patient_repo.go:118-122 | `GetByNIK` returns no record only for "no row"; a found row comes back without an error, and a failed query comes back as the empty record together with the error |
| Service.CreatePreCheckAsWritten | services/patient-service/internal/service/patient_service.go:31-35 | as written, the create pre-check answers PATIENT_EXISTS for a found row and for a failed lookup alike |
| Service.UpdateNikCheckAsWritten | services/patient-service/internal/service/patient_service.go:99-104 | as written, the update NIK check answers NIK_EXISTS for a row of another patient and for a failed lookup alike |
| Service.FailedLookupReadsAsTaken | services/patient-service/internal/service/patient_service.go:31-35 | a failed lookup makes the create answer PATIENT_EXISTS and the update of any patient answer NIK_EXISTS |
| Service.CreatePreCheck | services/patient-service/internal/service/patient_service.go:31-35 | corrected pre-check: PATIENT_EXISTS only for a found row, the query error for a failed lookup, and no error only when no row holds the NIK |
| Service.UpdateNikCheck | services/patient-service/internal/service/patient_service.go:99-104 | corrected NIK check: NIK_EXISTS only for a row of another patient, the query error for a failed lookup |
| Service.PreChecksAgreeWithoutFailure | services/patient-service/internal/service/patient_service.go:31-35 | when the lookup does not fail, the corrected checks answer as the written ones |
| Service.Prepared | services/patient-service/internal/service/patient_service.go:37-40 | the record handed to the store always has a medical record number: the given one, or a generated one when none is given; nothing else changes |
| Service.CreatedRow | services/patient-service/internal/repository/patient_repo.go:25-58 | the inserted row has the fresh id, both timestamps equal to now, the prepared number and the caller's IsActive; every other field is the caller's |
| Service.NikPreCheckMissesDeletedRows | services/patient-service/internal/service/patient_service.go:31-35 | a NIK held only by a deleted row passes the pre-check yet makes the insert collide |
| Service.PatientService.CreatePatient | services/patient-service/internal/service/patient_service.go:25-54 | an invalid record or an active NIK leaves the store unchanged with the rule's error or PATIENT_EXISTS; otherwise the number is generated only when empty, IsActive is kept, a collision is wrapped as "failed to create patient", and success returns the re-read row, which is not found when inactive |
| Service.PatientService.GetPatient | services/patient-service/internal/service/patient_service.go:56-67 | an empty id is invalid input; otherwise found exactly when the id is active |
| Service.PatientService.GetPatientByNIK | services/patient-service/internal/service/patient_service.go:69-80 | an empty NIK is invalid input; otherwise found exactly when an active row holds it |
| Service.PatientService.UpdatePatient | services/patient-service/internal/service/patient_service.go:82-113 | empty id, then absent or inactive id, then validation, then NIK_EXISTS only for a changed NIK held by another active row; then the store update, with the number written as given; every error leaves the table unchanged |
| Service.PatientService.DeletePatient | services/patient-service/internal/service/patient_service.go:115-132 | an empty id is invalid input; an id with no active row is not found and changes nothing; otherwise a soft delete |
| Service.PatientService.ListPatients | services/patient-service/internal/service/patient_service.go:134-174 | the step-by-step defaults produce `Normalized(f)`, and listing with it always succeeds |
| Service.PatientService.GetPatientPublicInfo | services/patient-service/internal/service/patient_service.go:176-197 | an empty id is invalid input; not found passes through; otherwise the public view of the stored row |
| Service.PatientService.CreateActivePatient | services/patient-service/internal/service/patient_service.go:42-53 | corrected create: never reports not found; a success is the active new row, stored under the fresh id |
| Service.PatientService.UpdatePatientKeepingRecordNo | services/patient-service/internal/service/patient_service.go:82-113 | corrected update: an empty input number keeps the stored one, so it never breaks the number's UNIQUE constraint |
| HandlerPath.OptionSetsAgree | services/patient-service/internal/dto/request.go:11-55 | the tags and the service use the same genders, blood types and sort fields |
| HandlerPath.CreateTagsImplyServiceRules | services/patient-service/internal/dto/request.go:6-25 | a tag-valid create request passes validation exactly when its birth date is not after now, and otherwise fails with the future-date error |
| HandlerPath.UpdateTagsImplyServiceRules | services/patient-service/internal/dto/request.go:27-46 | the same for update requests and their converted records |
| HandlerPath.FilterOf | services/patient-service/internal/handler/patient_handler.go:233-242 | each of the eight query parameters reaches the filter unchanged |
| HandlerPath.WithListDefaults | services/patient-service/internal/handler/patient_handler.go:219-225 | a zero page or limit becomes non-zero; nothing else changes |
| HandlerPath.ValidQueryKeepsPaging | services/patient-service/internal/dto/request.go:53-56 | for a tag-valid query the service keeps page and limit, defaults an empty sort, and maps asc/ASC to ASC and ""/desc/DESC to DESC |
| HandlerPath.TotalPages | services/patient-service/internal/handler/patient_handler.go:257 | the page count is the least number of pages of `limit` rows that hold `total` rows |
| HandlerPath.ListResponseOf | services/patient-service/internal/handler/patient_handler.go:250-267 | the response carries every listed row, in order, as its response form, with the request's page and limit, the total, and a page count that covers the total and no more |
| HandlerPath.ListResponseConsistent | services/patient-service/internal/handler/patient_handler.go:245-269 | for a tag-valid query the list succeeds, the total counts every active matching row, the response holds at most Limit rows, and its page count covers the total |
| HandlerPath.DeleteTwice | services/patient-service/internal/service/patient_service.go:115-132 | for any store, the second delete of an id is not found |
| HandlerPath.ReusedNikConflict | services/patient-service/internal/service/patient_service.go:31-49 | after a soft delete no active row holds the deleted patient's NIK, yet the insert of a record carrying it collides on nik, whether the number was given or generated |
| HandlerPath.ReusedNikScenario | services/patient-service/internal/service/patient_service.go:31-49 | in any store, deleting an active patient and then creating a valid record with its NIK (for example the endpoint's record with no number, given an unused generated number) fails at the insert with a wrapped nik collision, not PATIENT_EXISTS |
| HandlerPath.InactiveCreateScenario | services/patient-service/internal/service/patient_service.go:42-53 | creating an inactive record stores it and then reports not found |
| HandlerPath.ActiveCreateScenario | services/patient-service/internal/service/patient_service.go:42-53 | the corrected create of the same record returns it, active |
| HandlerPath.Resubmitted | services/patient-service/internal/dto/response.go:115-137 | a record resubmitted through the update endpoint keeps its id and NIK but carries an empty medical record number |
| HandlerPath.ClearedRecordNoConflict | services/patient-service/internal/repository/patient_repo.go:157-184 | the first resubmission collides on nothing; once it has blanked its number the second collides with it on medical_record_no |
| HandlerPath.ClearedRecordNoScenario | services/patient-service/internal/dto/response.go:115-137 | in any store without blank numbers, resubmitting two valid active patients unchanged blanks the first number, and the second update fails on the number's UNIQUE constraint |
| HandlerPath.KeptRecordNoScenario | services/patient-service/internal/dto/response.go:115-137 | the same two updates through the corrected update both succeed and keep their numbers |
| Service.KeptRecordNoConflict | services/patient-service/internal/repository/patient_repo.go:157-184 | an update that keeps the row's own number never collides on it, and collides on nothing when no other row holds its NIK |

## Left out

- SQL text and the driver: query strings, placeholder rendering, `Scan` and connections are not modelled. The table is an in-memory map; the WHERE clause is modelled as its list of conditions and arguments.
- Store failures other than constraint and clause errors, such as a lost connection, a scan error or a failed row count: `PatientStore` never fails that way, so `PatientService` cannot show what a failed lookup does. The NIK pre-checks read such a failure as a taken NIK; that is modelled on its own by `Service.LookupReturn` and the pre-check functions, and is listed under Findings.
- `uuid.New()` and `time.Now()` are parameters. CreatedAt and UpdatedAt come from two separate clock reads in Go but are equal here. The date digits and the nanosecond count are not tied to `now`.
- Service.GenerateMedicalRecordNo: requires a year of at most four digits and a non-negative nanosecond count. For a clock before 1970, Go's `%05d` of a negative remainder prints a minus sign; that case is not modelled.
- The HTTP handlers are modelled only as far as `HandlerPath` needs: the list defaults, the filter built from the query, and the page count. Parsing, status codes, JWT lookup, `SuccessResponse`, `ErrorResponse`, `cmd/main.go`, middleware, configuration and the validator wrapper are not modelled.
- The validator library: `Request.EmailShape` reduces the email grammar to an '@' with text on both sides. The list of field errors the validator produces is an input to `Utils`.
- Concurrency: each operation is atomic. The race between the NIK pre-check and the insert is not modelled.
- Text: only ASCII upper-casing is modelled. Go's `strings.ToUpper` also maps other letters; for example, U+017F becomes 'S'. Lengths count characters, while Go's `len` counts bytes and the validator counts runes; these agree on ASCII text.
- PatientQuery.SearchMatches: LIKE is a case-sensitive substring test, and `%` and `_` inside the search text are literal. The database collation may differ.
- PatientQuery.OrderingOf: reads only the five allow-listed column names (exact case) and ASC/DESC in any case. Any other sort text given straight to the store is a query failure, although the database would accept other column names.
- PatientQuery.SortRows: rows with equal keys keep table order, where the database leaves their order unspecified. Text compares by code point, not by the database collation.
- HandlerPath.TotalPages: uses integer ceiling division instead of float `math.Ceil`; the two agree for totals below 2^53.
- Integer widths: Go's 64-bit `int`, including a possible overflow of (Page−1)·Limit, is not modelled. After the defaults, Limit is at most 100.
- Column widths such as NVARCHAR(16) are not enforced by the store.
- Repository.InsertConflict, Repository.UpdateConflict, Repository.PatientStore.FindActive and PatientQuery.MatchesFilter compare text exactly. SQL Server's default collation ignores case and trailing spaces in `=` and in UNIQUE constraints, so the database finds and refuses more than the model does.
- Service.PatientService.CreatePatient and Service.PatientService.UpdatePatient return the stored row exactly as written. The database stores date_of_birth as DATE and the timestamps as DATETIME2, so the row read back may have a truncated birth date and rounded timestamps.
- The mock repository of the service tests is not modelled; it hard-deletes and ignores filters.

## Findings

| source | as written | input that shows it | evidently intended | confidence | as-written member | corrected member |
|---|---|---|---|---|---|---|
| services/patient-service/internal/service/patient_service.go:42-53 | the "set default values" step assigns true only when IsActive is already true, so an inactive record is inserted inactive and the read-back by id, which sees active rows only, fails | a valid record with IsActive false on an empty store: the row is stored and the call returns PatientNotFound | a created patient is active and is returned | not executed; the HTTP create path always sets IsActive, so only other callers of the service reach it | HandlerPath.InactiveCreateScenario | Service.PatientService.CreateActivePatient |
| services/patient-service/internal/dto/response.go:115-137 | the update converter leaves the medical record number empty and the store writes that column, so every update through the endpoint blanks the number | any store without blank numbers holding two active patients with valid records, each resubmitted unchanged through the endpoint: the first loses its number, the second fails with "failed to update patient" on the number's UNIQUE constraint | an update keeps the stored medical record number | not executed; the collision relies on the UNIQUE constraint at services/patient-service/internal/database/connection.go:53 treating equal empty strings as duplicates | HandlerPath.ClearedRecordNoScenario | Service.PatientService.UpdatePatientKeepingRecordNo |
| services/patient-service/internal/service/patient_service.go:31-35 | the create pre-check drops the lookup error and tests only for a returned record, and `GetByNIK` (services/patient-service/internal/repository/patient_repo.go:118-122) returns an empty record together with any error other than "no row"; the update NIK check at lines 99-104 does the same | a NIK lookup that fails, for example on a lost connection: the create answers PATIENT_EXISTS, and the update of any patient with a changed NIK answers NIK_EXISTS | a failed lookup is reported as a failure, not as a taken NIK | not executed | Service.FailedLookupReadsAsTaken | Service.CreatePreCheck |
