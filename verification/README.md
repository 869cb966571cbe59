# Patients, doctors and their assignments: a Dafny model

This project models the decision logic of a small Django REST service. Users own patients. Doctors are shared. A patient's owner assigns doctors to the patient through mapping rows, and removing an assignment is a soft delete: the row's `is_active` flag goes to false and the row stays.

The model covers:

- **Entities** (`models.dfy`, module `Models`): the patient, doctor, mapping and user rows, their field constraints, and the storage invariant `Consistent`. That invariant covers valid ages and experience, non-blank required fields, references between rows, and the `unique_together` constraint on (patient, doctor), which ignores `is_active`. The module also has the cascading deletes and the `__str__` renderings.
- **Object permissions** (`permissions.dfy`): `IsOwnerOrReadOnly` and `IsPatientOwner` as boolean functions of the request and the object. Python's `hasattr` is modelled by optional attributes.
- **Serializers** (`serializers.dfy`): field-level checks first, then the validator DRF generates for `unique_together`, then each `validate()`. Also the rows that `create()` builds, the email normalization of `create_user`, and the derived `patient_count`.
- **Views** (`views.dfy`): the caller-scoped querysets, the retrieve-by-patient view, the lookup done by `destroy`, and the full path of a new mapping (field checks, the generated uniqueness validator, `validate()`, then the insert under the uniqueness constraint).
- **Store** (`storage.dfy`, class `Storage.Store`): the four tables as maps from id to row, with the operations that change them. Each operation keeps `Valid()` and is specified by the functions above.
- **Text helpers** (`text.dfy`) and the error vocabulary (`results.dfy`).

Field-level checks follow DRF's defaults for the fields the serializers declare or generate. A required text field refuses a value that is missing or blank once stripped of surrounding whitespace. It then keeps the stripped value, and `min_length` is checked on that value. A model field with `blank=True` is optional and may be blank. Every text field, optional or not, refuses a value holding the character U+0000. One consequence: the login fields refuse a missing or blank username or password before `validate()` runs, so "Must provide username and password" (`api/serializers.py:40`) is never returned (`Serializers.MissingCredentialsUnreachable`).

One behaviour the model makes explicit concerns duplicate assignments. The `unique_together` constraint on (patient, doctor) (`api/models.py:54`) counts every stored row, active or not. The serializer's own duplicate check (`api/serializers.py:79`) looks only at active rows. DRF turns `unique_together` into a validator that runs before `validate()`. So a request whose pair is already stored, active or not, is refused with "The fields patient, doctor must make a unique set.". As a result, the create path never returns "This doctor is already assigned to this patient", and its insert never fails (`Views.GeneratedValidatorDecidesDuplicates`). After a soft delete, re-assigning the same doctor to the same patient would pass `validate()` alone and would then be refused by the insert. The generated validator refuses it first. See `Views.ReassignAfterSoftDeleteRefused` and `Storage.ReassignScenario`.

Errors are values: `ValidationError` carries the `validate()` message (`Results.Message` gives the source's text), `FieldErrors` names the fields that field-level validation refused, `NotFound` is `get_object_or_404`, and `IntegrityError` is a refused insert. `PairNotUnique` is the refusal of the validator generated for `unique_together`.

## Model

| member | source | states |
|---|---|---|
| `Results.Message` | api/serializers.py:16-83 | each validation failure carries the source's message text; a pair refused by the validator generated for `unique_together` carries DRF's "must make a unique set" text |
| `Text.Lower` | api/views.py:86 | lower-casing keeps the length and lower-cases each character |
| `Text.ContainsIffOccurs` | api/views.py:84 | the substring scan used for `icontains` is true exactly when the needle occurs at some position |
| `Text.NatToString` | api/models.py:26 | the decimal rendering is a non-empty string of digits with no leading zero (except for 0) |
| `Text.IntToString` | api/models.py:26 | a negative value renders as a minus sign followed by digits |
| `Text.DecimalRoundTrip` | api/models.py:26 | reading back the rendered digits gives the number |
| `Text.Trim` | api/serializers.py:7-8 | stripping never lengthens a value, gives the empty string exactly when the value is all whitespace, and otherwise leaves no whitespace at either end |
| `Text.TrimIsInfix` | api/serializers.py:7-8 | stripping removes whitespace only, and only from the two ends: the result sits in the value between a whitespace prefix and a whitespace suffix |
| `Text.TrimIdempotent` | api/serializers.py:7-8 | stripping a stripped value changes nothing |
| `Text.LastIndexOf` | api/serializers.py:21 | the position found holds the character and no later position does; -1 means no position does |
| `Models.ParseGender` | api/models.py:6-13 | only `M`, `F` and `O` are accepted, and an accepted code is the stored code of the gender returned |
| `Models.GenderRoundTrip` | api/models.py:6-10 | every gender's stored code parses back to that gender |
| `Models.ValidPatient` | api/models.py:11-13 | a stored patient has an age within 0..150 and a non-blank name |
| `Models.ValidDoctor` | api/models.py:29-35 | a stored doctor has non-negative experience and none of its required text fields blank |
| `Models.Consistent` | api/models.py:47-54 | every stored patient and doctor is valid, every patient's owner and every mapping's patient and doctor exist, and no (patient, doctor) pair is stored twice, active or not |
| `Models.InsertMapping` | api/models.py:53-54 | the insert is refused with an integrity error exactly when some row, active or not, has the same (patient, doctor) pair; a successful insert adds only the new row and keeps pairs unique |
| `Models.WithoutReferences` | api/models.py:47-48 | the surviving mapping rows are exactly those that reference none of the deleted patients and doctors, and they are unchanged |
| `Models.DeletePatient` | api/models.py:47 | deleting a patient removes it and every mapping that references it, keeps every other row, and keeps the store consistent |
| `Models.DeleteDoctor` | api/models.py:48 | deleting a doctor removes it and every mapping that references it, keeps every other row, and keeps the store consistent |
| `Models.DeleteUser` | api/models.py:18 | deleting a user removes the user's patients and their mappings, keeps every other row, and keeps the store consistent |
| `Models.PatientStr` | api/models.py:25-26 | a patient renders as its name, ` (Age: `, the decimal rendering of its age, then `)` |
| `Models.PatientStrShowsAge` | api/models.py:25-26 | a valid patient renders as its name, then ` (Age: `, then digits that read back as the age, then `)` |
| `Models.DoctorStr` | api/models.py:43-44 | a doctor renders as `Dr. `, the name, ` - `, then the specialization |
| `Models.MappingStr` | api/models.py:57-58 | a mapping renders as the patient's name, ` -> Dr. `, then the doctor's name |
| `Permissions.IsOwnerOrReadOnly` | api/permissions.py:3-7 | safe methods are always permitted; any other method is permitted exactly when the owner is the caller |
| `Permissions.IsPatientOwner` | api/permissions.py:9-15 | an object with `created_by` is judged by it alone; otherwise by its patient's `created_by`; an object with neither is refused |
| `Permissions.IsPatientOwnerIsOwnerPolicy` | api/permissions.py:9-15 | `IsPatientOwner` permits exactly the owner derived from the object, and the method plays no part |
| `Permissions.CreatedByDecidesFirst` | api/permissions.py:11-14 | an object with both `created_by` and `patient` is judged only by `created_by` |
| `Permissions.PatientRulesAgreeOnWrites` | api/permissions.py:3-15 | on a patient the two rules agree for unsafe methods, and `IsPatientOwner` permits nothing `IsOwnerOrReadOnly` refuses |
| `Serializers.RegistrationFieldErrors` | api/serializers.py:6-12 | the username is refused exactly when it is missing, blank once stripped, holds U+0000, or is taken; the password exactly when it is missing, shorter than 8 characters once stripped, or holds U+0000; the confirmation exactly when it is missing, blank or holds U+0000; email and names exactly when they hold U+0000 |
| `Serializers.ValidateRegistration` | api/serializers.py:14-17 | registration attributes pass exactly when password and confirmation match, and come back unchanged; otherwise "Passwords don't match" |
| `Serializers.CheckRegistration` | api/serializers.py:6-17 | a registration is accepted exactly when every field check passes and the stripped password equals the stripped confirmation; the accepted fields are the stripped values; field errors take precedence over "Passwords don't match" |
| `Serializers.MismatchOnlyAfterFieldChecks` | api/serializers.py:14-17 | "Passwords don't match" is reported only when both passwords were given, neither is blank, and they differ once stripped |
| `Serializers.WhitespacePasswordRefused` | api/serializers.py:7 | a password of whitespace only is refused by the password field, whatever its length |
| `Serializers.LowerDomain` | api/serializers.py:21 | the length and everything up to the last `@` are kept, and each character after it is lower-cased; an address without `@` is kept |
| `Serializers.LowerDomainIdempotent` | api/serializers.py:21 | lower-casing the domain twice is lower-casing it once |
| `Serializers.NormalizeEmail` | api/serializers.py:21 | an address whose stripped form has no `@` is kept as given; otherwise the result is the stripped address with the part after the last `@` lower-cased |
| `Serializers.NormalizeEmailIdempotent` | api/serializers.py:21 | normalizing a normalized address changes nothing |
| `Serializers.NewUser` | api/serializers.py:19-22 | the created account is active and carries the username, names and password of the validated registration, and its email normalized |
| `Serializers.NewUserIgnoresConfirm` | api/serializers.py:20-21 | the confirmation field has no effect on the created account |
| `Serializers.ValidateLogin` | api/serializers.py:28-41 | missing or empty credentials fail first; then an unknown login gives "Invalid credentials", a disabled account "User account is disabled", and success returns the input with the authenticated user added |
| `Serializers.DisabledOnlyWithValidCredentials` | api/serializers.py:33-37 | "User account is disabled" is reported only after the credential check accepted the login |
| `Serializers.LoginFieldErrors` | api/serializers.py:24-26 | each login field is refused exactly when it is missing, blank once stripped, or holds U+0000 |
| `Serializers.CheckLogin` | api/serializers.py:24-41 | field errors come first; otherwise `authenticate` receives the stripped values, and its answer alone decides between "Invalid credentials", "User account is disabled" and success; success returns the stripped values with that user |
| `Serializers.MissingCredentialsUnreachable` | api/serializers.py:39-40 | a login request never gets "Must provide username and password" |
| `Serializers.PatientFieldErrors` | api/models.py:11-17 | the name is refused exactly when it is missing, blank or holds U+0000; the age exactly when it is missing or outside 0..150; the gender exactly when it is missing or not a choice; each optional text field exactly when it holds U+0000 |
| `Serializers.CreatePatientRow` | api/serializers.py:43-53 | a patient is created exactly when no field is refused; the row is valid, its text fields are the stripped input, age and gender are as sent, and `created_by` is the requester |
| `Serializers.CreatedByNeverFromInput` | api/serializers.py:44-52 | a `created_by` value sent by the client has no effect on the created row |
| `Serializers.DoctorFieldErrors` | api/models.py:29-35 | each text field is refused exactly when it is missing, blank once stripped, or holds U+0000; `consultation_fee` exactly when it is missing or blank; `experience_years` exactly when it is missing or negative (its upper bound is under Left out) |
| `Serializers.CreateDoctorRow` | api/models.py:29-36 | a doctor is created exactly when no field is refused; the row is valid, its text fields are the stripped input, `experience_years` is as sent, and `is_available` defaults to true |
| `Serializers.ActiveAssignments` | api/serializers.py:64 | the doctor's active mappings are exactly the rows that reference the doctor and are active |
| `Serializers.PatientCount` | api/serializers.py:63-64 | `patient_count` is zero exactly when the doctor has no active mapping, and never exceeds the number of rows |
| `Serializers.PatientCountCountsPatients` | api/serializers.py:63-64 | with unique pairs, `patient_count` equals the number of distinct patients actively assigned to the doctor |
| `Serializers.MappingFieldErrors` | api/models.py:47-50 | the patient and doctor fields are refused exactly when they name no existing row, and the notes exactly when they hold U+0000 |
| `Serializers.UniqueTogetherCheck` | api/models.py:54 | the validator generated for `unique_together` refuses exactly the pairs some stored row holds, active or not, with the unique-set message |
| `Serializers.ActiveDuplicateIsStoredPair` | api/serializers.py:79-80 | every pair that `validate()` would call an active duplicate is refused earlier by the generated validator |
| `Serializers.ValidateMapping` | api/serializers.py:76-84 | an active duplicate gives "This doctor is already assigned to this patient"; otherwise a patient of another user gives "You can only assign doctors to your own patients"; otherwise the attributes come back unchanged |
| `Serializers.NewMappingRow` | api/models.py:47-51 | the new row references the requested patient and doctor and is active unless the input says otherwise |
| `Views.PatientQueryset` | api/views.py:68-69 | the patient list holds exactly the caller's patients, unchanged |
| `Views.PatientListsAreDisjoint` | api/views.py:68-69 | no patient appears in the lists of two different users |
| `Views.PatientScopeMatchesPermission` | api/views.py:64-69 | a listed patient passes `IsOwnerOrReadOnly` for every method; another user's patient is missing from the list and refused every unsafe method |
| `Views.DoctorQueryset` | api/views.py:79-87 | the doctor list holds exactly the doctors whose specialization contains a non-empty specialization parameter, ignoring case, and whose availability equals `available.lower() == "true"` for a non-empty available parameter |
| `Views.NoFilterListsAll` | api/views.py:83-86 | absent or empty parameters list every doctor |
| `Views.AvailableOtherThanTrueSelectsUnavailable` | api/views.py:85-86 | any non-empty `available` other than a spelling of "true" lists exactly the unavailable doctors |
| `Views.SpecializationIgnoresCase` | api/views.py:83-84 | lower-casing the specialization parameter does not change the list |
| `Views.MappingQueryset` | api/views.py:93-97 | the mapping list holds exactly the active mappings whose patient the caller owns |
| `Views.MappingListPassesPatientOwner` | api/views.py:89-97 | every listed mapping passes `IsPatientOwner` for the caller, whatever the method |
| `Views.Retrieve` | api/views.py:99-109 | not-found unless the patient exists and belongs to the caller; otherwise that patient and exactly its active mappings |
| `Views.RetrieveWithinMappingList` | api/views.py:99-104 | what retrieve shows is part of the caller's mapping list |
| `Views.DestroyTarget` | api/views.py:112-116 | destroy finds a mapping exactly when it exists and its patient belongs to the caller, whether or not it is active |
| `Views.DestroyTargetIsPatientOwner` | api/views.py:111-116 | the lookup of destroy admits exactly the mappings `IsPatientOwner` admits |
| `Views.SoftDeleted` | api/views.py:117-118 | after destroy the row is still there, inactive, with its patient, doctor and notes; every other row is unchanged |
| `Views.SoftDeleteKeepsConsistency` | api/views.py:117-118 | soft deletion keeps every storage invariant |
| `Views.SoftDeleteAgain` | api/views.py:111-118 | destroy does not look at `is_active`: an inactive mapping is found again, and destroying it again changes nothing |
| `Views.SoftDeleteHidesFromList` | api/views.py:111-118 | after destroy the mapping leaves the caller's list, and no other mapping does |
| `Views.PatientCountAfterSoftDelete` | api/serializers.py:63-64 | `patient_count` drops by one exactly when the destroyed row was an active mapping of that doctor |
| `Views.PatientCountAfterInsert` | api/serializers.py:63-64 | `patient_count` grows by one exactly when the inserted row is an active mapping of that doctor |
| `Views.CreateMappingRows` | api/serializers.py:76-84 | a mapping is created exactly when both rows exist, the notes hold no U+0000, the caller owns the patient and no stored row, active or not, has the pair; the new row is the input with its notes stripped; field errors come first, then a stored pair gets the unique-set message, then a patient of another user gets "You can only assign doctors to your own patients" |
| `Views.CreateMappingKeepsConsistency` | api/models.py:54 | a created mapping keeps every storage invariant |
| `Views.GeneratedValidatorDecidesDuplicates` | api/serializers.py:76-84 | the create path never returns the duplicate message of `validate()` nor an integrity error, and returns "You can only assign doctors to your own patients" only for a pair that is not stored |
| `Views.ActiveDuplicateRefused` | api/serializers.py:79-80 | for an actively assigned pair, `validate()` alone would answer with the duplicate message, but the request is refused first with the unique-set message, or with a notes field error when the notes hold U+0000 |
| `Views.ReassignAfterSoftDeleteRefused` | api/models.py:54 | after destroy, re-assigning the same doctor passes `validate()` and would be refused by the insert; the request is refused with the unique-set message, or with a notes field error when the notes hold U+0000 |
| `Storage.Store.constructor` | api/models.py:5-55 | a new store is empty and valid |
| `Storage.Store.Register` | api/views.py:20-23 | registration adds one active account under a fresh id when the checks pass, and nothing otherwise; usernames stay unique |
| `Storage.Store.CreatePatient` | api/views.py:71-72 | the new patient is stored under a fresh id with the caller as owner, shows in the caller's list and in no other user's list |
| `Storage.Store.CreateDoctor` | api/views.py:74-77 | a valid doctor is stored under a fresh id; an invalid one changes nothing |
| `Storage.Store.CreateMapping` | api/views.py:89-91 | the mapping table changes exactly as the creation path says, under a fresh id, and stays consistent |
| `Storage.Store.SoftDelete` | api/views.py:111-118 | not-found unless the mapping exists and the caller owns its patient; otherwise only that row's `is_active` becomes false |
| `Storage.Store.DestroyPatient` | api/views.py:64-69 | only a patient in the caller's list is deleted, with cascading deletion of its mappings |
| `Storage.Store.DestroyDoctor` | api/views.py:74-87 | only a doctor in the list selected by the request's `specialization` and `available` parameters is deleted, with cascading deletion of its mappings; otherwise not-found and nothing changes |
| `Storage.Store.DeleteUserAccount` | api/models.py:18 | deleting an account cascades to its patients and their mappings |
| `Storage.ReassignScenario` | api/models.py:54 | assign, assign again, destroy, assign a third time: the destroy succeeds, and the second and third attempts are both refused with the unique-set message |

## Left out

- Token issuance (`RefreshToken.for_user` in `RegisterView` and `LoginView`) and the response bodies and status codes are not modelled. Handlers return a `Result` or an `Outcome` instead.
- `authenticate` is a parameter of `Serializers.ValidateLogin` and `Serializers.CheckLogin`. Django's default backend already refuses inactive accounts, which would make "User account is disabled" unreachable. That backend behaviour is outside this model.
- Serializers.NewUser: the password is kept as given rather than hashed, and the username is kept without the Unicode NFKC normalization that `create_user` applies. Only the email normalization is modelled.
- Authentication of the caller (`IsAuthenticated`) and DRF's permission dispatch are not modelled. Store methods take the caller's id, and `CreatePatient` requires it to name an existing account.
- Serializers.RegistrationFieldErrors: the username's character set (Django's username validator: letters, digits and `@.+-_`), the email format and the `max_length` limits of username, names and email are not checked.
- Serializers.PatientFieldErrors: the `max_length` limits of name and phone and the email format are not checked.
- Serializers.DoctorFieldErrors: the `max_length` limits, the email format, the decimal format of `consultation_fee` (`max_digits=10`, `decimal_places=2`) and the database integer range of `experience_years` are not checked. Django adds that range to every `IntegerField` as a maximum (2147483647 on PostgreSQL and MySQL, 2^63-1 on SQLite), and DRF refuses a larger value; the database settings are not part of this model, so `experience_years` is only bounded below. The fee is kept as the stripped string sent.
- The parsing of integers and booleans from the request is not modelled: `age`, `experience_years`, `is_available` and `is_active` arrive typed or not at all.
- Timestamps, `assigned_date` and the `ordering` options are not modelled. Lists are maps keyed by id, so they carry no order.
- Concurrency is not modelled: the store handles one request at a time, so the race between two concurrent mapping creations is out of scope.
- Whitespace stripping (`Text.Trim`) removes ASCII whitespace only. Python's `str.strip()` also removes other Unicode whitespace.
- A mapping request that leaves out `patient` or `doctor` is not modelled: `MappingInput` always carries both ids, and `MappingFieldErrors` refuses only ids that name no row.
- Case folding is ASCII only (`Text.Lower`). Python's `str.lower()` and the database's case-insensitive match also fold other letters.
- The update and partial-update endpoints of all three view sets, and patient and doctor retrieval, are not modelled beyond the querysets they use.
- The mapping serializer's denormalized fields (`patient_name`, `doctor_name`, `doctor_specialization`) and the nested doctor in `PatientDoctorListSerializer` are not modelled. `Views.Retrieve` returns the mapping rows themselves.
- `api/admin.py` is not part of this model.
- Views.Retrieve, Views.DestroyTarget and Storage.Store.SoftDelete: primary keys arrive as natural numbers. In the source, a pk that is not an integer (`/mappings/abc/`) reaches `Patient.objects.get` (api/views.py:100) or the mapping lookup (api/views.py:112-116) through Django's `get_object_or_404`, which catches only `DoesNotExist`; the `ValueError` is unhandled and the answer is a server error (500), not the not-found outcome modelled here. The URL configuration is not part of this model, so whether such a pk can reach the views is not decided here.
- Request bodies are JSON-shaped. An omitted optional text field (phone, email, address, medical history, notes, the user's email and names) is the empty string that Django stores for it.
- Serializers.CreateDoctorRow: a doctor is created for any non-negative `experience_years`, including values above the database integer range that the source refuses (see the `Serializers.DoctorFieldErrors` line).
- Serializers.CreateDoctorRow: an omitted `is_available` takes the model default, true, as in a JSON body. In a form-encoded body DRF reads an omitted boolean as false; form-encoded bodies are not modelled.
- Serializers.NewMappingRow: an omitted `is_active` takes the model default, true, as in a JSON body. In a form-encoded body DRF reads an omitted boolean as false; form-encoded bodies are not modelled.
