/**
 * The serializers: which fields a client may write, the checks made on them
 * (field by field first, then the serializer's validate()), the rows that
 * create() builds, and the derived patient_count of a doctor.
 */
module Serializers {
  import opened Results
  import opened Models
  import Text

  // ---------------------------------------------------------------- field validation

  /**
   * A required CharField refuses a value that is missing, and one that is
   * blank once stripped of surrounding whitespace (allow_blank is false).
   */
  predicate BlankOrMissing(v: Option<string>)
  {
    v.None? || Text.Trim(v.value) == []
  }

  /**
   * The ProhibitNullCharactersValidator every CharField carries: a value
   * holding U+0000 is refused, on fields that may be blank too. Stripping
   * removes whitespace only, so the stripped value holds U+0000 exactly when
   * the value sent does.
   */
  predicate HasNul(s: string)
  {
    '\0' in s
  }

  /** What a required CharField refuses: a missing value, a blank one, and one holding U+0000. */
  predicate CharFieldRefused(v: Option<string>)
  {
    BlankOrMissing(v) || HasNul(v.value)
  }

  // ---------------------------------------------------------------- registration

  /**
   * A registration request as sent. username, password and password_confirm
   * are required and may be left out (None); email, first_name and last_name
   * may be blank, so leaving one out is the same as sending "".
   */
  datatype RegistrationRequest = RegistrationRequest(username: Option<string>, email: string, firstName: string,
                                                     lastName: string, password: Option<string>,
                                                     passwordConfirm: Option<string>)

  /** The validated registration attributes: every field stripped of surrounding whitespace. */
  datatype RegistrationData = RegistrationData(username: string, email: string, firstName: string,
                                               lastName: string, password: string, passwordConfirm: string)

  /** The min_length of the password field. */
  const PasswordMinLength := 8

  predicate UsernameTaken(users: map<UserId, User>, username: string)
  {
    exists id :: id in users && users[id].username == username
  }

  /** The writable fields of a registration. */
  const RegistrationFields: set<string> :=
    {"username", "email", "first_name", "last_name", "password", "password_confirm"}

  /** Whether field-level validation refuses the named field of a registration. */
  predicate RegistrationFieldRefused(users: map<UserId, User>, req: RegistrationRequest, field: string)
  {
    if field == "username" then CharFieldRefused(req.username) || UsernameTaken(users, Text.Trim(req.username.value))
    else if field == "email" then HasNul(req.email)
    else if field == "first_name" then HasNul(req.firstName)
    else if field == "last_name" then HasNul(req.lastName)
    else if field == "password" then
      req.password.None? || |Text.Trim(req.password.value)| < PasswordMinLength || HasNul(req.password.value)
    else CharFieldRefused(req.passwordConfirm)
  }

  /**
   * Field-level validation of a registration. username is required, may not
   * be blank and must be free; password is required and at least 8 characters
   * long once stripped; password_confirm is required and may not be blank.
   * No field may hold U+0000. All offending fields are reported together.
   */
  function RegistrationFieldErrors(users: map<UserId, User>, req: RegistrationRequest): (fields: set<string>)
    ensures "username" in fields <==> CharFieldRefused(req.username) || UsernameTaken(users, Text.Trim(req.username.value))
    ensures "email" in fields <==> HasNul(req.email)
    ensures "first_name" in fields <==> HasNul(req.firstName)
    ensures "last_name" in fields <==> HasNul(req.lastName)
    ensures "password" in fields <==>
              req.password.None? || |Text.Trim(req.password.value)| < PasswordMinLength || HasNul(req.password.value)
    ensures "password_confirm" in fields <==> CharFieldRefused(req.passwordConfirm)
    ensures fields <= RegistrationFields
  {
    set field | field in RegistrationFields && RegistrationFieldRefused(users, req, field)
  }

  /** UserRegistrationSerializer.validate. */
  function ValidateRegistration(data: RegistrationData): (r: Result<RegistrationData>)
    ensures r.Ok? <==> data.password == data.passwordConfirm
    ensures r.Ok? ==> r.value == data
    ensures r.Err? ==> r.error == ValidationError(PasswordsDontMatch)
  {
    if data.password != data.passwordConfirm then Err(ValidationError(PasswordsDontMatch)) else Ok(data)
  }

  /**
   * The whole check of a registration: field-level errors first, then
   * validate() on the stripped values.
   */
  function CheckRegistration(users: map<UserId, User>, req: RegistrationRequest): (r: Result<RegistrationData>)
    ensures r.Ok? <==> && !CharFieldRefused(req.username) && !UsernameTaken(users, Text.Trim(req.username.value))
                       && !HasNul(req.email) && !HasNul(req.firstName) && !HasNul(req.lastName)
                       && req.password.Some? && |Text.Trim(req.password.value)| >= PasswordMinLength
                       && !HasNul(req.password.value) && !CharFieldRefused(req.passwordConfirm)
                       && Text.Trim(req.password.value) == Text.Trim(req.passwordConfirm.value)
    ensures r.Ok? ==> && r.value.username == Text.Trim(req.username.value) && r.value.email == Text.Trim(req.email)
                      && r.value.firstName == Text.Trim(req.firstName) && r.value.lastName == Text.Trim(req.lastName)
                      && r.value.password == Text.Trim(req.password.value)
    ensures RegistrationFieldErrors(users, req) != {} ==> r == Err(FieldErrors(RegistrationFieldErrors(users, req)))
    ensures r.Err? && RegistrationFieldErrors(users, req) == {} ==> r.error == ValidationError(PasswordsDontMatch)
  {
    var fields := RegistrationFieldErrors(users, req);
    if fields != {} then Err(FieldErrors(fields))
    else
      ValidateRegistration(RegistrationData(Text.Trim(req.username.value), Text.Trim(req.email),
                                            Text.Trim(req.firstName), Text.Trim(req.lastName),
                                            Text.Trim(req.password.value), Text.Trim(req.passwordConfirm.value)))
  }

  /**
   * "Passwords don't match" is reported only when both password fields were
   * given, neither is blank, and they still differ once stripped.
   */
  lemma MismatchOnlyAfterFieldChecks(users: map<UserId, User>, req: RegistrationRequest)
    requires CheckRegistration(users, req) == Err(ValidationError(PasswordsDontMatch))
    ensures req.password.Some? && req.passwordConfirm.Some?
    ensures Text.Trim(req.password.value) != [] && Text.Trim(req.passwordConfirm.value) != []
    ensures Text.Trim(req.password.value) != Text.Trim(req.passwordConfirm.value)
  {
  }

  /** A password of whitespace only is refused, whatever its length. */
  lemma WhitespacePasswordRefused(users: map<UserId, User>, req: RegistrationRequest)
    requires req.password.Some? && forall k :: 0 <= k < |req.password.value| ==> Text.IsSpace(req.password.value[k])
    ensures "password" in RegistrationFieldErrors(users, req)
    ensures CheckRegistration(users, req).Err?
  {
  }

  /** The part of an address after its last '@' lower-cased; an address without '@' is kept. */
  function LowerDomain(e: string): (r: string)
    ensures |r| == |e|
    ensures var at := Text.LastIndexOf(e, '@');
      && (forall i :: 0 <= i <= at ==> r[i] == e[i])
      && (forall i :: at < i < |e| ==> r[i] == (if at < 0 then e[i] else Text.LowerChar(e[i])))
  {
    var at := Text.LastIndexOf(e, '@');
    if at < 0 then e else e[..at + 1] + Text.Lower(e[at + 1..])
  }

  /** Lower-casing the domain a second time changes nothing. */
  lemma LowerDomainIdempotent(e: string)
    ensures LowerDomain(LowerDomain(e)) == LowerDomain(e)
  {
    var at := Text.LastIndexOf(e, '@');
    if at >= 0 {
      var r := LowerDomain(e);
      forall j | at < j < |r|
        ensures r[j] != '@'
      {
        LowerCharKeepsClass(e[j]);
      }
      LastIndexOfUnique(r, '@', at);
      var twice := LowerDomain(r);
      assert |twice| == |r|;
      forall i | 0 <= i < |r|
        ensures twice[i] == r[i]
      {
        if i > at {
          assert twice[i] == Text.LowerChar(r[i]);
          LowerCharKeepsClass(e[i]);
        }
      }
    }
  }

  /**
   * UserManager.normalize_email, as create_user applies it: when the stripped
   * address holds an '@', the result is the stripped address with the part
   * after the last '@' lower-cased; an address without '@' is kept exactly
   * as given.
   */
  function NormalizeEmail(email: string): (r: string)
    ensures Text.LastIndexOf(Text.Trim(email), '@') < 0 ==> r == email
    ensures Text.LastIndexOf(Text.Trim(email), '@') >= 0 ==> r == LowerDomain(Text.Trim(email))
  {
    var e := Text.Trim(email);
    if Text.LastIndexOf(e, '@') < 0 then email else LowerDomain(e)
  }

  /** Normalizing an address a second time changes nothing. */
  lemma NormalizeEmailIdempotent(email: string)
    ensures NormalizeEmail(NormalizeEmail(email)) == NormalizeEmail(email)
  {
    var e := Text.Trim(email);
    var at := Text.LastIndexOf(e, '@');
    if at >= 0 {
      var r := LowerDomain(e);
      LowerDomainEnds(e);
      Text.TrimOfTrimmed(r);
      LowerDomainIdempotent(e);
      assert Text.LastIndexOf(r, '@') >= 0 by {
        assert r[at] == '@';
      }
    }
  }

  /** Lower-casing the domain keeps an address's ends free of whitespace. */
  lemma LowerDomainEnds(e: string)
    requires e != [] && !Text.IsSpace(e[0]) && !Text.IsSpace(e[|e| - 1])
    ensures var r := LowerDomain(e);
      r != [] && !Text.IsSpace(r[0]) && !Text.IsSpace(r[|r| - 1])
  {
    LowerCharKeepsClass(e[0]);
    LowerCharKeepsClass(e[|e| - 1]);
  }

  /** Lower-casing neither makes nor unmakes whitespace or an '@'. */
  lemma LowerCharKeepsClass(c: char)
    ensures Text.IsSpace(Text.LowerChar(c)) <==> Text.IsSpace(c)
    ensures Text.LowerChar(c) == '@' <==> c == '@'
    ensures Text.LowerChar(Text.LowerChar(c)) == Text.LowerChar(c)
  {
  }

  /** The last position of c is the only position holding c with no c after it. */
  lemma LastIndexOfUnique(s: string, c: char, k: nat)
    requires k < |s| && s[k] == c
    requires forall j :: k < j < |s| ==> s[j] != c
    ensures Text.LastIndexOf(s, c) == k
  {
  }

  /**
   * UserRegistrationSerializer.create: password_confirm is dropped and
   * create_user makes an active account from the remaining fields, with the
   * email's domain normalized.
   */
  function NewUser(data: RegistrationData): (u: User)
    ensures u.isActive
    ensures u.username == data.username && u.password == data.password
    ensures u.email == NormalizeEmail(data.email)
    ensures u.firstName == data.firstName && u.lastName == data.lastName
  {
    User(data.username, NormalizeEmail(data.email), data.firstName, data.lastName, data.password, true)
  }

  /** The confirmation never reaches the account. */
  lemma NewUserIgnoresConfirm(data: RegistrationData, confirm: string)
    ensures NewUser(data.(passwordConfirm := confirm)) == NewUser(data)
  {
  }

  // ---------------------------------------------------------------- login

  /** The login fields: absent, or the string sent. */
  datatype LoginData = LoginData(username: Option<string>, password: Option<string>)

  /** What authenticate() returns about the account it accepted. */
  datatype AuthUser = AuthUser(id: UserId, isActive: bool)

  /** The validated attributes: the input plus the authenticated user. */
  datatype LoginValidated = LoginValidated(data: LoginData, user: AuthUser)

  /**
   * UserLoginSerializer.validate, on the attributes it is handed. The
   * credential check is the parameter authenticate; it is consulted only
   * when both fields are truthy.
   */
  function ValidateLogin(data: LoginData, authenticate: (string, string) -> Option<AuthUser>): (r: Result<LoginValidated>)
    ensures !(Truthy(data.username) && Truthy(data.password)) ==> r == Err(ValidationError(MissingCredentials))
    ensures Truthy(data.username) && Truthy(data.password) ==>
              var found := authenticate(data.username.value, data.password.value);
              && (found.None? <==> r == Err(ValidationError(InvalidCredentials)))
              && (found.Some? && !found.value.isActive <==> r == Err(ValidationError(AccountDisabled)))
              && (r.Ok? <==> found.Some? && found.value.isActive)
              && (r.Ok? ==> r.value == LoginValidated(data, found.value))
  {
    if Truthy(data.username) && Truthy(data.password) then
      match authenticate(data.username.value, data.password.value)
      case None => Err(ValidationError(InvalidCredentials))
      case Some(user) =>
        if !user.isActive then Err(ValidationError(AccountDisabled))
        else Ok(LoginValidated(data, user))
    else
      Err(ValidationError(MissingCredentials))
  }

  /** A disabled account is reported only once the credentials were accepted. */
  lemma DisabledOnlyWithValidCredentials(data: LoginData, authenticate: (string, string) -> Option<AuthUser>)
    requires ValidateLogin(data, authenticate) == Err(ValidationError(AccountDisabled))
    ensures Truthy(data.username) && Truthy(data.password)
    ensures authenticate(data.username.value, data.password.value).Some?
  {
  }

  /** Field-level validation of a login: both fields are required, may not be blank and may not hold U+0000. */
  function LoginFieldErrors(data: LoginData): (fields: set<string>)
    ensures "username" in fields <==> CharFieldRefused(data.username)
    ensures "password" in fields <==> CharFieldRefused(data.password)
    ensures fields <= {"username", "password"}
  {
    (if CharFieldRefused(data.username) then {"username"} else {})
    + (if CharFieldRefused(data.password) then {"password"} else {})
  }

  /**
   * The whole check of a login: field-level errors first, then validate() on
   * the stripped values, which authenticate receives.
   */
  function CheckLogin(data: LoginData, authenticate: (string, string) -> Option<AuthUser>): (r: Result<LoginValidated>)
    ensures LoginFieldErrors(data) != {} ==> r == Err(FieldErrors(LoginFieldErrors(data)))
    ensures LoginFieldErrors(data) == {} ==>
              var found := authenticate(Text.Trim(data.username.value), Text.Trim(data.password.value));
              && (found.None? <==> r == Err(ValidationError(InvalidCredentials)))
              && (found.Some? && !found.value.isActive <==> r == Err(ValidationError(AccountDisabled)))
              && (r.Ok? <==> found.Some? && found.value.isActive)
              && (r.Ok? ==> r.value.user == found.value)
    ensures r.Ok? ==> r.value.data == LoginData(Some(Text.Trim(data.username.value)), Some(Text.Trim(data.password.value)))
  {
    var fields := LoginFieldErrors(data);
    if fields != {} then Err(FieldErrors(fields))
    else ValidateLogin(LoginData(Some(Text.Trim(data.username.value)), Some(Text.Trim(data.password.value))), authenticate)
  }

  /**
   * Field validation already refuses a missing or blank field, so a login
   * request never gets "Must provide username and password".
   */
  lemma MissingCredentialsUnreachable(data: LoginData, authenticate: (string, string) -> Option<AuthUser>)
    ensures CheckLogin(data, authenticate) != Err(ValidationError(MissingCredentials))
  {
  }

  // ---------------------------------------------------------------- patients

  /**
   * What a client sends to create a patient. name, age and gender are
   * required and may be left out (None); the other text fields may be blank,
   * so leaving one out is the same as sending "". createdBy is whatever the
   * client claims.
   */
  datatype PatientInput = PatientInput(name: Option<string>, age: Option<int>, gender: Option<string>, phone: string,
                                       email: string, address: string, medicalHistory: string,
                                       createdBy: Option<UserId>)

  /** The writable fields of a patient. */
  const PatientFields: set<string> := {"name", "age", "gender", "phone", "email", "address", "medical_history"}

  /** Whether field-level validation refuses the named field of a patient. */
  predicate PatientFieldRefused(input: PatientInput, field: string)
  {
    if field == "name" then CharFieldRefused(input.name)
    else if field == "age" then input.age.None? || !(MinAge <= input.age.value <= MaxAge)
    else if field == "gender" then input.gender.None? || ParseGender(input.gender.value).None?
    else if field == "phone" then HasNul(input.phone)
    else if field == "email" then HasNul(input.email)
    else if field == "address" then HasNul(input.address)
    else HasNul(input.medicalHistory)
  }

  /**
   * Field-level validation of a patient: the non-blank name, the age
   * validators, the gender choices, and no U+0000 in any text field.
   */
  function PatientFieldErrors(input: PatientInput): (fields: set<string>)
    ensures "name" in fields <==> CharFieldRefused(input.name)
    ensures "age" in fields <==> input.age.None? || !(MinAge <= input.age.value <= MaxAge)
    ensures "gender" in fields <==> input.gender.None? || ParseGender(input.gender.value).None?
    ensures "phone" in fields <==> HasNul(input.phone)
    ensures "email" in fields <==> HasNul(input.email)
    ensures "address" in fields <==> HasNul(input.address)
    ensures "medical_history" in fields <==> HasNul(input.medicalHistory)
    ensures fields <= PatientFields
  {
    set field | field in PatientFields && PatientFieldRefused(input, field)
  }

  /**
   * PatientSerializer.create as PatientViewSet.perform_create calls it: the
   * text fields are stored stripped, and the row's owner is the requesting
   * user, never a value from the input.
   */
  function CreatePatientRow(input: PatientInput, caller: UserId): (r: Result<Patient>)
    ensures r.Err? <==> PatientFieldErrors(input) != {}
    ensures r.Err? ==> r.error == FieldErrors(PatientFieldErrors(input))
    ensures r.Ok? ==> ValidPatient(r.value) && r.value.createdBy == caller
    ensures r.Ok? ==> && r.value.name == Text.Trim(input.name.value) && r.value.age == input.age.value
                      && GenderCode(r.value.gender) == input.gender.value
    ensures r.Ok? ==> && r.value.phone == Text.Trim(input.phone) && r.value.email == Text.Trim(input.email)
                      && r.value.address == Text.Trim(input.address)
                      && r.value.medicalHistory == Text.Trim(input.medicalHistory)
  {
    var fields := PatientFieldErrors(input);
    if fields != {} then Err(FieldErrors(fields))
    else
      Ok(Patient(Text.Trim(input.name.value), input.age.value, ParseGender(input.gender.value).value,
                 Text.Trim(input.phone), Text.Trim(input.email), Text.Trim(input.address),
                 Text.Trim(input.medicalHistory), caller))
  }

  /** created_by is read-only: what the client claims changes nothing. */
  lemma CreatedByNeverFromInput(input: PatientInput, caller: UserId, claimed: Option<UserId>)
    ensures CreatePatientRow(input.(createdBy := claimed), caller) == CreatePatientRow(input, caller)
  {
    var sent := input.(createdBy := claimed);
    assert sent.name == input.name && sent.age == input.age && sent.gender == input.gender;
    assert sent.phone == input.phone && sent.email == input.email && sent.address == input.address;
    assert sent.medicalHistory == input.medicalHistory;
    assert PatientFieldErrors(sent) == PatientFieldErrors(input);
  }

  // ---------------------------------------------------------------- doctors

  /**
   * What a client sends to create a doctor. Every field but is_available is
   * required and may be left out (None); is_available has a default.
   */
  datatype DoctorInput = DoctorInput(name: Option<string>, specialization: Option<string>, phone: Option<string>,
                                     email: Option<string>, experienceYears: Option<int>,
                                     qualification: Option<string>, consultationFee: Option<string>,
                                     isAvailable: Option<bool>)

  /** The writable fields of a doctor that field-level validation can refuse. */
  const DoctorFields: set<string> :=
    {"name", "specialization", "phone", "email", "qualification", "consultation_fee", "experience_years"}

  /** Whether field-level validation refuses the named field of a doctor. */
  predicate DoctorFieldRefused(input: DoctorInput, field: string)
  {
    if field == "name" then CharFieldRefused(input.name)
    else if field == "specialization" then CharFieldRefused(input.specialization)
    else if field == "phone" then CharFieldRefused(input.phone)
    else if field == "email" then CharFieldRefused(input.email)
    else if field == "qualification" then CharFieldRefused(input.qualification)
    else if field == "consultation_fee" then BlankOrMissing(input.consultationFee)
    else input.experienceYears.None? || input.experienceYears.value < 0
  }

  /**
   * Field-level validation of a doctor: every text field is required, may
   * not be blank and may not hold U+0000; consultation_fee, a DecimalField,
   * may not be missing or blank; experience_years is required and not
   * negative.
   */
  function DoctorFieldErrors(input: DoctorInput): (fields: set<string>)
    ensures "name" in fields <==> CharFieldRefused(input.name)
    ensures "specialization" in fields <==> CharFieldRefused(input.specialization)
    ensures "phone" in fields <==> CharFieldRefused(input.phone)
    ensures "email" in fields <==> CharFieldRefused(input.email)
    ensures "qualification" in fields <==> CharFieldRefused(input.qualification)
    ensures "consultation_fee" in fields <==> BlankOrMissing(input.consultationFee)
    ensures "experience_years" in fields <==> input.experienceYears.None? || input.experienceYears.value < 0
    ensures fields <= DoctorFields
  {
    set field | field in DoctorFields && DoctorFieldRefused(input, field)
  }

  /** DoctorSerializer's create: the validated fields, stripped, and the is_available default. */
  function CreateDoctorRow(input: DoctorInput): (r: Result<Doctor>)
    ensures r.Err? <==> DoctorFieldErrors(input) != {}
    ensures r.Err? ==> r.error == FieldErrors(DoctorFieldErrors(input))
    ensures r.Ok? ==> ValidDoctor(r.value) && r.value.experienceYears == input.experienceYears.value
    ensures r.Ok? ==> && r.value.name == Text.Trim(input.name.value)
                      && r.value.specialization == Text.Trim(input.specialization.value)
                      && r.value.phone == Text.Trim(input.phone.value) && r.value.email == Text.Trim(input.email.value)
                      && r.value.qualification == Text.Trim(input.qualification.value)
                      && r.value.consultationFee == Text.Trim(input.consultationFee.value)
    ensures r.Ok? && input.isAvailable.None? ==> r.value.isAvailable
    ensures r.Ok? && input.isAvailable.Some? ==> r.value.isAvailable == input.isAvailable.value
  {
    var fields := DoctorFieldErrors(input);
    if fields != {} then Err(FieldErrors(fields))
    else
      Ok(Doctor(Text.Trim(input.name.value), Text.Trim(input.specialization.value), Text.Trim(input.phone.value),
                Text.Trim(input.email.value), input.experienceYears.value, Text.Trim(input.qualification.value),
                Text.Trim(input.consultationFee.value),
                match input.isAvailable case Some(b) => b case None => true))
  }

  // ---------------------------------------------------------------- patient_count

  /** The active mapping rows that reference a doctor. */
  function ActiveAssignments(ms: map<MappingId, Mapping>, did: DoctorId): (s: set<MappingId>)
    ensures forall id :: id in s <==> id in ms && ms[id].doctor == did && ms[id].isActive
  {
    set id | id in ms && ms[id].doctor == did && ms[id].isActive
  }

  /** DoctorSerializer.get_patient_count: the number of active mappings of the doctor. */
  function PatientCount(ms: map<MappingId, Mapping>, did: DoctorId): (n: nat)
    ensures n <= |ms|
    ensures n == 0 <==> forall id :: id in ms && ms[id].doctor == did ==> !ms[id].isActive
  {
    assert ActiveAssignments(ms, did) <= ms.Keys;
    CardinalityOfSubset(ActiveAssignments(ms, did), ms.Keys);
    |ActiveAssignments(ms, did)|
  }

  lemma CardinalityOfSubset<T>(a: set<T>, b: set<T>)
    requires a <= b
    ensures |a| <= |b|
  {
    if a != {} {
      var x :| x in a;
      CardinalityOfSubset(a - {x}, b - {x});
    }
  }

  /** The patients a doctor is actively assigned to. */
  function ActivePatients(ms: map<MappingId, Mapping>, did: DoctorId): set<PatientId>
  {
    set id | id in ActiveAssignments(ms, did) :: ms[id].patient
  }

  /** Because a pair is never stored twice, patient_count counts distinct patients. */
  lemma PatientCountCountsPatients(ms: map<MappingId, Mapping>, did: DoctorId)
    requires UniquePairs(ms)
    ensures PatientCount(ms, did) == |ActivePatients(ms, did)|
  {
    ImageOfInjective(ms, ActiveAssignments(ms, did), did);
  }

  lemma {:induction false} ImageOfInjective(ms: map<MappingId, Mapping>, s: set<MappingId>, did: DoctorId)
    requires UniquePairs(ms)
    requires forall id :: id in s ==> id in ms && ms[id].doctor == did
    ensures |set id | id in s :: ms[id].patient| == |s|
    decreases s
  {
    if s != {} {
      var x :| x in s;
      var rest := s - {x};
      ImageOfInjective(ms, rest, did);
      var image := set id | id in s :: ms[id].patient;
      var restImage := set id | id in rest :: ms[id].patient;
      assert image == restImage + {ms[x].patient};
      assert ms[x].patient !in restImage;
    }
  }

  // ---------------------------------------------------------------- mappings

  /** What a client sends to create a mapping; isActive may be left out. */
  datatype MappingInput = MappingInput(patient: PatientId, doctor: DoctorId, notes: string, isActive: Option<bool>)

  /** An active row already assigns the doctor to the patient. */
  predicate HasActiveMapping(ms: map<MappingId, Mapping>, patient: PatientId, doctor: DoctorId)
  {
    exists id :: id in ms && ms[id].patient == patient && ms[id].doctor == doctor && ms[id].isActive
  }

  /**
   * Field-level validation of a mapping: both references must name existing
   * rows, and notes may not hold U+0000.
   */
  function MappingFieldErrors(patients: map<PatientId, Patient>, doctors: map<DoctorId, Doctor>,
                              input: MappingInput): (fields: set<string>)
    ensures "patient" in fields <==> input.patient !in patients
    ensures "doctor" in fields <==> input.doctor !in doctors
    ensures "notes" in fields <==> HasNul(input.notes)
    ensures fields <= {"patient", "doctor", "notes"}
  {
    (if input.patient in patients then {} else {"patient"})
    + (if input.doctor in doctors then {} else {"doctor"})
    + (if HasNul(input.notes) then {"notes"} else {})
  }

  /**
   * The validator DRF generates for unique_together = ['patient', 'doctor']:
   * it runs before validate() and refuses a pair that any stored row holds,
   * active or not.
   */
  function UniqueTogetherCheck(ms: map<MappingId, Mapping>, attrs: MappingInput): (r: Outcome)
    ensures r.Fail? <==> exists id :: id in ms && ms[id].patient == attrs.patient && ms[id].doctor == attrs.doctor
    ensures r.Fail? ==> r.error == ValidationError(PairNotUnique)
  {
    if PairTaken(ms, attrs.patient, attrs.doctor) then Fail(ValidationError(PairNotUnique)) else Pass
  }

  /** An active duplicate is a stored pair, so the generated validator refuses it before validate() sees it. */
  lemma ActiveDuplicateIsStoredPair(ms: map<MappingId, Mapping>, attrs: MappingInput)
    requires HasActiveMapping(ms, attrs.patient, attrs.doctor)
    ensures UniqueTogetherCheck(ms, attrs) == Fail(ValidationError(PairNotUnique))
  {
  }

  /**
   * PatientDoctorMappingSerializer.validate: an active duplicate is refused
   * first, then a patient owned by someone else; otherwise the attributes
   * come back unchanged.
   */
  function ValidateMapping(ms: map<MappingId, Mapping>, patients: map<PatientId, Patient>,
                           caller: UserId, input: MappingInput): (r: Result<MappingInput>)
    requires input.patient in patients
    ensures r.Ok? <==> !HasActiveMapping(ms, input.patient, input.doctor) && patients[input.patient].createdBy == caller
    ensures r.Ok? ==> r.value == input
    ensures HasActiveMapping(ms, input.patient, input.doctor) ==> r == Err(ValidationError(AlreadyAssigned))
    ensures (!HasActiveMapping(ms, input.patient, input.doctor) && patients[input.patient].createdBy != caller)
              ==> r == Err(ValidationError(NotOwnPatient))
  {
    if HasActiveMapping(ms, input.patient, input.doctor) then Err(ValidationError(AlreadyAssigned))
    else if patients[input.patient].createdBy != caller then Err(ValidationError(NotOwnPatient))
    else Ok(input)
  }

  /** The row the mapping serializer saves; is_active defaults to true. */
  function NewMappingRow(attrs: MappingInput): (m: Mapping)
    ensures m.patient == attrs.patient && m.doctor == attrs.doctor && m.notes == attrs.notes
    ensures attrs.isActive.None? ==> m.isActive
    ensures attrs.isActive.Some? ==> m.isActive == attrs.isActive.value
  {
    Mapping(attrs.patient, attrs.doctor, attrs.notes, match attrs.isActive case Some(b) => b case None => true)
  }
}
