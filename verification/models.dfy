/**
 * The three entities (Patient, Doctor, PatientDoctorMapping), the user accounts
 * that own patients, and what the storage layer enforces about them: field
 * ranges, the (patient, doctor) uniqueness constraint, references between rows
 * and cascading deletion.
 */
module Models {
  import opened Results
  import Text

  type UserId = nat
  type PatientId = nat
  type DoctorId = nat
  type MappingId = nat

  const MinAge := 0
  const MaxAge := 150

  /** The GENDER_CHOICES of Patient. */
  datatype Gender = Male | Female | Other

  /** The one-letter code a gender is stored as. */
  function GenderCode(g: Gender): string
  {
    match g
    case Male => "M"
    case Female => "F"
    case Other => "O"
  }

  /** The choice check of the gender field: only a stored code is accepted. */
  function ParseGender(code: string): (r: Option<Gender>)
    ensures r.Some? <==> code in {"M", "F", "O"}
    ensures r.Some? ==> GenderCode(r.value) == code
  {
    if code == "M" then Some(Male)
    else if code == "F" then Some(Female)
    else if code == "O" then Some(Other)
    else None
  }

  lemma GenderRoundTrip(g: Gender)
    ensures ParseGender(GenderCode(g)) == Some(g)
  {
    match g
    case Male =>
    case Female =>
    case Other =>
  }

  /** A django.contrib.auth user account. The password is kept as the opaque value the account stores. */
  datatype User = User(username: string, email: string, firstName: string, lastName: string,
                       password: string, isActive: bool)

  /** A patient row; createdBy is the owning user. Timestamps are not modelled. */
  datatype Patient = Patient(name: string, age: int, gender: Gender, phone: string, email: string,
                             address: string, medicalHistory: string, createdBy: UserId)

  /** A doctor row; consultationFee is the decimal's text, kept opaque. */
  datatype Doctor = Doctor(name: string, specialization: string, phone: string, email: string,
                           experienceYears: int, qualification: string, consultationFee: string,
                           isAvailable: bool)

  /** A PatientDoctorMapping row. */
  datatype Mapping = Mapping(patient: PatientId, doctor: DoctorId, notes: string, isActive: bool)

  /** The age validators of Patient; name is its one text field that may not be blank. */
  predicate ValidPatient(p: Patient)
  {
    MinAge <= p.age <= MaxAge && p.name != []
  }

  /** The experience_years validator of Doctor; none of its text fields may be blank. */
  predicate ValidDoctor(d: Doctor)
  {
    && d.experienceYears >= 0
    && d.name != [] && d.specialization != [] && d.phone != [] && d.email != []
    && d.qualification != [] && d.consultationFee != []
  }

  /** The four tables. */
  datatype Db = Db(users: map<UserId, User>, patients: map<PatientId, Patient>,
                   doctors: map<DoctorId, Doctor>, mappings: map<MappingId, Mapping>)

  /** unique_together = ['patient', 'doctor']: is_active plays no part. */
  predicate UniquePairs(ms: map<MappingId, Mapping>)
  {
    forall a, b :: a in ms && b in ms && ms[a].patient == ms[b].patient && ms[a].doctor == ms[b].doctor ==> a == b
  }

  /** Some row, active or not, already holds the pair (patient, doctor). */
  predicate PairTaken(ms: map<MappingId, Mapping>, patient: PatientId, doctor: DoctorId)
  {
    exists id :: id in ms && ms[id].patient == patient && ms[id].doctor == doctor
  }

  /** What the storage layer keeps true of every state it holds. */
  predicate Consistent(db: Db)
  {
    && (forall id :: id in db.patients ==> ValidPatient(db.patients[id]) && db.patients[id].createdBy in db.users)
    && (forall id :: id in db.doctors ==> ValidDoctor(db.doctors[id]))
    && (forall id :: id in db.mappings ==> db.mappings[id].patient in db.patients && db.mappings[id].doctor in db.doctors)
    && UniquePairs(db.mappings)
  }

  /** Inserting a mapping row under the unique_together constraint. */
  function InsertMapping(ms: map<MappingId, Mapping>, id: MappingId, row: Mapping): (r: Result<map<MappingId, Mapping>>)
    requires id !in ms
    ensures r.Err? <==> PairTaken(ms, row.patient, row.doctor)
    ensures r.Err? ==> r.error == IntegrityError
    ensures r.Ok? ==> r.value.Keys == ms.Keys + {id} && r.value[id] == row
    ensures r.Ok? ==> forall k :: k in ms ==> r.value[k] == ms[k]
    ensures r.Ok? && UniquePairs(ms) ==> UniquePairs(r.value)
  {
    if PairTaken(ms, row.patient, row.doctor) then Err(IntegrityError) else Ok(ms[id := row])
  }

  /** The mapping rows that survive when the given patients and doctors go. */
  function WithoutReferences(ms: map<MappingId, Mapping>, patients: set<PatientId>, doctors: set<DoctorId>)
    : (r: map<MappingId, Mapping>)
    ensures forall id :: id in r <==> id in ms && ms[id].patient !in patients && ms[id].doctor !in doctors
    ensures forall id :: id in r ==> r[id] == ms[id]
  {
    map id | id in ms && ms[id].patient !in patients && ms[id].doctor !in doctors :: ms[id]
  }

  /** Deleting a patient (on_delete=CASCADE on PatientDoctorMapping.patient). */
  function DeletePatient(db: Db, pid: PatientId): (r: Db)
    ensures r.patients == db.patients - {pid}
    ensures r.users == db.users && r.doctors == db.doctors
    ensures forall id :: id in r.mappings <==> id in db.mappings && db.mappings[id].patient != pid
    ensures forall id :: id in r.mappings ==> r.mappings[id] == db.mappings[id]
    ensures Consistent(db) ==> Consistent(r)
  {
    db.(patients := db.patients - {pid}, mappings := WithoutReferences(db.mappings, {pid}, {}))
  }

  /** Deleting a doctor (on_delete=CASCADE on PatientDoctorMapping.doctor). */
  function DeleteDoctor(db: Db, did: DoctorId): (r: Db)
    ensures r.doctors == db.doctors - {did}
    ensures r.users == db.users && r.patients == db.patients
    ensures forall id :: id in r.mappings <==> id in db.mappings && db.mappings[id].doctor != did
    ensures forall id :: id in r.mappings ==> r.mappings[id] == db.mappings[id]
    ensures Consistent(db) ==> Consistent(r)
  {
    db.(doctors := db.doctors - {did}, mappings := WithoutReferences(db.mappings, {}, {did}))
  }

  /** The patients a user owns. */
  function OwnedPatients(patients: map<PatientId, Patient>, uid: UserId): (r: set<PatientId>)
    ensures forall id :: id in r <==> id in patients && patients[id].createdBy == uid
  {
    set id | id in patients && patients[id].createdBy == uid
  }

  /**
   * Deleting a user (on_delete=CASCADE on Patient.created_by): the user's
   * patients go, and with them every mapping that references one of them.
   */
  function DeleteUser(db: Db, uid: UserId): (r: Db)
    ensures r.users == db.users - {uid}
    ensures r.doctors == db.doctors
    ensures forall id :: id in r.patients <==> id in db.patients && db.patients[id].createdBy != uid
    ensures forall id :: id in r.patients ==> r.patients[id] == db.patients[id]
    ensures forall id :: id in r.mappings <==>
              id in db.mappings && !(db.mappings[id].patient in db.patients && db.patients[db.mappings[id].patient].createdBy == uid)
    ensures forall id :: id in r.mappings ==> r.mappings[id] == db.mappings[id]
    ensures Consistent(db) ==> Consistent(r)
  {
    var gone := OwnedPatients(db.patients, uid);
    db.(users := db.users - {uid}, patients := db.patients - gone, mappings := WithoutReferences(db.mappings, gone, {}))
  }

  /** Patient.__str__: "name (Age: age)". */
  function PatientStr(p: Patient): (s: string)
    ensures var k := |p.name| + 7;
      && |s| == k + |Text.IntToString(p.age)| + 1
      && s[..|p.name|] == p.name && s[|p.name|..k] == " (Age: "
      && s[k..|s| - 1] == Text.IntToString(p.age) && s[|s| - 1] == ')'
  {
    p.name + " (Age: " + Text.IntToString(p.age) + ")"
  }

  /** The rendering of a valid patient starts with the name and its age field reads back as the age. */
  lemma PatientStrShowsAge(p: Patient)
    requires ValidPatient(p)
    ensures var s := PatientStr(p);
      var k := |p.name| + 7;
      && k < |s| && s[..|p.name|] == p.name && s[|p.name|..k] == " (Age: " && s[|s| - 1] == ')'
      && Text.IsDigits(s[k..|s| - 1]) && Text.DecimalValue(s[k..|s| - 1]) == p.age
  {
    var s := PatientStr(p);
    var k := |p.name| + 7;
    assert s[k..|s| - 1] == Text.NatToString(p.age);
    Text.DecimalRoundTrip(p.age);
  }

  /** Doctor.__str__: "Dr. name - specialization". */
  function DoctorStr(d: Doctor): (s: string)
    ensures |s| == 7 + |d.name| + |d.specialization|
    ensures s[..4] == "Dr. " && s[4..4 + |d.name|] == d.name
    ensures s[4 + |d.name|..7 + |d.name|] == " - " && s[7 + |d.name|..] == d.specialization
  {
    "Dr. " + d.name + " - " + d.specialization
  }

  /** PatientDoctorMapping.__str__: "patient name -> Dr. doctor name". */
  function MappingStr(p: Patient, d: Doctor): (s: string)
    ensures |s| == |p.name| + 8 + |d.name|
    ensures s[..|p.name|] == p.name && s[|p.name|..|p.name| + 8] == " -> Dr. " && s[|p.name| + 8..] == d.name
  {
    p.name + " -> Dr. " + d.name
  }
}
