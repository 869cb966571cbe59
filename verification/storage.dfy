/**
 * The store the handlers read and write: the four tables, held as maps from
 * row id to row, and the operations that change them. Each operation is
 * specified by the functions of Models, Serializers and Views, and keeps the
 * store's invariant.
 */
module Storage {
  import opened Results
  import opened Models
  import opened Serializers
  import opened Views
  import Text

  class Store {
    var users: map<UserId, User>
    var patients: map<PatientId, Patient>
    var doctors: map<DoctorId, Doctor>
    var mappings: map<MappingId, Mapping>
    // The next id each table hands out; ids are never reused.
    var nextUserId: nat
    var nextPatientId: nat
    var nextDoctorId: nat
    var nextMappingId: nat

    function Tables(): Db
      reads this
    {
      Db(users, patients, doctors, mappings)
    }

    ghost predicate Valid()
      reads this
    {
      ValidTables(Tables(), nextUserId, nextPatientId, nextDoctorId, nextMappingId)
    }

    constructor ()
      ensures Valid()
      ensures Tables() == Db(map[], map[], map[], map[])
    {
      users, patients, doctors, mappings := map[], map[], map[], map[];
      nextUserId, nextPatientId, nextDoctorId, nextMappingId := 0, 0, 0, 0;
    }

    /** RegisterView.create: validate, then create an active account from the fields other than the confirmation. */
    method Register(req: RegistrationRequest) returns (r: Result<UserId>)
      requires Valid()
      modifies this
      ensures Valid()
      ensures patients == old(patients) && doctors == old(doctors) && mappings == old(mappings)
      ensures var check := CheckRegistration(old(users), req);
        && (check.Err? ==> r == Err(check.error) && users == old(users))
        && (check.Ok? ==> r.Ok? && r.value !in old(users) && users == old(users)[r.value := NewUser(check.value)])
    {
      var check := CheckRegistration(users, req);
      if check.Err? {
        return Err(check.error);
      }
      AcceptedUsernameIsFree(users, req);
      var id := AddAccount(NewUser(check.value));
      r := Ok(id);
    }

    /** User.objects.create_user's save: the account goes under the next user id. */
    method AddAccount(account: User) returns (id: UserId)
      requires Valid() && !UsernameTaken(users, account.username)
      modifies this
      ensures Valid()
      ensures patients == old(patients) && doctors == old(doctors) && mappings == old(mappings)
      ensures id !in old(users) && users == old(users)[id := account]
    {
      id := nextUserId;
      AddUserKeepsValid(Tables(), account, nextUserId, nextPatientId, nextDoctorId, nextMappingId);
      users := users[id := account];
      nextUserId := nextUserId + 1;
    }

    /**
     * PatientViewSet.perform_create: the validated patient is stored with the
     * caller as its owner, so it shows in the caller's list and in no one else's.
     */
    method CreatePatient(caller: UserId, input: PatientInput) returns (r: Result<PatientId>)
      requires Valid() && caller in users
      modifies this
      ensures Valid()
      ensures users == old(users) && doctors == old(doctors) && mappings == old(mappings)
      ensures var row := CreatePatientRow(input, caller);
        && (row.Err? ==> r == Err(row.error) && patients == old(patients))
        && (row.Ok? ==> r.Ok? && r.value !in old(patients) && patients == old(patients)[r.value := row.value])
      ensures r.Ok? ==> r.value in PatientQueryset(patients, caller)
      ensures r.Ok? ==> forall other :: other != caller ==> r.value !in PatientQueryset(patients, other)
    {
      var row := CreatePatientRow(input, caller);
      if row.Err? {
        return Err(row.error);
      }
      var id := AddPatient(row.value);
      r := Ok(id);
    }

    /** The save of a validated patient: the row goes under the next patient id and shows in its owner's list. */
    method AddPatient(row: Patient) returns (id: PatientId)
      requires Valid() && ValidPatient(row) && row.createdBy in users
      modifies this
      ensures Valid()
      ensures users == old(users) && doctors == old(doctors) && mappings == old(mappings)
      ensures id !in old(patients) && patients == old(patients)[id := row]
      ensures id in PatientQueryset(patients, row.createdBy)
    {
      id := nextPatientId;
      AddPatientKeepsValid(Tables(), row, nextUserId, nextPatientId, nextDoctorId, nextMappingId);
      patients := patients[id := row];
      nextPatientId := nextPatientId + 1;
    }

    /** DoctorViewSet's create: a validated doctor row, available unless the input says otherwise. */
    method CreateDoctor(input: DoctorInput) returns (r: Result<DoctorId>)
      requires Valid()
      modifies this
      ensures Valid()
      ensures users == old(users) && patients == old(patients) && mappings == old(mappings)
      ensures var row := CreateDoctorRow(input);
        && (row.Err? ==> r == Err(row.error) && doctors == old(doctors))
        && (row.Ok? ==> r.Ok? && r.value !in old(doctors) && doctors == old(doctors)[r.value := row.value])
    {
      var row := CreateDoctorRow(input);
      if row.Err? {
        return Err(row.error);
      }
      var id := nextDoctorId;
      AddDoctorKeepsValid(Tables(), row.value, nextUserId, nextPatientId, nextDoctorId, nextMappingId);
      doctors := doctors[id := row.value];
      nextDoctorId := nextDoctorId + 1;
      r := Ok(id);
    }

    /**
     * PatientDoctorMappingViewSet's create: field-level checks, the validator
     * DRF generates for unique_together, the serializer's validate(), then the
     * insert under the unique_together constraint.
     */
    method CreateMapping(caller: UserId, input: MappingInput) returns (r: Result<MappingId>)
      requires Valid()
      modifies this
      ensures Valid()
      ensures users == old(users) && patients == old(patients) && doctors == old(doctors)
      ensures var outcome := CreateMappingRows(old(Tables()), caller, input, old(nextMappingId));
        && (outcome.Err? ==> r == Err(outcome.error) && mappings == old(mappings))
        && (outcome.Ok? ==> r == Ok(old(nextMappingId)) && mappings == outcome.value)
    {
      var fields := MappingFieldErrors(patients, doctors, input);
      if fields != {} {
        return Err(FieldErrors(fields));
      }
      var attrs := input.(notes := Text.Trim(input.notes));
      var unique := UniqueTogetherCheck(mappings, attrs);
      if unique.Fail? {
        return Err(unique.error);
      }
      var validated := ValidateMapping(mappings, patients, caller, attrs);
      if validated.Err? {
        return Err(validated.error);
      }
      var id := nextMappingId;
      // The generated validator has already refused a stored pair, so the insert goes through.
      var inserted := InsertMapping(mappings, id, NewMappingRow(validated.value));
      assert inserted.Ok?;
      CreateMappingKeepsValid(Tables(), caller, input, nextUserId, nextPatientId, nextDoctorId, nextMappingId);
      mappings := inserted.value;
      nextMappingId := nextMappingId + 1;
      r := Ok(id);
    }

    /**
     * PatientDoctorMappingViewSet.destroy: the mapping is looked up among
     * those whose patient the caller owns, and its is_active is set to false
     * in place. The row is kept.
     */
    method SoftDelete(caller: UserId, pk: MappingId) returns (r: Outcome)
      requires Valid()
      modifies this
      ensures Valid()
      ensures users == old(users) && patients == old(patients) && doctors == old(doctors)
      ensures nextMappingId == old(nextMappingId)
      ensures r == if DestroyTarget(old(mappings), patients, caller, pk) then Pass else Fail(NotFound)
      ensures r.Pass? ==> mappings == SoftDeleted(old(mappings), pk)
      ensures r.Fail? ==> mappings == old(mappings)
    {
      if !DestroyTarget(mappings, patients, caller, pk) {
        return Fail(NotFound);
      }
      SoftDeleteKeepsValid(Tables(), pk, nextUserId, nextPatientId, nextDoctorId, nextMappingId);
      var row := mappings[pk];
      row := row.(isActive := false);
      mappings := mappings[pk := row];
      r := Pass;
    }

    /**
     * PatientViewSet's destroy: the patient is looked up among the caller's
     * own, IsOwnerOrReadOnly is consulted, and the delete cascades to the
     * patient's mappings.
     */
    method DestroyPatient(caller: UserId, pid: PatientId) returns (r: Outcome)
      requires Valid()
      modifies this
      ensures Valid()
      ensures r.Pass? <==> pid in old(PatientQueryset(patients, caller))
      ensures r.Fail? ==> r.error == NotFound && Tables() == old(Tables())
      ensures r.Pass? ==> Tables() == DeletePatient(old(Tables()), pid)
    {
      if pid !in PatientQueryset(patients, caller) {
        return Fail(NotFound);
      }
      // The object permission always passes for a patient found in the caller's own list.
      PatientScopeMatchesPermission(patients, caller, pid, "DELETE");
      assert Permissions.IsOwnerOrReadOnly(Permissions.Request("DELETE", caller), patients[pid].createdBy);
      var after := DeletePatient(Tables(), pid);
      patients := after.patients;
      mappings := after.mappings;
      r := Pass;
    }

    /**
     * DoctorViewSet's destroy: the doctor is looked up in the list the
     * request's specialization and available parameters select, so a doctor
     * those filters leave out is not found. The delete cascades to the
     * doctor's mappings.
     */
    method DestroyDoctor(did: DoctorId, specialization: Option<string>, available: Option<string>) returns (r: Outcome)
      requires Valid()
      modifies this
      ensures Valid()
      ensures r.Pass? <==> did in old(DoctorQueryset(doctors, specialization, available))
      ensures r.Fail? ==> r.error == NotFound && Tables() == old(Tables())
      ensures r.Pass? ==> Tables() == DeleteDoctor(old(Tables()), did)
    {
      if did !in DoctorQueryset(doctors, specialization, available) {
        return Fail(NotFound);
      }
      var after := DeleteDoctor(Tables(), did);
      doctors := after.doctors;
      mappings := after.mappings;
      r := Pass;
    }

    /** Deleting a user account: its patients and their mappings go with it. */
    method DeleteUserAccount(uid: UserId)
      requires Valid()
      modifies this
      ensures Valid()
      ensures Tables() == DeleteUser(old(Tables()), uid)
    {
      DeleteUserKeepsValid(Tables(), uid, nextUserId, nextPatientId, nextDoctorId, nextMappingId);
      var after := DeleteUser(Tables(), uid);
      users := after.users;
      patients := after.patients;
      mappings := after.mappings;
    }
  }

  /** No two accounts share a username. */
  ghost predicate DistinctUsernames(users: map<UserId, User>)
  {
    forall a, b :: a in users && b in users && users[a].username == users[b].username ==> a == b
  }

  /** The account an accepted registration creates has a username no account holds yet. */
  lemma AcceptedUsernameIsFree(users: map<UserId, User>, req: RegistrationRequest)
    requires CheckRegistration(users, req).Ok?
    ensures !UsernameTaken(users, NewUser(CheckRegistration(users, req).value).username)
  {
  }

  /**
   * The store's invariant on table values: the tables are consistent,
   * usernames are unique, and every id is below the counter of its table.
   */
  ghost predicate ValidTables(db: Db, nextUser: nat, nextPatient: nat, nextDoctor: nat, nextMapping: nat)
  {
    && Consistent(db)
    && DistinctUsernames(db.users)
    && (forall id :: id in db.users ==> id < nextUser)
    && (forall id :: id in db.patients ==> id < nextPatient)
    && (forall id :: id in db.doctors ==> id < nextDoctor)
    && (forall id :: id in db.mappings ==> id < nextMapping)
  }

  /** An account whose username is free can be added under the next user id. */
  lemma AddUserKeepsValid(db: Db, account: User, nextUser: nat, nextPatient: nat, nextDoctor: nat, nextMapping: nat)
    requires ValidTables(db, nextUser, nextPatient, nextDoctor, nextMapping)
    requires !UsernameTaken(db.users, account.username)
    ensures nextUser !in db.users
    ensures ValidTables(db.(users := db.users[nextUser := account]), nextUser + 1, nextPatient, nextDoctor, nextMapping)
  {
  }

  /**
   * A valid patient owned by an existing account can be added under the next
   * patient id, and it then shows in its owner's list.
   */
  lemma AddPatientKeepsValid(db: Db, row: Patient, nextUser: nat, nextPatient: nat, nextDoctor: nat, nextMapping: nat)
    requires ValidTables(db, nextUser, nextPatient, nextDoctor, nextMapping)
    requires ValidPatient(row) && row.createdBy in db.users
    ensures nextPatient !in db.patients
    ensures ValidTables(db.(patients := db.patients[nextPatient := row]), nextUser, nextPatient + 1, nextDoctor, nextMapping)
    ensures nextPatient in PatientQueryset(db.patients[nextPatient := row], row.createdBy)
  {
  }

  /** A valid doctor can be added under the next doctor id. */
  lemma AddDoctorKeepsValid(db: Db, row: Doctor, nextUser: nat, nextPatient: nat, nextDoctor: nat, nextMapping: nat)
    requires ValidTables(db, nextUser, nextPatient, nextDoctor, nextMapping)
    requires ValidDoctor(row)
    ensures nextDoctor !in db.doctors
    ensures ValidTables(db.(doctors := db.doctors[nextDoctor := row]), nextUser, nextPatient, nextDoctor + 1, nextMapping)
  {
  }

  /** A mapping created under the next mapping id keeps the invariant. */
  lemma CreateMappingKeepsValid(db: Db, caller: UserId, input: MappingInput,
                                nextUser: nat, nextPatient: nat, nextDoctor: nat, nextMapping: nat)
    requires ValidTables(db, nextUser, nextPatient, nextDoctor, nextMapping)
    requires CreateMappingRows(db, caller, input, nextMapping).Ok?
    ensures ValidTables(db.(mappings := CreateMappingRows(db, caller, input, nextMapping).value),
                        nextUser, nextPatient, nextDoctor, nextMapping + 1)
  {
    CreateMappingKeepsConsistency(db, caller, input, nextMapping);
  }

  /** Soft deletion keeps the invariant and the counters. */
  lemma SoftDeleteKeepsValid(db: Db, pk: MappingId, nextUser: nat, nextPatient: nat, nextDoctor: nat, nextMapping: nat)
    requires ValidTables(db, nextUser, nextPatient, nextDoctor, nextMapping) && pk in db.mappings
    ensures ValidTables(db.(mappings := SoftDeleted(db.mappings, pk)), nextUser, nextPatient, nextDoctor, nextMapping)
  {
    SoftDeleteKeepsConsistency(db, pk);
  }

  /** Deleting a user only removes rows, so the invariant survives with the same counters. */
  lemma DeleteUserKeepsValid(db: Db, uid: UserId, nextUser: nat, nextPatient: nat, nextDoctor: nat, nextMapping: nat)
    requires ValidTables(db, nextUser, nextPatient, nextDoctor, nextMapping)
    ensures ValidTables(DeleteUser(db, uid), nextUser, nextPatient, nextDoctor, nextMapping)
  {
  }

  /** A sample registration, patient and doctor. */
  const OwnerRequest := RegistrationRequest(Some("owner"), "owner@example.com", "", "", Some("password1"), Some("password1"))
  const AliceInput := PatientInput(Some("Alice"), Some(30), Some("F"), "", "", "", "", None)
  const SmithInput := DoctorInput(Some("Smith"), Some("Cardiology"), Some("555"), Some("smith@example.com"), Some(10),
                                  Some("MD"), Some("100.00"), None)

  /**
   * On an empty user table, a registration passes when its username is not
   * blank, its password, repeated as the confirmation, is long enough and
   * has no whitespace at either end, and no field holds U+0000.
   */
  lemma FirstRegistrationAccepted(req: RegistrationRequest)
    requires req.username.Some? && req.password.Some? && req.passwordConfirm == req.password
    requires var u := req.username.value; u != [] && !Text.IsSpace(u[0]) && !Text.IsSpace(u[|u| - 1])
    requires var p := req.password.value;
      |p| >= PasswordMinLength && !Text.IsSpace(p[0]) && !Text.IsSpace(p[|p| - 1])
    requires !HasNul(req.username.value) && !HasNul(req.password.value)
    requires !HasNul(req.email) && !HasNul(req.firstName) && !HasNul(req.lastName)
    ensures CheckRegistration(map[], req).Ok?
  {
    Text.TrimOfTrimmed(req.username.value);
    Text.TrimOfTrimmed(req.password.value);
  }

  /** The sample patient passes field validation. */
  lemma AliceInputAccepted()
    ensures PatientFieldErrors(AliceInput) == {}
  {
    NonBlank("Alice");
    assert ParseGender("F") == Some(Female);
    forall field | field in PatientFields
      ensures !PatientFieldRefused(AliceInput, field)
    {
    }
  }

  /** The sample doctor passes field validation. */
  lemma SmithInputAccepted()
    ensures DoctorFieldErrors(SmithInput) == {}
  {
    NonBlank("Smith");
    NonBlank("Cardiology");
    NonBlank("555");
    NonBlank("smith@example.com");
    NonBlank("MD");
    NonBlank("100.00");
    forall field | field in DoctorFields
      ensures !DoctorFieldRefused(SmithInput, field)
    {
    }
  }

  /** A value with no whitespace at either end and no U+0000 is what a required CharField accepts. */
  lemma NonBlank(s: string)
    requires s != [] && !Text.IsSpace(s[0]) && !Text.IsSpace(s[|s| - 1]) && !HasNul(s)
    ensures !CharFieldRefused(Some(s))
  {
    Text.TrimOfTrimmed(s);
  }

  /**
   * A fresh store with one account, its patient, a doctor, and the doctor
   * assigned to the patient.
   */
  method AssignOnce() returns (store: Store, owner: UserId, assignment: MappingInput, first: MappingId)
    ensures fresh(store) && store.Valid()
    ensures assignment.patient in store.patients && assignment.doctor in store.doctors
    ensures store.patients[assignment.patient].createdBy == owner
    ensures first in store.mappings && store.mappings[first] == NewMappingRow(assignment)
    ensures assignment.isActive.None? && assignment.notes == ""
    ensures store.nextMappingId !in store.mappings
  {
    FirstRegistrationAccepted(OwnerRequest);
    AliceInputAccepted();
    SmithInputAccepted();
    store := new Store();
    var registered := store.Register(OwnerRequest);
    owner := registered.value;
    var alice := store.CreatePatient(owner, AliceInput);
    var smith := store.CreateDoctor(SmithInput);
    assignment := MappingInput(alice.value, smith.value, "", None);
    assert Text.Trim("") == "";
    var created := store.CreateMapping(owner, assignment);
    first := created.value;
  }

  /**
   * A doctor assigned to a patient, assigned again, removed, and assigned a
   * third time. The second and the third requests are both refused by the
   * validator DRF generates for unique_together: the third passes validate()
   * but its pair is still stored, inactive.
   */
  method ReassignScenario() returns (second: Result<MappingId>, removed: Outcome, third: Result<MappingId>)
    ensures removed.Pass?
    ensures second == Err(ValidationError(PairNotUnique))
    ensures third == Err(ValidationError(PairNotUnique))
  {
    var store, owner, assignment, first := AssignOnce();
    assert HasActiveMapping(store.mappings, assignment.patient, assignment.doctor) by {
      assert store.mappings[first] == NewMappingRow(assignment);
    }
    ActiveDuplicateRefused(store.Tables(), owner, assignment, store.nextMappingId);
    second := store.CreateMapping(owner, assignment);
    ghost var before := store.Tables();
    removed := store.SoftDelete(owner, first);
    ReassignAfterSoftDeleteRefused(before, owner, first, assignment, store.nextMappingId);
    third := store.CreateMapping(owner, assignment);
  }
}
