/**
 * The request handlers' decisions: which rows each list shows to a caller,
 * the retrieve-by-patient view, which mapping a caller may soft-delete and
 * what that leaves behind, and the whole path a new mapping takes from the
 * request to the table.
 */
module Views {
  import opened Results
  import opened Models
  import opened Serializers
  import opened Permissions
  import Text

  // ---------------------------------------------------------------- patients

  /** PatientViewSet.get_queryset: the caller's own patients. */
  function PatientQueryset(patients: map<PatientId, Patient>, caller: UserId): (r: map<PatientId, Patient>)
    ensures forall id :: id in r <==> id in patients && patients[id].createdBy == caller
    ensures forall id :: id in r ==> r[id] == patients[id]
  {
    map id | id in patients && patients[id].createdBy == caller :: patients[id]
  }

  /** No patient shows in the lists of two different users. */
  lemma PatientListsAreDisjoint(patients: map<PatientId, Patient>, a: UserId, b: UserId)
    requires a != b
    ensures PatientQueryset(patients, a).Keys !! PatientQueryset(patients, b).Keys
  {
  }

  /**
   * Scoping and IsOwnerOrReadOnly agree: the caller may do anything to a
   * patient in the list, and a patient of another user is both missing from
   * the list (so a detail request finds nothing) and refused every write.
   */
  lemma PatientScopeMatchesPermission(patients: map<PatientId, Patient>, caller: UserId, id: PatientId, verb: string)
    requires id in patients
    ensures id in PatientQueryset(patients, caller) ==> IsOwnerOrReadOnly(Request(verb, caller), patients[id].createdBy)
    ensures patients[id].createdBy != caller && !IsSafe(verb) ==>
              id !in PatientQueryset(patients, caller) && !IsOwnerOrReadOnly(Request(verb, caller), patients[id].createdBy)
  {
  }

  // ---------------------------------------------------------------- doctors

  /** The specialization filter: case-insensitive substring. */
  function FilterSpecialization(doctors: map<DoctorId, Doctor>, q: string): map<DoctorId, Doctor>
  {
    map id | id in doctors && Text.ContainsIgnoringCase(doctors[id].specialization, q) :: doctors[id]
  }

  /** The availability filter: equality on is_available. */
  function FilterAvailability(doctors: map<DoctorId, Doctor>, wanted: bool): map<DoctorId, Doctor>
  {
    map id | id in doctors && doctors[id].isAvailable == wanted :: doctors[id]
  }

  /** available.lower() == 'true'. */
  predicate AvailableFlag(s: string)
  {
    Text.Lower(s) == "true"
  }

  predicate MatchesSpecialization(d: Doctor, q: Option<string>)
  {
    !Truthy(q) || Text.ContainsIgnoringCase(d.specialization, q.value)
  }

  predicate MatchesAvailability(d: Doctor, q: Option<string>)
  {
    !Truthy(q) || d.isAvailable == AvailableFlag(q.value)
  }

  /**
   * DoctorViewSet.get_queryset: every doctor, narrowed by each query
   * parameter that is present and non-empty.
   */
  function DoctorQueryset(doctors: map<DoctorId, Doctor>, specialization: Option<string>,
                          available: Option<string>): (r: map<DoctorId, Doctor>)
    ensures forall id :: id in r <==>
              id in doctors && MatchesSpecialization(doctors[id], specialization) && MatchesAvailability(doctors[id], available)
    ensures forall id :: id in r ==> r[id] == doctors[id]
  {
    var bySpecialization := if Truthy(specialization) then FilterSpecialization(doctors, specialization.value) else doctors;
    if Truthy(available) then FilterAvailability(bySpecialization, AvailableFlag(available.value)) else bySpecialization
  }

  /** An absent or empty parameter filters nothing. */
  lemma NoFilterListsAll(doctors: map<DoctorId, Doctor>, specialization: Option<string>, available: Option<string>)
    requires !Truthy(specialization) && !Truthy(available)
    ensures DoctorQueryset(doctors, specialization, available) == doctors
  {
  }

  /** Any non-empty value of available other than a spelling of "true" selects exactly the unavailable doctors. */
  lemma AvailableOtherThanTrueSelectsUnavailable(doctors: map<DoctorId, Doctor>, s: string)
    requires s != "" && Text.Lower(s) != "true"
    ensures DoctorQueryset(doctors, None, Some(s)) == map id | id in doctors && !doctors[id].isAvailable :: doctors[id]
  {
  }

  /** The specialization parameter is matched without regard to case. */
  lemma SpecializationIgnoresCase(doctors: map<DoctorId, Doctor>, q: string, available: Option<string>)
    ensures DoctorQueryset(doctors, Some(Text.Lower(q)), available) == DoctorQueryset(doctors, Some(q), available)
  {
    forall id | id in doctors
      ensures Text.ContainsIgnoringCase(doctors[id].specialization, Text.Lower(q))
              == Text.ContainsIgnoringCase(doctors[id].specialization, q)
    {
      Text.ContainsIgnoringCaseOfLowered(doctors[id].specialization, q);
    }
  }

  // ---------------------------------------------------------------- mappings

  /** The mapping's patient exists and belongs to the caller. */
  predicate OwnsPatientOf(patients: map<PatientId, Patient>, caller: UserId, m: Mapping)
  {
    m.patient in patients && patients[m.patient].createdBy == caller
  }

  /** PatientDoctorMappingViewSet.get_queryset: active mappings of the caller's patients. */
  function MappingQueryset(ms: map<MappingId, Mapping>, patients: map<PatientId, Patient>, caller: UserId): (r: map<MappingId, Mapping>)
    ensures forall id :: id in r <==> id in ms && ms[id].isActive && OwnsPatientOf(patients, caller, ms[id])
    ensures forall id :: id in r ==> r[id] == ms[id]
  {
    map id | id in ms && ms[id].isActive && OwnsPatientOf(patients, caller, ms[id]) :: ms[id]
  }

  /** Every mapping the caller is shown also passes IsPatientOwner, whatever the method. */
  lemma MappingListPassesPatientOwner(ms: map<MappingId, Mapping>, patients: map<PatientId, Patient>,
                                      caller: UserId, id: MappingId, verb: string)
    requires id in MappingQueryset(ms, patients, caller)
    ensures ms[id].patient in patients && IsPatientOwner(Request(verb, caller), MappingObj(patients[ms[id].patient]))
  {
  }

  /** The answer of retrieve: the patient and its active assignments. */
  datatype PatientAssignments = PatientAssignments(patient: Patient, assignments: map<MappingId, Mapping>)

  /** PatientDoctorMappingViewSet.retrieve: pk names a patient of the caller. */
  function Retrieve(ms: map<MappingId, Mapping>, patients: map<PatientId, Patient>, caller: UserId,
                    pk: PatientId): (r: Result<PatientAssignments>)
    ensures r.Err? <==> !(pk in patients && patients[pk].createdBy == caller)
    ensures r.Err? ==> r.error == NotFound
    ensures r.Ok? ==> r.value.patient == patients[pk]
    ensures r.Ok? ==> forall id :: id in r.value.assignments <==> id in ms && ms[id].patient == pk && ms[id].isActive
    ensures r.Ok? ==> forall id :: id in r.value.assignments ==> r.value.assignments[id] == ms[id]
  {
    if pk in patients && patients[pk].createdBy == caller then
      Ok(PatientAssignments(patients[pk], map id | id in ms && ms[id].patient == pk && ms[id].isActive :: ms[id]))
    else
      Err(NotFound)
  }

  /** What retrieve shows is a part of the caller's mapping list. */
  lemma RetrieveWithinMappingList(ms: map<MappingId, Mapping>, patients: map<PatientId, Patient>, caller: UserId, pk: PatientId)
    requires Retrieve(ms, patients, caller, pk).Ok?
    ensures forall id :: id in Retrieve(ms, patients, caller, pk).value.assignments ==> id in MappingQueryset(ms, patients, caller)
  {
  }

  /** The lookup of destroy: the mapping exists and its patient is the caller's; is_active is not consulted. */
  predicate DestroyTarget(ms: map<MappingId, Mapping>, patients: map<PatientId, Patient>, caller: UserId, pk: MappingId)
  {
    pk in ms && OwnsPatientOf(patients, caller, ms[pk])
  }

  /** The lookup of destroy admits exactly the mappings IsPatientOwner admits. */
  lemma DestroyTargetIsPatientOwner(ms: map<MappingId, Mapping>, patients: map<PatientId, Patient>,
                                    caller: UserId, pk: MappingId, verb: string)
    requires pk in ms && ms[pk].patient in patients
    ensures DestroyTarget(ms, patients, caller, pk) <==> IsPatientOwner(Request(verb, caller), MappingObj(patients[ms[pk].patient]))
  {
  }

  /** The table after destroy: the row stays, inactive; nothing else changes. */
  function SoftDeleted(ms: map<MappingId, Mapping>, pk: MappingId): (r: map<MappingId, Mapping>)
    requires pk in ms
    ensures r.Keys == ms.Keys
    ensures !r[pk].isActive
    ensures r[pk].patient == ms[pk].patient && r[pk].doctor == ms[pk].doctor && r[pk].notes == ms[pk].notes
    ensures forall id :: id in ms && id != pk ==> r[id] == ms[id]
  {
    ms[pk := ms[pk].(isActive := false)]
  }

  /** Soft deletion keeps every storage invariant. */
  lemma SoftDeleteKeepsConsistency(db: Db, pk: MappingId)
    requires Consistent(db) && pk in db.mappings
    ensures Consistent(db.(mappings := SoftDeleted(db.mappings, pk)))
  {
    var after := SoftDeleted(db.mappings, pk);
    forall a, b | a in after && b in after && after[a].patient == after[b].patient && after[a].doctor == after[b].doctor
      ensures a == b
    {
      assert db.mappings[a].patient == db.mappings[b].patient && db.mappings[a].doctor == db.mappings[b].doctor;
    }
  }

  /** Destroying twice is the same as destroying once, and the second request finds its row again. */
  lemma SoftDeleteAgain(ms: map<MappingId, Mapping>, patients: map<PatientId, Patient>, caller: UserId, pk: MappingId)
    requires DestroyTarget(ms, patients, caller, pk)
    ensures DestroyTarget(SoftDeleted(ms, pk), patients, caller, pk)
    ensures SoftDeleted(SoftDeleted(ms, pk), pk) == SoftDeleted(ms, pk)
  {
  }

  /** A soft-deleted mapping leaves the caller's list, and only it does. */
  lemma SoftDeleteHidesFromList(ms: map<MappingId, Mapping>, patients: map<PatientId, Patient>, caller: UserId, pk: MappingId)
    requires pk in ms
    ensures MappingQueryset(SoftDeleted(ms, pk), patients, caller) == MappingQueryset(ms, patients, caller) - {pk}
  {
  }

  /** patient_count drops by one exactly when the deleted row was an active assignment of the doctor. */
  lemma PatientCountAfterSoftDelete(ms: map<MappingId, Mapping>, pk: MappingId, did: DoctorId)
    requires pk in ms
    ensures PatientCount(SoftDeleted(ms, pk), did)
            == PatientCount(ms, did) - (if ms[pk].isActive && ms[pk].doctor == did then 1 else 0)
  {
    var before := ActiveAssignments(ms, did);
    var after := ActiveAssignments(SoftDeleted(ms, pk), did);
    assert after == before - {pk};
  }

  /** patient_count grows by one exactly when a stored row is an active assignment of the doctor. */
  lemma PatientCountAfterInsert(ms: map<MappingId, Mapping>, id: MappingId, row: Mapping, did: DoctorId)
    requires id !in ms
    requires InsertMapping(ms, id, row).Ok?
    ensures PatientCount(InsertMapping(ms, id, row).value, did)
            == PatientCount(ms, did) + (if row.isActive && row.doctor == did then 1 else 0)
  {
    var before := ActiveAssignments(ms, did);
    var after := ActiveAssignments(InsertMapping(ms, id, row).value, did);
    if row.isActive && row.doctor == did {
      assert after == before + {id};
    } else {
      assert after == before;
    }
  }

  /**
   * The path of a new mapping: field-level validation (notes is stored
   * stripped), the validator DRF generates for unique_together, the
   * serializer's validate(), then the insert under the unique_together
   * constraint. id is the key the table gives the new row.
   */
  function CreateMappingRows(db: Db, caller: UserId, input: MappingInput, id: MappingId): (r: Result<map<MappingId, Mapping>>)
    requires id !in db.mappings
    ensures r.Ok? <==> && input.patient in db.patients && input.doctor in db.doctors && !HasNul(input.notes)
                       && db.patients[input.patient].createdBy == caller
                       && !PairTaken(db.mappings, input.patient, input.doctor)
    ensures r.Ok? ==> r.value == db.mappings[id := NewMappingRow(input.(notes := Text.Trim(input.notes)))]
    ensures MappingFieldErrors(db.patients, db.doctors, input) != {} ==>
              r == Err(FieldErrors(MappingFieldErrors(db.patients, db.doctors, input)))
    ensures (MappingFieldErrors(db.patients, db.doctors, input) == {} && PairTaken(db.mappings, input.patient, input.doctor))
              ==> r == Err(ValidationError(PairNotUnique))
    ensures (&& MappingFieldErrors(db.patients, db.doctors, input) == {}
             && !PairTaken(db.mappings, input.patient, input.doctor)
             && db.patients[input.patient].createdBy != caller)
              ==> r == Err(ValidationError(NotOwnPatient))
  {
    var fields := MappingFieldErrors(db.patients, db.doctors, input);
    if fields != {} then Err(FieldErrors(fields))
    else
      var attrs := input.(notes := Text.Trim(input.notes));
      match UniqueTogetherCheck(db.mappings, attrs)
      case Fail(e) => Err(e)
      case Pass =>
        match ValidateMapping(db.mappings, db.patients, caller, attrs)
        case Err(e) => Err(e)
        case Ok(validated) => InsertMapping(db.mappings, id, NewMappingRow(validated))
  }

  /** A successful creation keeps every storage invariant. */
  lemma CreateMappingKeepsConsistency(db: Db, caller: UserId, input: MappingInput, id: MappingId)
    requires Consistent(db) && id !in db.mappings
    requires CreateMappingRows(db, caller, input, id).Ok?
    ensures Consistent(db.(mappings := CreateMappingRows(db, caller, input, id).value))
  {
  }

  /**
   * Because the generated validator runs first and sees every stored pair,
   * a creation request never gets validate()'s duplicate message, never
   * reaches a refused insert, and gets "You can only assign doctors to your
   * own patients" only for a pair that is not stored.
   */
  lemma GeneratedValidatorDecidesDuplicates(db: Db, caller: UserId, input: MappingInput, id: MappingId)
    requires id !in db.mappings
    ensures CreateMappingRows(db, caller, input, id) != Err(ValidationError(AlreadyAssigned))
    ensures CreateMappingRows(db, caller, input, id) != Err(IntegrityError)
    ensures (CreateMappingRows(db, caller, input, id) == Err(ValidationError(NotOwnPatient)))
              ==> !PairTaken(db.mappings, input.patient, input.doctor)
  {
    if MappingFieldErrors(db.patients, db.doctors, input) == {} && !PairTaken(db.mappings, input.patient, input.doctor) {
      var attrs := input.(notes := Text.Trim(input.notes));
      assert !HasActiveMapping(db.mappings, attrs.patient, attrs.doctor);
    }
  }

  /**
   * An actively assigned pair: validate() on its own would answer with the
   * duplicate message, but the generated validator refuses the request first,
   * unless the notes are refused as a field error before that.
   */
  lemma ActiveDuplicateRefused(db: Db, caller: UserId, input: MappingInput, id: MappingId)
    requires id !in db.mappings && input.patient in db.patients && input.doctor in db.doctors
    requires HasActiveMapping(db.mappings, input.patient, input.doctor)
    ensures ValidateMapping(db.mappings, db.patients, caller, input) == Err(ValidationError(AlreadyAssigned))
    ensures CreateMappingRows(db, caller, input, id)
            == if HasNul(input.notes) then Err(FieldErrors({"notes"})) else Err(ValidationError(PairNotUnique))
  {
    ActiveDuplicateIsStoredPair(db.mappings, input);
    if HasNul(input.notes) {
      assert MappingFieldErrors(db.patients, db.doctors, input) == {"notes"};
    }
  }

  /**
   * After destroy, assigning the same doctor to the same patient again
   * passes the serializer's validate() -- it looks only at active rows -- but
   * the insert would be refused, because unique_together counts the inactive
   * row; the request itself is refused earlier, by the generated validator,
   * unless the notes are refused as a field error before that.
   */
  lemma ReassignAfterSoftDeleteRefused(db: Db, caller: UserId, pk: MappingId, input: MappingInput, id: MappingId)
    requires Consistent(db)
    requires DestroyTarget(db.mappings, db.patients, caller, pk)
    requires input.patient == db.mappings[pk].patient && input.doctor == db.mappings[pk].doctor
    requires id !in db.mappings
    ensures var after := db.(mappings := SoftDeleted(db.mappings, pk));
      && ValidateMapping(after.mappings, after.patients, caller, input) == Ok(input)
      && InsertMapping(after.mappings, id, NewMappingRow(input)) == Err(IntegrityError)
      && CreateMappingRows(after, caller, input, id)
         == if HasNul(input.notes) then Err(FieldErrors({"notes"})) else Err(ValidationError(PairNotUnique))
  {
    var after := SoftDeleted(db.mappings, pk);
    forall other | other in after && after[other].patient == input.patient && after[other].doctor == input.doctor
      ensures other == pk
    {
      assert db.mappings[other].patient == db.mappings[pk].patient && db.mappings[other].doctor == db.mappings[pk].doctor;
    }
    assert PairTaken(after, input.patient, input.doctor) by {
      assert after[pk].patient == input.patient && after[pk].doctor == input.doctor;
    }
    if HasNul(input.notes) {
      assert MappingFieldErrors(db.patients, db.doctors, input) == {"notes"};
    }
  }
}
