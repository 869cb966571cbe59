/** The two object-permission rules, as decisions over the request and the target object. */
module Permissions {
  import opened Results
  import opened Models

  /** What a permission check sees of the request: its HTTP method and the authenticated caller. */
  datatype Request = Request(httpMethod: string, user: UserId)

  /**
   * What a permission check sees of the target object: its created_by, when it
   * has that attribute, and its patient, when it has that attribute.
   */
  datatype ObjView = ObjView(createdBy: Option<UserId>, patient: Option<Patient>)

  function PatientObj(p: Patient): ObjView
  {
    ObjView(Some(p.createdBy), None)
  }

  function MappingObj(p: Patient): ObjView
  {
    ObjView(None, Some(p))
  }

  /** permissions.SAFE_METHODS. */
  const SafeMethods: set<string> := {"GET", "HEAD", "OPTIONS"}

  predicate IsSafe(httpMethod: string)
  {
    httpMethod in SafeMethods
  }

  /** IsOwnerOrReadOnly.has_object_permission, for an object whose created_by is owner. */
  function IsOwnerOrReadOnly(req: Request, owner: UserId): (allowed: bool)
    ensures IsSafe(req.httpMethod) ==> allowed
    ensures !IsSafe(req.httpMethod) ==> (allowed <==> owner == req.user)
  {
    if IsSafe(req.httpMethod) then true else owner == req.user
  }

  /** IsPatientOwner.has_object_permission. The method plays no part. */
  function IsPatientOwner(req: Request, obj: ObjView): (allowed: bool)
    ensures obj.createdBy.Some? ==> (allowed <==> obj.createdBy.value == req.user)
    ensures obj.createdBy.None? && obj.patient.Some? ==> (allowed <==> obj.patient.value.createdBy == req.user)
    ensures obj.createdBy.None? && obj.patient.None? ==> !allowed
  {
    if obj.createdBy.Some? then obj.createdBy.value == req.user
    else if obj.patient.Some? then obj.patient.value.createdBy == req.user
    else false
  }

  /**
   * The owner of an object under a single policy: its own created_by or else
   * the owner of the patient it refers to.
   */
  function OwnerOf(obj: ObjView): Option<UserId>
  {
    match obj.createdBy
    case Some(u) => Some(u)
    case None => match obj.patient
      case Some(p) => Some(p.createdBy)
      case None => None
  }

  /** IsPatientOwner permits exactly the owner under that policy, whatever the method. */
  lemma IsPatientOwnerIsOwnerPolicy(req: Request, obj: ObjView)
    ensures IsPatientOwner(req, obj) <==> OwnerOf(obj) == Some(req.user)
    ensures forall m :: IsPatientOwner(Request(m, req.user), obj) == IsPatientOwner(req, obj)
  {
  }

  /** An object with both attributes is judged by created_by alone. */
  lemma CreatedByDecidesFirst(req: Request, owner: UserId, p: Patient)
    ensures IsPatientOwner(req, ObjView(Some(owner), Some(p))) == (owner == req.user)
  {
  }

  /** For a patient the two rules agree on every unsafe method; IsPatientOwner has no read-only carve-out. */
  lemma PatientRulesAgreeOnWrites(req: Request, p: Patient)
    ensures !IsSafe(req.httpMethod) ==> IsOwnerOrReadOnly(req, p.createdBy) == IsPatientOwner(req, PatientObj(p))
    ensures IsPatientOwner(req, PatientObj(p)) ==> IsOwnerOrReadOnly(req, p.createdBy)
  {
  }
}
