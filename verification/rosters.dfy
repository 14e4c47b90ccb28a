/** Driver rosters. Every roster route sits behind the staff guard. */
module Rosters {
  import opened Wrappers
  import opened Http
  import opened Collection
  import opened Model
  import Auth
  import Staffs

  const InvalidRosterId := "Invalid roster id"
  const RosterNotFound := "Roster not found"
  const RosterIncomplete := "Roster must include these information"

  datatype RosterForm = RosterForm(
    date: Field, driverName: Field, vehiclePlate: Field, startTime: Field,
    finishTime: Field, availabilityTime: Option<seq<string>>,
    availabilityStatus: Option<seq<string>>)

  /** What creation requires: the driver, the vehicle and both times. */
  predicate CreateComplete(f: RosterForm) {
    Truthy(f.driverName) && Truthy(f.vehiclePlate) && Truthy(f.startTime) && Truthy(f.finishTime)
  }

  /** What an update requires: every field. An array is truthy even when empty, so
      the two lists need only be present. */
  predicate UpdateComplete(f: RosterForm) {
    && Truthy(f.date) && CreateComplete(f)
    && f.availabilityTime.Some? && f.availabilityStatus.Some?
  }

  /** The roster a form describes; the date and the lists are kept as given. */
  function FromForm(f: RosterForm): Roster
    requires CreateComplete(f)
  {
    Roster(f.date, f.driverName.value, f.vehiclePlate.value, f.startTime.value,
      f.finishTime.value, f.availabilityTime, f.availabilityStatus)
  }

  /** `getRoster`: malformed id (400), no such roster (404), otherwise the roster. */
  function GetRoster(s: Store, ses: Session, rosterId: Id, validId: Id -> bool): (r: Reply<Doc<Roster>>)
    ensures r.store == s && r.session == ses && r.outbox == []
    ensures !validId(rosterId) ==> r.result == Err(400, InvalidRosterId)
    ensures validId(rosterId) && !Has(s.rosters, rosterId) ==> r.result == Err(404, RosterNotFound)
    ensures r.result.Ok? <==> validId(rosterId) && Has(s.rosters, rosterId)
    ensures r.result.Ok? ==> r.result == Ok(200, Doc(rosterId, Find(s.rosters, rosterId).value))
  {
    match Lookup(s.rosters, rosterId, validId, InvalidRosterId, RosterNotFound)
    case Err(status, message) => Reject(s, ses, status, message)
    case Ok(_, doc) => Reply(s, ses, [], Ok(200, doc))
  }

  /** `createRoster`: driver, vehicle, start or finish missing (400); otherwise one
      new roster, with or without a date and lists. */
  function CreateRoster(s: Store, ses: Session, f: RosterForm): (r: Reply<Doc<Roster>>)
    ensures r.session == ses && r.outbox == []
    ensures !CreateComplete(f) ==> r == Reject(s, ses, 400, RosterIncomplete)
    ensures r.result.Ok? <==> CreateComplete(f)
    ensures r.result.Ok? ==>
      var doc := r.result.value;
      && r.result.status == 201
      && doc.data == FromForm(f)
      && !Has(s.rosters, doc.id)
      && r.store == s.(rosters := s.rosters + [doc])
  {
    if !CreateComplete(f) then Reject(s, ses, 400, RosterIncomplete)
    else
      var id := FreshId(s.rosters);
      Reply(s.(rosters := Insert(s.rosters, id, FromForm(f))), ses, [], Ok(201, Doc(id, FromForm(f))))
  }

  /** `updateRoster`: malformed id (400), then any of the seven fields missing (400),
      then no such roster (404); otherwise every field is overwritten and no other
      roster changes. */
  function UpdateRoster(s: Store, ses: Session, rosterId: Id, f: RosterForm, validId: Id -> bool)
    : (r: Reply<Doc<Roster>>)
    ensures r.session == ses && r.outbox == []
    ensures !validId(rosterId) ==> r == Reject(s, ses, 400, InvalidRosterId)
    ensures validId(rosterId) && !UpdateComplete(f) ==> r == Reject(s, ses, 400, RosterIncomplete)
    ensures validId(rosterId) && UpdateComplete(f) && !Has(s.rosters, rosterId) ==>
      r == Reject(s, ses, 404, RosterNotFound)
    ensures r.result.Ok? <==> validId(rosterId) && UpdateComplete(f) && Has(s.rosters, rosterId)
    ensures r.result.Ok? ==>
      && r.result == Ok(200, Doc(rosterId, FromForm(f)))
      && Find(r.store.rosters, rosterId) == Some(FromForm(f))
      && (forall x | x != rosterId :: Find(r.store.rosters, x) == Find(s.rosters, x))
      && (forall x :: Has(r.store.rosters, x) == Has(s.rosters, x))
      && r.store == s.(rosters := r.store.rosters)
  {
    if !validId(rosterId) then Reject(s, ses, 400, InvalidRosterId)
    else if !UpdateComplete(f) then Reject(s, ses, 400, RosterIncomplete)
    else if !Has(s.rosters, rosterId) then Reject(s, ses, 404, RosterNotFound)
    else
      var v := FromForm(f);
      Reply(s.(rosters := Replace(s.rosters, rosterId, v)), ses, [], Ok(200, Doc(rosterId, v)))
  }

  /** `deleteRoster`: malformed id (400), no such roster (404); otherwise the roster
      is removed and no other roster changes. */
  function DeleteRoster(s: Store, ses: Session, rosterId: Id, validId: Id -> bool): (r: Reply<()>)
    ensures r.session == ses && r.outbox == []
    ensures !validId(rosterId) ==> r == Reject(s, ses, 400, InvalidRosterId)
    ensures validId(rosterId) && !Has(s.rosters, rosterId) ==> r == Reject(s, ses, 404, RosterNotFound)
    ensures r.result.Ok? <==> validId(rosterId) && Has(s.rosters, rosterId)
    ensures r.result.Ok? ==>
      && r.result.status == 204
      && !Has(r.store.rosters, rosterId)
      && (forall x | x != rosterId :: Find(r.store.rosters, x) == Find(s.rosters, x))
      && r.store == s.(rosters := r.store.rosters)
  {
    match Lookup(s.rosters, rosterId, validId, InvalidRosterId, RosterNotFound)
    case Err(status, message) => Reject(s, ses, status, message)
    case Ok(_, _) => Reply(s.(rosters := Remove(s.rosters, rosterId)), ses, [], Ok(204, ()))
  }

  /** A request on the roster routes. */
  datatype RosterRequest =
    | GetOne(rosterId: Id)
    | Create(form: RosterForm)
    | Update(rosterId: Id, form: RosterForm)
    | Delete(rosterId: Id)

  /** The handler a request reaches once past the guard; a delete answers with no
      body. */
  function Dispatch(s: Store, ses: Session, req: RosterRequest, validId: Id -> bool): Reply<Option<Doc<Roster>>> {
    match req
    case GetOne(id) => WithBody(GetRoster(s, ses, id, validId))
    case Create(f) => WithBody(CreateRoster(s, ses, f))
    case Update(id, f) => WithBody(UpdateRoster(s, ses, id, f, validId))
    case Delete(id) =>
      var r := DeleteRoster(s, ses, id, validId);
      Reply(r.store, r.session, r.outbox, match r.result
        case Ok(status, _) => Ok(status, None)
        case Err(status, message) => Err(status, message))
  }

  function WithBody(r: Reply<Doc<Roster>>): Reply<Option<Doc<Roster>>> {
    Reply(r.store, r.session, r.outbox, match r.result
      case Ok(status, doc) => Ok(status, Some(doc))
      case Err(status, message) => Err(status, message))
  }

  /** The mount of the roster routes: the staff guard runs first and either rejects
      or hands the request on. */
  function RosterRoute(s: Store, ses: Session, req: RosterRequest, validId: Id -> bool): (r: Reply<Option<Doc<Roster>>>)
    ensures Auth.IsStaffSession(s.staffs, ses) ==> r == Dispatch(s, ses, req, validId)
    ensures !Auth.IsStaffSession(s.staffs, ses) ==> r == Reject(s, ses, 401, Auth.StaffNotAuthenticated)
  {
    match Auth.StaffGuard(s.staffs, ses)
    case Pass => Dispatch(s, ses, req, validId)
    case Reject(status, message) => Reject(s, ses, status, message)
  }

  /** No roster route changes anything, or answers other than 401, for a caller
      without a staff session. */
  lemma NoStaffNoChange(s: Store, ses: Session, req: RosterRequest, validId: Id -> bool)
    requires ses.staffId.None?
    ensures RosterRoute(s, ses, req, validId).store == s
    ensures RosterRoute(s, ses, req, validId).result == Err(401, Auth.StaffNotAuthenticated)
  {
  }

  /** Only the staff guard stands between a rosters request and its handler: a
      fresh staff sign-up can create a roster at once. */
  lemma SignUpThenCreate(s: Store, ses: Session, email: Field, f: RosterForm, validId: Id -> bool)
    requires Staffs.StaffSignUp(s, ses, email).result.Ok?
    requires CreateComplete(f)
    ensures var a := Staffs.StaffSignUp(s, ses, email);
      RosterRoute(a.store, a.session, Create(f), validId).result.Ok?
  {
    Staffs.SignUpPassesGuard(s, ses, email);
  }

  /** An update is read back, and repeating it changes nothing more. */
  lemma UpdateThenGet(s: Store, ses: Session, rosterId: Id, f: RosterForm, validId: Id -> bool)
    requires UpdateRoster(s, ses, rosterId, f, validId).result.Ok?
    ensures var r := UpdateRoster(s, ses, rosterId, f, validId);
      && GetRoster(r.store, ses, rosterId, validId).result == Ok(200, Doc(rosterId, FromForm(f)))
      && UpdateRoster(r.store, ses, rosterId, f, validId).store == r.store
  {
    var r := UpdateRoster(s, ses, rosterId, f, validId);
    var a := r.store.rosters;
    var b := UpdateRoster(r.store, ses, rosterId, f, validId).store.rosters;
    forall i | 0 <= i < |a|
      ensures a[i] == b[i]
    {
    }
    assert a == b;
  }

  /** Creation accepts forms an update would refuse: without a date or lists. */
  lemma CreateLaxerThanUpdate(s: Store, ses: Session, f: RosterForm, rosterId: Id, validId: Id -> bool)
    requires CreateComplete(f) && f.date.None? && validId(rosterId)
    ensures CreateRoster(s, ses, f).result.Ok?
    ensures UpdateRoster(s, ses, rosterId, f, validId) == Reject(s, ses, 400, RosterIncomplete)
  {
  }

  /** A deleted roster is no longer found. */
  lemma DeleteThenGet(s: Store, ses: Session, rosterId: Id, validId: Id -> bool)
    requires DeleteRoster(s, ses, rosterId, validId).result.Ok?
    ensures GetRoster(DeleteRoster(s, ses, rosterId, validId).store, ses, rosterId, validId).result
      == Err(404, RosterNotFound)
  {
  }
}
