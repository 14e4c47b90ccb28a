/** Registration applications: creation with the hashed password, lookup, and the
    two deletes, one of which first notifies the applicant of the denial. */
module Registers {
  import opened Wrappers
  import opened Http
  import opened Collection
  import opened Model
  import Users

  const InvalidRegisterId := "Invalid register id"
  const RegisterNotFound := "Register form not found"
  const RegisterIncomplete := "Register form must include all required information"
  const DenialSubject := "Your Registration"

  /** Every required field is present: all of the form except the alternative
      phone number and the disability details. */
  predicate Complete(f: Users.SignUpForm) {
    var p := f.profile;
    && Truthy(f.username) && Truthy(f.password)
    && Truthy(p.firstName) && Truthy(p.lastName) && Truthy(p.dob) && Truthy(p.email)
    && Truthy(p.address) && Truthy(p.town) && Truthy(p.postcode) && Truthy(p.phoneNumber)
    && Truthy(p.gender) && Truthy(p.ethnicity) && Truthy(p.disability) && Truthy(p.assistance)
    && Truthy(p.emergencyName) && Truthy(p.emergencyPhone) && Truthy(p.emergencyRelationship)
  }

  /** The applicant's address, "" when the record has none. */
  function Applicant(r: Register): string {
    OrEmpty(r.profile.email)
  }

  /** `getRegister`: malformed id (400), no such form (404), otherwise the form. */
  function GetRegister(s: Store, ses: Session, registerId: Id, validId: Id -> bool): (r: Reply<Doc<Register>>)
    ensures r.store == s && r.session == ses && r.outbox == []
    ensures !validId(registerId) ==> r.result == Err(400, InvalidRegisterId)
    ensures validId(registerId) && !Has(s.registers, registerId) ==> r.result == Err(404, RegisterNotFound)
    ensures r.result.Ok? <==> validId(registerId) && Has(s.registers, registerId)
    ensures r.result.Ok? ==> r.result == Ok(200, Doc(registerId, Find(s.registers, registerId).value))
  {
    match Lookup(s.registers, registerId, validId, InvalidRegisterId, RegisterNotFound)
    case Err(status, message) => Reject(s, ses, status, message)
    case Ok(_, doc) => Reply(s, ses, [], Ok(200, doc))
  }

  /** `createRegister`: any required field missing (400); otherwise one new form
      holding the hash of the password and every other field as given, the two
      optional ones included. */
  function CreateRegister(s: Store, ses: Session, f: Users.SignUpForm, hash: string -> string)
    : (r: Reply<Doc<Register>>)
    ensures r.session == ses && r.outbox == []
    ensures !Complete(f) ==> r == Reject(s, ses, 400, RegisterIncomplete)
    ensures r.result.Ok? <==> Complete(f)
    ensures r.result.Ok? ==>
      var doc := r.result.value;
      && r.result.status == 201
      && doc.data == Register(f.username.value, hash(f.password.value), f.profile)
      && !Has(s.registers, doc.id)
      && r.store == s.(registers := s.registers + [doc])
  {
    if !Complete(f) then Reject(s, ses, 400, RegisterIncomplete)
    else
      var id := FreshId(s.registers);
      var v := Register(f.username.value, hash(f.password.value), f.profile);
      Reply(s.(registers := Insert(s.registers, id, v)), ses, [], Ok(201, Doc(id, v)))
  }

  /** `deleteRegisterWithEmail`: malformed id (400), no such form (404); otherwise
      the denial notice is sent to the applicant first. Only when the send succeeds
      is the form removed; a rejected send is answered with 500 and the form stays. */
  function DeleteRegisterWithEmail(s: Store, ses: Session, registerId: Id, validId: Id -> bool, fails: FailureOracle)
    : (r: Reply<()>)
    ensures r.session == ses
    ensures !validId(registerId) ==> r == Reject(s, ses, 400, InvalidRegisterId)
    ensures validId(registerId) && !Has(s.registers, registerId) ==> r == Reject(s, ses, 404, RegisterNotFound)
    ensures validId(registerId) && Has(s.registers, registerId) ==>
      && r.outbox == [Attempt(Mail(Users.NoticeAddress, Applicant(Find(s.registers, registerId).value), DenialSubject), !fails(0))]
      && (fails(0) ==> r.store == s && r.result == Err(500, UnknownMessage))
      && (!fails(0) ==> r.result == Ok(204, ()) && r.store == s.(registers := Remove(s.registers, registerId)))
  {
    match Lookup(s.registers, registerId, validId, InvalidRegisterId, RegisterNotFound)
    case Err(status, message) => Reject(s, ses, status, message)
    case Ok(_, doc) =>
      var sent := Attempt(Mail(Users.NoticeAddress, Applicant(doc.data), DenialSubject), !fails(0));
      if fails(0) then Reply(s, ses, [sent], Respond(Other))
      else Reply(s.(registers := Remove(s.registers, registerId)), ses, [sent], Ok(204, ()))
  }

  /** `deleteRegisterWithoutEmail`: the same checks, then the form is removed. */
  function DeleteRegisterWithoutEmail(s: Store, ses: Session, registerId: Id, validId: Id -> bool): (r: Reply<()>)
    ensures r.session == ses && r.outbox == []
    ensures !validId(registerId) ==> r == Reject(s, ses, 400, InvalidRegisterId)
    ensures validId(registerId) && !Has(s.registers, registerId) ==> r == Reject(s, ses, 404, RegisterNotFound)
    ensures r.result.Ok? <==> validId(registerId) && Has(s.registers, registerId)
    ensures r.result.Ok? ==>
      && r.result.status == 204
      && !Has(r.store.registers, registerId)
      && (forall x | x != registerId :: Find(r.store.registers, x) == Find(s.registers, x))
      && r.store == s.(registers := r.store.registers)
  {
    match Lookup(s.registers, registerId, validId, InvalidRegisterId, RegisterNotFound)
    case Err(status, message) => Reject(s, ses, status, message)
    case Ok(_, _) => Reply(s.(registers := Remove(s.registers, registerId)), ses, [], Ok(204, ()))
  }

  /** When the denial notice goes out, the two deletes leave the same store and the
      same response; they differ only in the notice. */
  lemma DeletesAgreeOnStore(s: Store, ses: Session, registerId: Id, validId: Id -> bool, fails: FailureOracle)
    requires !fails(0)
    ensures var a := DeleteRegisterWithEmail(s, ses, registerId, validId, fails);
      var b := DeleteRegisterWithoutEmail(s, ses, registerId, validId);
      a.store == b.store && a.result == b.result
  {
  }

  /** A created form is read back with the hashed password and the applicant's
      address; the denial notice for it goes to that address. */
  lemma CreateThenDeny(s: Store, ses: Session, f: Users.SignUpForm, hash: string -> string, validId: Id -> bool, fails: FailureOracle)
    requires Complete(f) && validId(FreshId(s.registers))
    ensures var r := CreateRegister(s, ses, f, hash);
      var id := r.result.value.id;
      && GetRegister(r.store, ses, id, validId).result == Ok(200, r.result.value)
      && DeleteRegisterWithEmail(r.store, ses, id, validId, fails).outbox
         == [Attempt(Mail(Users.NoticeAddress, f.profile.email.value, DenialSubject), !fails(0))]
  {
  }

  /** After a delete of either kind the form is no longer found. */
  lemma DeleteThenGet(s: Store, ses: Session, registerId: Id, validId: Id -> bool, fails: FailureOracle)
    requires validId(registerId) && Has(s.registers, registerId) && !fails(0)
    ensures GetRegister(DeleteRegisterWithEmail(s, ses, registerId, validId, fails).store, ses, registerId, validId).result
      == Err(404, RegisterNotFound)
    ensures GetRegister(DeleteRegisterWithoutEmail(s, ses, registerId, validId).store, ses, registerId, validId).result
      == Err(404, RegisterNotFound)
  {
  }
}
