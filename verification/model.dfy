/** The records the handlers read and write, the store that holds them, the
    session, and the shape of one handled request. */
module Model {
  import opened Wrappers
  import opened Http
  import opened Collection

  /** The personal fields a user sign-up and a registration form share; each is
      stored as the request gave it. */
  datatype Profile = Profile(
    firstName: Field, lastName: Field, dob: Field, email: Field, address: Field,
    town: Field, postcode: Field, phoneNumber: Field, altPhoneNumber: Field,
    gender: Field, ethnicity: Field, disability: Field, disabilityDetails: Field,
    assistance: Field, emergencyName: Field, emergencyPhone: Field,
    emergencyRelationship: Field)

  /** A passenger account; `password` holds the hash, never the raw secret. */
  datatype User = User(username: string, password: string, profile: Profile, role: string)

  datatype Staff = Staff(email: string, role: string)

  /** A ride request, owned by the user whose id is `userId`; `date` is a
      calendar-day string compared by exact equality. */
  datatype Booking = Booking(
    userId: Id, firstName: string, lastName: string, phoneNumber: string,
    email: string, pickup: string, destination: string, wheelchair: string,
    passenger: int, purpose: string, trip: string, date: string,
    pickupTime: string, dropoffTime: string, additionalNotes: Field)

  datatype Calendar = Calendar(
    date: string, title: string, description: string, location: string,
    startTime: string, endTime: string)

  datatype Roster = Roster(
    date: Field, driverName: string, vehiclePlate: string, startTime: string,
    finishTime: string, availabilityTime: Option<seq<string>>,
    availabilityStatus: Option<seq<string>>)

  /** A registration application; `password` holds the hash. */
  datatype Register = Register(username: string, password: string, profile: Profile)

  /** The persistent store: one collection per model. */
  datatype Store = Store(
    users: Coll<User>, staffs: Coll<Staff>, bookings: Coll<Booking>,
    calendars: Coll<Calendar>, rosters: Coll<Roster>, registers: Coll<Register>)

  /** The identity fields of the server-side session; they are only ever set to
      the id of a stored document. */
  datatype Session = Session(userId: Option<Id>, staffId: Option<Id>)

  /** The session a destroyed session is replaced by: no identity at all. */
  const NoSession := Session(None, None)

  /** What one handled request leaves behind: the store, the session, the sends it
      attempted, and the response. */
  datatype Reply<T> = Reply(store: Store, session: Session, outbox: seq<Attempt>, result: Result<T>)

  /** A request that ends with an error and changes nothing. */
  function Reject<T>(s: Store, ses: Session, status: int, message: string): (r: Reply<T>)
    ensures r.store == s && r.session == ses && r.outbox == []
    ensures r.result == Err(status, message)
  {
    Reply(s, ses, [], Err(status, message))
  }

  /** `req.session.destroy`: the identity is gone, unless the session store reports
      a failure, which reaches the error handler as a 500. */
  function Destroy(s: Store, ses: Session, destroyFails: bool): (r: Reply<()>)
    ensures r.store == s && r.outbox == []
    ensures !destroyFails ==> r.session == NoSession && r.result == Ok(200, ())
    ensures destroyFails ==> r.session == ses && r.result == Err(500, UnknownMessage)
  {
    if destroyFails then Reply(s, ses, [], Respond(Other))
    else Reply(s, NoSession, [], Ok(200, ()))
  }

  /** `isValidObjectId` followed by `findById`: 400 for a malformed id, 404 when no
      document has it, otherwise the document. */
  function Lookup<T>(c: Coll<T>, id: Id, validId: Id -> bool, invalid: string, missing: string)
    : (r: Result<Doc<T>>)
    ensures !validId(id) ==> r == Err(400, invalid)
    ensures validId(id) && !Has(c, id) ==> r == Err(404, missing)
    ensures r.Ok? <==> validId(id) && Has(c, id)
    ensures r.Ok? ==> r.status == 200 && r.value.id == id && Find(c, id) == Some(r.value.data)
  {
    if !validId(id) then Err(400, invalid)
    else match Find(c, id)
      case None => Err(404, missing)
      case Some(v) => Ok(200, Doc(id, v))
  }
}
