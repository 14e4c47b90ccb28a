/** Booking handlers: the caller's own bookings, the staff search with paging, one
    booking by id, creation with its ordered field checks, and the two deletes. */
module Bookings {
  import opened Wrappers
  import opened Http
  import opened Collection
  import opened Model
  import Scheduler
  import Users

  const InvalidBookingId := "Invalid booking id"
  /** `deleteStaffBooking` spells its message with a capital I. */
  const InvalidBookingIdStaff := "Invalid booking Id"
  const BookingNotFound := "Booking not found"
  const NotOwner := "You cannot access this booking"

  const RequestSubject := "Your Booking Request"
  const StaffNoticeSubject := "User's Booking Request"

  /** The bookings whose `userId` is `owner`, in the store's order. */
  function OwnedBy(c: Coll<Booking>, owner: Id): (r: Coll<Booking>)
    ensures |r| <= |c|
    ensures forall d :: d in r <==> d in c && d.data.userId == owner
    decreases |c|
  {
    if |c| == 0 then []
    else
      var rest := OwnedBy(c[1..], owner);
      assert c == [c[0]] + c[1..];
      if c[0].data.userId == owner then [c[0]] + rest else rest
  }

  /** The owner filter keeps the store's order: filtering two parts is filtering
      the whole. */
  lemma {:induction false} OwnedByAppend(a: Coll<Booking>, b: Coll<Booking>, owner: Id)
    ensures OwnedBy(a + b, owner) == OwnedBy(a, owner) + OwnedBy(b, owner)
    decreases |a|
  {
    if |a| == 0 {
      assert a + b == b;
    } else {
      assert (a + b)[0] == a[0] && (a + b)[1..] == a[1..] + b;
      OwnedByAppend(a[1..], b, owner);
    }
  }

  /** `getBookings`: exactly the caller's bookings; without a session user,
      `assertIsDefined` throws and the error handler answers 500. */
  function GetBookings(s: Store, ses: Session): (r: Reply<Coll<Booking>>)
    ensures r.store == s && r.session == ses && r.outbox == []
    ensures ses.userId.None? ==> r.result == Err(500, UnknownMessage)
    ensures ses.userId.Some? ==> r.result == Ok(200, OwnedBy(s.bookings, ses.userId.value))
    ensures r.result.Ok? ==> |r.result.value| <= |s.bookings|
    ensures r.result.Ok? ==> forall d :: d in r.result.value <==> d in s.bookings && d.data.userId == ses.userId.value
  {
    if ses.userId.None? then Reply(s, ses, [], Respond(Other))
    else Reply(s, ses, [], Ok(200, OwnedBy(s.bookings, ses.userId.value)))
  }

  /** The staff search: an optional first-name pattern and an optional exact date.
      `limit` and `page` are the integers `parseInt` reads from the request. */
  datatype Query = Query(name: Field, limit: nat, page: int, date: Field)

  datatype Page = Page(total: nat, page: int, limit: nat, bookings: Coll<Booking>)

  /** A booking matches when each given criterion holds: the name pattern (a
      case-insensitive regular expression, left abstract as `nameMatches`) on the
      first name, and the date by exact string equality. */
  predicate Matches(q: Query, nameMatches: (string, string) -> bool, b: Booking) {
    && (Truthy(q.name) ==> nameMatches(q.name.value, b.firstName))
    && (Truthy(q.date) ==> b.date == q.date.value)
  }

  function Matching(c: Coll<Booking>, q: Query, nameMatches: (string, string) -> bool): (r: Coll<Booking>)
    ensures |r| <= |c|
    ensures forall d :: d in r <==> d in c && Matches(q, nameMatches, d.data)
    decreases |c|
  {
    if |c| == 0 then []
    else
      var rest := Matching(c[1..], q, nameMatches);
      assert c == [c[0]] + c[1..];
      if Matches(q, nameMatches, c[0].data) then [c[0]] + rest else rest
  }

  /** The search keeps the store's order, which the paging below relies on:
      filtering two parts is filtering the whole. */
  lemma {:induction false} MatchingAppend(a: Coll<Booking>, b: Coll<Booking>, q: Query, nameMatches: (string, string) -> bool)
    ensures Matching(a + b, q, nameMatches) == Matching(a, q, nameMatches) + Matching(b, q, nameMatches)
    decreases |a|
  {
    if |a| == 0 {
      assert a + b == b;
    } else {
      assert (a + b)[0] == a[0] && (a + b)[1..] == a[1..] + b;
      MatchingAppend(a[1..], b, q, nameMatches);
    }
  }

  /** With only a date given, the search selects what the reminder scan selects
      for that date. */
  lemma {:induction false} DateSearchIsScan(c: Coll<Booking>, q: Query, nameMatches: (string, string) -> bool)
    requires !Truthy(q.name) && Truthy(q.date)
    ensures Matching(c, q, nameMatches) == Scheduler.DatedOn(c, q.date.value)
    decreases |c|
  {
    if |c| > 0 {
      DateSearchIsScan(c[1..], q, nameMatches);
    }
  }

  /** With neither criterion, nothing is filtered out. */
  lemma {:induction false} EmptySearchMatchesAll(c: Coll<Booking>, q: Query, nameMatches: (string, string) -> bool)
    requires !Truthy(q.name) && !Truthy(q.date)
    ensures Matching(c, q, nameMatches) == c
    decreases |c|
  {
    if |c| > 0 {
      EmptySearchMatchesAll(c[1..], q, nameMatches);
      assert [c[0]] + c[1..] == c;
    }
  }

  /** `.skip(skip).limit(limit)`; a limit of 0 means no limit. */
  function Paginate<T>(xs: seq<T>, skip: nat, limit: nat): (r: seq<T>)
    ensures limit > 0 ==> |r| == if skip >= |xs| then 0 else Min(limit, |xs| - skip)
    ensures limit == 0 ==> |r| == if skip >= |xs| then 0 else |xs| - skip
    ensures forall i | 0 <= i < |r| :: skip + i < |xs| && r[i] == xs[skip + i]
  {
    var rest := if skip >= |xs| then [] else xs[skip..];
    if limit == 0 || |rest| <= limit then rest else rest[..limit]
  }

  function Min(a: int, b: int): int {
    if a <= b then a else b
  }

  /** The first `n` pages laid end to end; page `p` skips `(p - 1) * limit`. */
  function Pages<T>(xs: seq<T>, n: nat, limit: nat): seq<T>
    decreases n
  {
    if n == 0 then [] else Pages(xs, n - 1, limit) + Paginate(xs, (n - 1) * limit, limit)
  }

  /** Paging neither skips nor repeats a match: the first `n` pages are exactly the
      first `n * limit` matches, in order. */
  lemma {:induction false} PagesCover<T>(xs: seq<T>, n: nat, limit: nat)
    requires limit > 0
    ensures Pages(xs, n, limit) == xs[..Min(n * limit, |xs|)]
    decreases n
  {
    if n > 0 {
      PagesCover(xs, n - 1, limit);
      PagesStep(xs, n, limit);
      var lo, hi := Min((n - 1) * limit, |xs|), Min(n * limit, |xs|);
      assert xs[..lo] + xs[lo..hi] == xs[..hi];
    }
  }

  /** Page `n` continues where the first `n - 1` pages stop. */
  lemma PagesStep<T>(xs: seq<T>, n: nat, limit: nat)
    requires limit > 0 && n > 0
    ensures (n - 1) * limit <= n * limit
    ensures Pages(xs, n, limit)
      == Pages(xs, n - 1, limit) + xs[Min((n - 1) * limit, |xs|)..Min(n * limit, |xs|)]
  {
    var skip := (n - 1) * limit;
    assert skip + limit == n * limit;
    PageIsSlice(xs, skip, limit);
  }

  /** One page is the slice of the matches between its skip and its skip plus limit. */
  lemma PageIsSlice<T>(xs: seq<T>, skip: nat, limit: nat)
    requires limit > 0
    ensures Paginate(xs, skip, limit) == xs[Min(skip, |xs|)..Min(skip + limit, |xs|)]
  {
  }

  /** `getAllBookings`: `total` counts every match whatever the page, and the page is
      the slice of the matches that starts after `(page - 1) * limit` of them. Two
      failures reach the handler's `catch` and answer 500: a name that is not a valid
      regular expression (`nameCompiles` says whether `new RegExp` accepts it), and
      a negative skip (page 0 with a positive limit), which the database rejects.
      Nothing is written. */
  function GetAllBookings(s: Store, ses: Session, q: Query, nameCompiles: string -> bool,
                          nameMatches: (string, string) -> bool)
    : (r: Reply<Page>)
    ensures r.store == s && r.session == ses && r.outbox == []
    ensures r.result.Err? <==>
      (Truthy(q.name) && !nameCompiles(q.name.value)) || (q.page - 1) * q.limit < 0
    ensures r.result.Err? ==> r.result == Err(500, UnknownMessage)
    ensures r.result.Ok? ==> var m := Matching(s.bookings, q, nameMatches);
      && r.result.status == 200
      && r.result.value.total == |m|
      && r.result.value.page == q.page && r.result.value.limit == q.limit
      && |r.result.value.bookings| <= |m|
      && (q.limit > 0 ==> |r.result.value.bookings| <= q.limit)
      && r.result.value.bookings == Paginate(m, (q.page - 1) * q.limit, q.limit)
  {
    var skip := (q.page - 1) * q.limit;
    if Truthy(q.name) && !nameCompiles(q.name.value) then Reply(s, ses, [], Respond(Other))
    else if skip < 0 then Reply(s, ses, [], Respond(Other))
    else
      var m := Matching(s.bookings, q, nameMatches);
      Reply(s, ses, [], Ok(200, Page(|m|, q.page, q.limit, Paginate(m, skip, q.limit))))
  }

  /** With no limit, page 1 is every match. */
  lemma NoLimitFirstPageIsAll(s: Store, ses: Session, q: Query, nameCompiles: string -> bool,
                               nameMatches: (string, string) -> bool)
    requires q.limit == 0 && q.page == 1
    requires Truthy(q.name) ==> nameCompiles(q.name.value)
    ensures GetAllBookings(s, ses, q, nameCompiles, nameMatches).result == Ok(200, Page(|Matching(s.bookings, q, nameMatches)|, 1, 0, Matching(s.bookings, q, nameMatches)))
  {
  }

  /** `getBooking`: no session user (500), malformed id (400), no such booking
      (404), a booking of someone else (401); otherwise the booking. */
  function GetBooking(s: Store, ses: Session, bookingId: Id, validId: Id -> bool): (r: Reply<Doc<Booking>>)
    ensures r.store == s && r.session == ses && r.outbox == []
    ensures ses.userId.None? ==> r.result == Err(500, UnknownMessage)
    ensures ses.userId.Some? && !validId(bookingId) ==> r.result == Err(400, InvalidBookingId)
    ensures ses.userId.Some? && validId(bookingId) && !Has(s.bookings, bookingId) ==>
      r.result == Err(404, BookingNotFound)
    ensures ses.userId.Some? && validId(bookingId) && Has(s.bookings, bookingId) ==>
      var b := Find(s.bookings, bookingId).value;
      r.result == if b.userId != ses.userId.value then Err(401, NotOwner) else Ok(200, Doc(bookingId, b))
  {
    if ses.userId.None? then Reply(s, ses, [], Respond(Other))
    else match Lookup(s.bookings, bookingId, validId, InvalidBookingId, BookingNotFound)
      case Err(status, message) => Reject(s, ses, status, message)
      case Ok(_, doc) =>
        if doc.data.userId != ses.userId.value then Reject(s, ses, 401, NotOwner)
        else Reply(s, ses, [], Ok(200, doc))
  }

  datatype BookingForm = BookingForm(
    firstName: Field, lastName: Field, phoneNumber: Field, email: Field,
    pickup: Field, destination: Field, wheelchair: Field, passenger: Option<int>,
    purpose: Field, trip: Field, date: Field, pickupTime: Field,
    dropoffTime: Field, additionalNotes: Field)

  /** JavaScript truthiness of the passenger count: absent and 0 are falsy. */
  predicate TruthyCount(n: Option<int>) {
    n.Some? && n.value != 0
  }

  const MissingName := "Booking must have a passenger's name"
  const MissingPhone := "Booking must have a passenger's phone number"
  const MissingEmail := "Booking must have a passenger's email address"
  const MissingPickup := "Booking must have a pick-up address"
  const MissingDestination := "Booking must have a destination address"
  const MissingWheelchair := "Booking must have a wheelchair question answered"
  const MissingPassenger := "Booking must state the number of passengers"
  const MissingPurpose := "Booking must have a purpose"
  const MissingTrip := "Booking must have the number of trips"
  const MissingDate := "Booking must have a booking date"
  const MissingPickupTime := "Booking must have a pick-up time"
  const MissingDropoffTime := "Booking must have a drop-off time"

  /** The checks `createBooking` makes, in its order, each with its message. */
  function BookingChecks(f: BookingForm): seq<(bool, string)> {
    [ (Truthy(f.firstName) && Truthy(f.lastName), MissingName),
      (Truthy(f.phoneNumber), MissingPhone),
      (Truthy(f.email), MissingEmail),
      (Truthy(f.pickup), MissingPickup),
      (Truthy(f.destination), MissingDestination),
      (Truthy(f.wheelchair), MissingWheelchair),
      (TruthyCount(f.passenger), MissingPassenger),
      (Truthy(f.purpose), MissingPurpose),
      (Truthy(f.trip), MissingTrip),
      (Truthy(f.date), MissingDate),
      (Truthy(f.pickupTime), MissingPickupTime),
      (Truthy(f.dropoffTime), MissingDropoffTime) ]
  }

  /** Every required field of the form is present. */
  predicate Complete(f: BookingForm) {
    && Truthy(f.firstName) && Truthy(f.lastName) && Truthy(f.phoneNumber)
    && Truthy(f.email) && Truthy(f.pickup) && Truthy(f.destination)
    && Truthy(f.wheelchair) && TruthyCount(f.passenger) && Truthy(f.purpose)
    && Truthy(f.trip) && Truthy(f.date) && Truthy(f.pickupTime) && Truthy(f.dropoffTime)
  }

  /** The booking a complete form describes, owned by `owner`. */
  function FromForm(f: BookingForm, owner: Id): Booking
    requires Complete(f)
  {
    Booking(owner, f.firstName.value, f.lastName.value, f.phoneNumber.value,
      f.email.value, f.pickup.value, f.destination.value, f.wheelchair.value,
      f.passenger.value, f.purpose.value, f.trip.value, f.date.value,
      f.pickupTime.value, f.dropoffTime.value, f.additionalNotes)
  }

  /** The check chain passes exactly when the form is complete. */
  lemma ChecksPassIffComplete(f: BookingForm)
    ensures FirstFailure(BookingChecks(f)).None? <==> Complete(f)
  {
    var c := BookingChecks(f);
    if FirstFailure(c).None? {
      assert c[0].0 && c[1].0 && c[2].0 && c[3].0 && c[4].0 && c[5].0;
      assert c[6].0 && c[7].0 && c[8].0 && c[9].0 && c[10].0 && c[11].0;
    }
  }

  /** `createBooking`: no session user (500); then the first missing field, in the
      order name, phone, email, pick-up, destination, wheelchair, passengers,
      purpose, trips, date, pick-up time, drop-off time (400). Otherwise one
      booking owned by the caller is created and the two notices are sent in turn;
      a rejected send is answered with 500 but the booking stays. */
  function CreateBooking(s: Store, ses: Session, f: BookingForm, fails: FailureOracle): (r: Reply<Doc<Booking>>)
    ensures r.session == ses
    ensures ses.userId.None? ==> r == Reply(s, ses, [], Err(500, UnknownMessage))
    ensures ses.userId.Some? && FirstFailure(BookingChecks(f)).Some? ==>
      r == Reject(s, ses, 400, FirstFailure(BookingChecks(f)).value)
    ensures ses.userId.Some? && FirstFailure(BookingChecks(f)).None? ==>
      && Complete(f)
      && |r.store.bookings| == |s.bookings| + 1
      && r.store == s.(bookings := s.bookings + [r.store.bookings[|s.bookings|]])
      && var doc := r.store.bookings[|s.bookings|];
      && !Has(s.bookings, doc.id)
      && doc.data == FromForm(f, ses.userId.value)
      && r.outbox == (if fails(0) then [Attempt(Mail(Users.NoticeAddress, Users.NoticeAddress, RequestSubject), false)]
                      else [Attempt(Mail(Users.NoticeAddress, Users.NoticeAddress, RequestSubject), true),
                            Attempt(Mail(Users.NoticeAddress, Users.NoticeAddress, StaffNoticeSubject), !fails(1))])
      && r.result == if fails(0) || fails(1) then Err(500, UnknownMessage) else Ok(201, doc)
  {
    if ses.userId.None? then Reply(s, ses, [], Respond(Other))
    else match FirstFailure(BookingChecks(f))
      case Some(message) => Reject(s, ses, 400, message)
      case None =>
        ChecksPassIffComplete(f);
        var id := FreshId(s.bookings);
        var doc := Doc(id, FromForm(f, ses.userId.value));
        var store := s.(bookings := Insert(s.bookings, id, doc.data));
        var first := Attempt(Mail(Users.NoticeAddress, Users.NoticeAddress, RequestSubject), !fails(0));
        var second := Attempt(Mail(Users.NoticeAddress, Users.NoticeAddress, StaffNoticeSubject), !fails(1));
        if fails(0) then Reply(store, ses, [first], Respond(Other))
        else if fails(1) then Reply(store, ses, [first, second], Respond(Other))
        else Reply(store, ses, [first, second], Ok(201, doc))
  }

  /** A passenger count of 0 is reported as missing once the fields before it are
      present. */
  lemma ZeroPassengersMissing(s: Store, ses: Session, f: BookingForm, fails: FailureOracle)
    requires ses.userId.Some?
    requires Truthy(f.firstName) && Truthy(f.lastName) && Truthy(f.phoneNumber) && Truthy(f.email)
    requires Truthy(f.pickup) && Truthy(f.destination) && Truthy(f.wheelchair)
    requires f.passenger == Some(0)
    ensures CreateBooking(s, ses, f, fails) == Reject(s, ses, 400, MissingPassenger)
  {
    var c := BookingChecks(f);
    assert forall j | 0 <= j < 6 :: c[j].0;
    FirstFailureAt(c, 6);
  }

  /** The owner of a new booking can read it back by its id. */
  lemma CreateThenGet(s: Store, ses: Session, f: BookingForm, fails: FailureOracle, validId: Id -> bool)
    requires ses.userId.Some? && Complete(f)
    requires validId(FreshId(s.bookings))
    ensures var r := CreateBooking(s, ses, f, fails);
      var doc := r.store.bookings[|s.bookings|];
      GetBooking(r.store, ses, doc.id, validId).result == Ok(200, doc)
  {
    ChecksPassIffComplete(f);
  }

  /** `deleteUserBooking`: the checks of `getBooking`, in the same order; the
      booking is removed only when the caller owns it, and nothing else changes. */
  function DeleteUserBooking(s: Store, ses: Session, bookingId: Id, validId: Id -> bool): (r: Reply<()>)
    ensures r.session == ses && r.outbox == []
    ensures r.result.Err? ==> r.store == s
    ensures r.result.Err? ==>
      var g := GetBooking(s, ses, bookingId, validId).result;
      g.Err? && r.result == Err(g.status, g.message)
    ensures r.result.Ok? <==> GetBooking(s, ses, bookingId, validId).result.Ok?
    ensures r.result.Ok? ==>
      && r.result.status == 204
      && !Has(r.store.bookings, bookingId)
      && (forall x | x != bookingId :: Find(r.store.bookings, x) == Find(s.bookings, x))
      && r.store == s.(bookings := r.store.bookings)
  {
    match GetBooking(s, ses, bookingId, validId).result
    case Err(status, message) => Reject(s, ses, status, message)
    case Ok(_, _) => Reply(s.(bookings := Remove(s.bookings, bookingId)), ses, [], Ok(204, ()))
  }

  /** `deleteStaffBooking`: malformed id (400), no such booking (404); any existing
      booking is removed, whoever owns it. */
  function DeleteStaffBooking(s: Store, ses: Session, bookingId: Id, validId: Id -> bool): (r: Reply<()>)
    ensures r.session == ses && r.outbox == []
    ensures !validId(bookingId) ==> r == Reject(s, ses, 400, InvalidBookingIdStaff)
    ensures validId(bookingId) && !Has(s.bookings, bookingId) ==> r == Reject(s, ses, 404, BookingNotFound)
    ensures r.result.Ok? <==> validId(bookingId) && Has(s.bookings, bookingId)
    ensures r.result.Ok? ==>
      && r.result.status == 204
      && !Has(r.store.bookings, bookingId)
      && (forall x | x != bookingId :: Find(r.store.bookings, x) == Find(s.bookings, x))
      && r.store == s.(bookings := r.store.bookings)
  {
    match Lookup(s.bookings, bookingId, validId, InvalidBookingIdStaff, BookingNotFound)
    case Err(status, message) => Reject(s, ses, status, message)
    case Ok(_, _) => Reply(s.(bookings := Remove(s.bookings, bookingId)), ses, [], Ok(204, ()))
  }

  /** Once deleted, a booking is gone for its owner too. */
  lemma DeleteThenGet(s: Store, ses: Session, bookingId: Id, validId: Id -> bool)
    requires DeleteUserBooking(s, ses, bookingId, validId).result.Ok?
    ensures GetBooking(DeleteUserBooking(s, ses, bookingId, validId).store, ses, bookingId, validId).result
      == Err(404, BookingNotFound)
  {
  }
}
