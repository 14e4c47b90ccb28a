/** Staff sign-up, login and logout. Staff are identified by email alone: login
    checks no secret. */
module Staffs {
  import opened Wrappers
  import opened Http
  import opened Collection
  import opened Model
  import Auth

  const OrgMarker := "@wakaeasternbay.org.nz"
  const NotOrgEmail := "Staff email must be registered with Waka Eastern Bay email address"
  const StaffExists := "A staff with this email address already exists. Please log in instead"
  const EmailIncorrect := "Email address is incorrect"

  predicate StartsWith(s: string, prefix: string) {
    |prefix| <= |s| && s[..|prefix|] == prefix
  }

  /** `s.includes(sub)`: `sub` occurs somewhere in `s`. */
  predicate Contains(s: string, sub: string)
    decreases |s|
  {
    StartsWith(s, sub) || (|s| > 0 && Contains(s[1..], sub))
  }

  lemma {:induction false} ContainsAt(s: string, sub: string, i: nat)
    requires i + |sub| <= |s| && s[i..i + |sub|] == sub
    ensures Contains(s, sub)
    decreases i
  {
    if i > 0 {
      assert s[1..][i - 1..i - 1 + |sub|] == s[i..i + |sub|];
      ContainsAt(s[1..], sub, i - 1);
    }
  }

  /** `sub` occurs in `s` starting at index `i`. */
  predicate OccursAt(s: string, sub: string, i: nat) {
    i + |sub| <= |s| && s[i..i + |sub|] == sub
  }

  /** `includes` in its usual terms: `sub` sits at some index of `s`. */
  lemma {:induction false} ContainsIffOccurs(s: string, sub: string)
    ensures Contains(s, sub) <==> exists i: nat :: OccursAt(s, sub, i)
    decreases |s|
  {
    if Contains(s, sub) {
      if StartsWith(s, sub) {
        assert OccursAt(s, sub, 0);
      } else {
        ContainsIffOccurs(s[1..], sub);
        var j: nat :| OccursAt(s[1..], sub, j);
        assert s[1..][j..j + |sub|] == s[j + 1..j + 1 + |sub|];
        assert OccursAt(s, sub, j + 1);
      }
    }
    if exists i: nat :: OccursAt(s, sub, i) {
      var i: nat :| OccursAt(s, sub, i);
      ContainsAt(s, sub, i);
    }
  }

  /** The domain test is a substring test: an address that merely carries the
      organisation's domain in the middle passes it. */
  lemma DomainTestIsNotSuffixTest(local: string, tail: string)
    ensures Contains(local + OrgMarker + tail, OrgMarker)
  {
    var s := local + OrgMarker + tail;
    assert s[|local|..|local| + |OrgMarker|] == OrgMarker;
    ContainsAt(s, OrgMarker, |local|);
  }

  function StaffEmail(st: Staff): string {
    st.email
  }

  /** `StaffModel.findOne({ email })` finds a record. */
  predicate EmailTaken(staffs: Coll<Staff>, email: string) {
    FindBy(staffs, StaffEmail, email).Some?
  }

  /** `StaffSignUp`: missing email (400), then the domain test (409), then an email
      already on file (409); otherwise one staff record with role "staff" is created
      and the session is logged in as it. */
  function StaffSignUp(s: Store, ses: Session, email: Field): (r: Reply<Doc<Staff>>)
    ensures !Truthy(email) ==> r == Reject(s, ses, 400, ParamsMissing)
    ensures Truthy(email) && !Contains(email.value, OrgMarker) ==> r == Reject(s, ses, 409, NotOrgEmail)
    ensures Truthy(email) && Contains(email.value, OrgMarker) && EmailTaken(s.staffs, email.value) ==>
      r == Reject(s, ses, 409, StaffExists)
    ensures r.result.Ok? <==>
      Truthy(email) && Contains(email.value, OrgMarker) && !EmailTaken(s.staffs, email.value)
    ensures r.result.Ok? ==>
      var doc := r.result.value;
      && r.result.status == 201
      && doc.data == Staff(email.value, Auth.StaffRole)
      && !Has(s.staffs, doc.id)
      && r.store == s.(staffs := s.staffs + [doc])
      && r.session == ses.(staffId := Some(doc.id))
      && r.outbox == []
  {
    if !Truthy(email) then Reject(s, ses, 400, ParamsMissing)
    else if !Contains(email.value, OrgMarker) then Reject(s, ses, 409, NotOrgEmail)
    else if EmailTaken(s.staffs, email.value) then Reject(s, ses, 409, StaffExists)
    else
      var id := FreshId(s.staffs);
      var doc := Doc(id, Staff(email.value, Auth.StaffRole));
      Reply(s.(staffs := Insert(s.staffs, id, doc.data)), ses.(staffId := Some(id)), [], Ok(201, doc))
  }

  /** `StaffLogin`: missing email (400), unknown email (401); otherwise the session
      takes the first record with that email. No secret is checked and the store is
      never written. */
  function StaffLogin(s: Store, ses: Session, email: Field): (r: Reply<Doc<Staff>>)
    ensures r.store == s && r.outbox == []
    ensures !Truthy(email) ==> r == Reject(s, ses, 400, ParamsMissing)
    ensures Truthy(email) && !EmailTaken(s.staffs, email.value) ==> r == Reject(s, ses, 401, EmailIncorrect)
    ensures r.result.Ok? <==> Truthy(email) && EmailTaken(s.staffs, email.value)
    ensures r.result.Ok? ==>
      && r.result == Ok(201, FindBy(s.staffs, StaffEmail, email.value).value)
      && r.result.value.data.email == email.value
      && r.session == ses.(staffId := Some(r.result.value.id))
  {
    if !Truthy(email) then Reject(s, ses, 400, ParamsMissing)
    else match FindBy(s.staffs, StaffEmail, email.value)
      case None => Reject(s, ses, 401, EmailIncorrect)
      case Some(staff) => Reply(s, ses.(staffId := Some(staff.id)), [], Ok(201, staff))
  }

  /** `StaffLogout`: the session is destroyed. */
  function StaffLogout(s: Store, ses: Session, destroyFails: bool): (r: Reply<()>)
    ensures r.store == s && r.outbox == []
    ensures !destroyFails ==> r.session.staffId.None? && r.session.userId.None? && r.result.Ok?
    ensures destroyFails ==> r.session == ses && r.result == Err(500, UnknownMessage)
  {
    Destroy(s, ses, destroyFails)
  }

  /** A completed logout locks the session out of both guards, whatever the store
      holds by the next request; a failed one leaves both guards as they were. */
  lemma LogoutLocksOut(s: Store, ses: Session, destroyFails: bool, later: Store)
    ensures var r := StaffLogout(s, ses, destroyFails);
      && (!destroyFails ==>
            && Auth.StaffGuard(later.staffs, r.session) == Auth.Reject(401, Auth.StaffNotAuthenticated)
            && Auth.UserGuard(r.session) == Auth.Reject(401, Auth.UserNotAuthenticated))
      && (destroyFails ==>
            && Auth.StaffGuard(later.staffs, r.session) == Auth.StaffGuard(later.staffs, ses)
            && Auth.UserGuard(r.session) == Auth.UserGuard(ses))
  {
  }

  /** After a successful sign-up the staff guard lets the same session through. */
  lemma SignUpPassesGuard(s: Store, ses: Session, email: Field)
    requires StaffSignUp(s, ses, email).result.Ok?
    ensures var r := StaffSignUp(s, ses, email); Auth.StaffGuard(r.store.staffs, r.session).Pass?
  {
    var r := StaffSignUp(s, ses, email);
    var doc := r.result.value;
    InsertKeepsOthers(s.staffs, doc.id, doc.data);
  }

  /** After a successful sign-up, logging in with the same email from any session
      resolves to the record just created. */
  lemma SignUpThenLogin(s: Store, ses: Session, email: Field, later: Session)
    requires StaffSignUp(s, ses, email).result.Ok?
    ensures var r := StaffSignUp(s, ses, email);
      StaffLogin(r.store, later, email).session.staffId == Some(r.result.value.id)
  {
    var r := StaffSignUp(s, ses, email);
    var doc := r.result.value;
    FindByInsert(s.staffs, doc.id, doc.data, StaffEmail, email.value);
  }

  /** Logging in passes the staff guard exactly when the record found has the
      staff role. */
  lemma LoginThenGuard(s: Store, ses: Session, email: Field)
    requires UniqueIds(s.staffs)
    requires StaffLogin(s, ses, email).result.Ok?
    ensures var r := StaffLogin(s, ses, email);
      Auth.StaffGuard(r.store.staffs, r.session).Pass? <==> r.result.value.data.role == Auth.StaffRole
  {
    FindAt(s.staffs, IndexBy(s.staffs, StaffEmail, email.value));
  }

  /** Sign-up keeps staff ids unique. */
  lemma SignUpKeepsIdsUnique(s: Store, ses: Session, email: Field)
    requires UniqueIds(s.staffs)
    ensures UniqueIds(StaffSignUp(s, ses, email).store.staffs)
  {
  }
}
