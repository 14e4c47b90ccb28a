/** User sign-up, login, logout, the forgot-password request and the password
    change. Passwords are stored only as `hash(raw)`; a login compares by hashing
    the offered password. */
module Users {
  import opened Wrappers
  import opened Http
  import opened Collection
  import opened Model
  import Auth

  const UserRole := "user"
  const UsernameTaken := "Username already taken. Please choose a different username or log in instead"
  const UsernameIncorrect := "Username is incorrect"
  const PasswordIncorrect := "Password is incorrect"
  const UserNotFound := "User not found"
  const InvalidUserId := "Invalid user Id"

  /** The fixed address the approval and reset notices are sent from and to. */
  const NoticeAddress := "xinbai24@student.wintec.ac.nz"
  const ApprovalSubject := "Your Application has been approved"
  const ResetSubject := "Reset your password"

  datatype SignUpForm = SignUpForm(username: Field, password: Field, profile: Profile)

  function Username(u: User): string {
    u.username
  }

  /** The user's email for `findOne({ email })`; a user without one matches no
      (non-empty) query. */
  function UserEmail(u: User): string {
    OrEmpty(u.profile.email)
  }

  /** What sign-up and password changes keep true of the users collection: ids and
      usernames are unique and every username is non-empty. */
  predicate UsersOk(c: Coll<User>) {
    && UniqueIds(c)
    && UniqueBy(c, Username)
    && forall i | 0 <= i < |c| :: c[i].data.username != ""
  }

  /** `UserSignUp`: a missing username or password (400) is reported before any
      lookup, a taken username (409) next. Otherwise one user with role "user" and
      the hashed password is created, then the approval notice is sent; a rejected
      send is answered with 500 but the user stays. The session is never touched. */
  function UserSignUp(s: Store, ses: Session, form: SignUpForm, hash: string -> string, fails: FailureOracle)
    : (r: Reply<Doc<User>>)
    ensures r.session == ses
    ensures !Truthy(form.username) || !Truthy(form.password) ==> r == Reject(s, ses, 400, ParamsMissing)
    ensures Truthy(form.username) && Truthy(form.password) && FindBy(s.users, Username, form.username.value).Some? ==>
      r == Reject(s, ses, 409, UsernameTaken)
    ensures Truthy(form.username) && Truthy(form.password) && FindBy(s.users, Username, form.username.value).None? ==>
      && |r.store.users| == |s.users| + 1
      && r.store == s.(users := s.users + [r.store.users[|s.users|]])
      && var doc := r.store.users[|s.users|];
      && !Has(s.users, doc.id)
      && doc.data == User(form.username.value, hash(form.password.value), form.profile, UserRole)
      && r.outbox == [Attempt(Mail(NoticeAddress, NoticeAddress, ApprovalSubject), !fails(0))]
      && r.result == if fails(0) then Err(500, UnknownMessage) else Ok(201, doc)
  {
    if !Truthy(form.username) || !Truthy(form.password) then Reject(s, ses, 400, ParamsMissing)
    else if FindBy(s.users, Username, form.username.value).Some? then Reject(s, ses, 409, UsernameTaken)
    else
      var id := FreshId(s.users);
      var user := User(form.username.value, hash(form.password.value), form.profile, UserRole);
      var store := s.(users := Insert(s.users, id, user));
      var sent := Attempt(Mail(NoticeAddress, NoticeAddress, ApprovalSubject), !fails(0));
      Reply(store, ses, [sent], if fails(0) then Respond(Other) else Ok(201, Doc(id, user)))
  }

  /** `UserLogin`: missing fields (400), unknown username (401), a password whose
      hash differs from the stored one (401); only a full match sets the session's
      user id. The store is never written. */
  function UserLogin(s: Store, ses: Session, username: Field, password: Field, hash: string -> string)
    : (r: Reply<Doc<User>>)
    ensures r.store == s && r.outbox == []
    ensures r.result.Err? ==> r.session == ses
    ensures !Truthy(username) || !Truthy(password) ==> r.result == Err(400, ParamsMissing)
    ensures Truthy(username) && Truthy(password) && FindBy(s.users, Username, username.value).None? ==>
      r.result == Err(401, UsernameIncorrect)
    ensures Truthy(username) && Truthy(password) && FindBy(s.users, Username, username.value).Some? ==>
      var found := FindBy(s.users, Username, username.value).value;
      && (hash(password.value) != found.data.password ==> r.result == Err(401, PasswordIncorrect))
      && (hash(password.value) == found.data.password ==>
            r.result == Ok(201, found) && r.session == ses.(userId := Some(found.id)))
  {
    if !Truthy(username) || !Truthy(password) then Reject(s, ses, 400, ParamsMissing)
    else match FindBy(s.users, Username, username.value)
      case None => Reject(s, ses, 401, UsernameIncorrect)
      case Some(user) =>
        if hash(password.value) != user.data.password then Reject(s, ses, 401, PasswordIncorrect)
        else Reply(s, ses.(userId := Some(user.id)), [], Ok(201, user))
  }

  /** `UserLogout`: the session is destroyed. */
  function UserLogout(s: Store, ses: Session, destroyFails: bool): (r: Reply<()>)
    ensures r.store == s && r.outbox == []
    ensures !destroyFails ==> r.session.userId.None? && r.session.staffId.None? && r.result.Ok?
    ensures destroyFails ==> r.session == ses && r.result == Err(500, UnknownMessage)
  {
    Destroy(s, ses, destroyFails)
  }

  /** A completed logout locks the session out of both guards, whatever the store
      holds by the next request; a failed one leaves both guards as they were. */
  lemma LogoutLocksOut(s: Store, ses: Session, destroyFails: bool, later: Store)
    ensures var r := UserLogout(s, ses, destroyFails);
      && (!destroyFails ==>
            && Auth.UserGuard(r.session) == Auth.Reject(401, Auth.UserNotAuthenticated)
            && Auth.StaffGuard(later.staffs, r.session) == Auth.Reject(401, Auth.StaffNotAuthenticated))
      && (destroyFails ==>
            && Auth.UserGuard(r.session) == Auth.UserGuard(ses)
            && Auth.StaffGuard(later.staffs, r.session) == Auth.StaffGuard(later.staffs, ses))
  {
  }

  /** `ForgotPassword`: a missing email (400), no user with that email (404);
      otherwise the reset notice is sent. Nothing is stored. */
  function ForgotPassword(s: Store, ses: Session, email: Field, fails: FailureOracle): (r: Reply<()>)
    ensures r.store == s && r.session == ses
    ensures !Truthy(email) ==> r == Reject(s, ses, 400, ParamsMissing)
    ensures Truthy(email) && FindBy(s.users, UserEmail, email.value).None? ==> r == Reject(s, ses, 404, UserNotFound)
    ensures Truthy(email) && FindBy(s.users, UserEmail, email.value).Some? ==>
      && r.outbox == [Attempt(Mail(NoticeAddress, NoticeAddress, ResetSubject), !fails(0))]
      && r.result == if fails(0) then Err(500, UnknownMessage) else Ok(200, ())
  {
    if !Truthy(email) then Reject(s, ses, 400, ParamsMissing)
    else if FindBy(s.users, UserEmail, email.value).None? then Reject(s, ses, 404, UserNotFound)
    else
      var sent := Attempt(Mail(NoticeAddress, NoticeAddress, ResetSubject), !fails(0));
      Reply(s, ses, [sent], if fails(0) then Respond(Other) else Ok(200, ()))
  }

  /** `ChangePassword`: a malformed id (400), then an unknown user (404), then a
      missing password (400); otherwise that user's password becomes the hash of the
      new one and nothing else changes. */
  function ChangePassword(s: Store, ses: Session, userId: Id, password: Field, validId: Id -> bool, hash: string -> string)
    : (r: Reply<Doc<User>>)
    ensures r.session == ses && r.outbox == []
    ensures !validId(userId) ==> r == Reject(s, ses, 400, InvalidUserId)
    ensures validId(userId) && !Has(s.users, userId) ==> r == Reject(s, ses, 404, UserNotFound)
    ensures validId(userId) && Has(s.users, userId) && !Truthy(password) ==> r == Reject(s, ses, 400, ParamsMissing)
    ensures r.result.Ok? <==> validId(userId) && Has(s.users, userId) && Truthy(password)
    ensures r.result.Ok? ==>
      var before := Find(s.users, userId).value;
      && r.result == Ok(200, Doc(userId, before.(password := hash(password.value))))
      && Find(r.store.users, userId) == Some(before.(password := hash(password.value)))
      && (forall x | x != userId :: Find(r.store.users, x) == Find(s.users, x))
      && (forall x :: Has(r.store.users, x) == Has(s.users, x))
      && r.store == s.(users := r.store.users)
  {
    match Lookup(s.users, userId, validId, InvalidUserId, UserNotFound)
    case Err(status, message) => Reject(s, ses, status, message)
    case Ok(_, doc) =>
      if !Truthy(password) then Reject(s, ses, 400, ParamsMissing)
      else
        var changed := doc.data.(password := hash(password.value));
        Reply(s.(users := Replace(s.users, userId, changed)), ses, [], Ok(200, Doc(userId, changed)))
  }

  /** Sign-up keeps the users collection well formed. */
  lemma SignUpKeepsUsersOk(s: Store, ses: Session, form: SignUpForm, hash: string -> string, fails: FailureOracle)
    requires UsersOk(s.users)
    ensures UsersOk(UserSignUp(s, ses, form, hash, fails).store.users)
  {
    var r := UserSignUp(s, ses, form, hash, fails);
    if r.store != s {
      var doc := r.store.users[|s.users|];
      InsertKeepsUnique(s.users, doc.id, doc.data);
      assert r.store.users == s.users + [doc];
    }
  }

  /** Whoever signs up can log in at once with the same username and password,
      from any session, and becomes the user just created. */
  lemma SignUpThenLogin(s: Store, ses: Session, form: SignUpForm, hash: string -> string, fails: FailureOracle, later: Session)
    requires Truthy(form.username) && Truthy(form.password)
    requires FindBy(s.users, Username, form.username.value).None?
    ensures var r := UserSignUp(s, ses, form, hash, fails);
      var login := UserLogin(r.store, later, form.username, form.password, hash);
      && login.result.Ok?
      && login.session.userId == Some(r.store.users[|s.users|].id)
  {
    var r := UserSignUp(s, ses, form, hash, fails);
    var doc := r.store.users[|s.users|];
    FindByInsert(s.users, doc.id, doc.data, Username, form.username.value);
  }

  /** A login that succeeds passes the user guard. */
  lemma LoginPassesUserGuard(s: Store, ses: Session, username: Field, password: Field, hash: string -> string)
    requires UserLogin(s, ses, username, password, hash).result.Ok?
    ensures Auth.UserGuard(UserLogin(s, ses, username, password, hash).session).Pass?
  {
  }

  /** Changing a password keeps the users collection well formed. */
  lemma ChangeKeepsUsersOk(s: Store, ses: Session, userId: Id, password: Field, validId: Id -> bool, hash: string -> string)
    requires UsersOk(s.users)
    ensures UsersOk(ChangePassword(s, ses, userId, password, validId, hash).store.users)
  {
    var r := ChangePassword(s, ses, userId, password, validId, hash);
    if r.result.Ok? {
      var v := r.result.value.data;
      assert r.store.users == Replace(s.users, userId, v);
      ReplaceKeepsUsersOk(s.users, userId, v);
    }
  }

  /** Replacing a user by a copy with the same username keeps the collection well
      formed. */
  lemma ReplaceKeepsUsersOk(c: Coll<User>, id: Id, v: User)
    requires UsersOk(c) && Has(c, id) && v.username == Find(c, id).value.username
    ensures UsersOk(Replace(c, id, v))
  {
    UsernamesKept(c, id, v);
  }

  /** Replacing a user by a copy with the same username keeps every position's
      username. */
  lemma UsernamesKept(c: Coll<User>, id: Id, v: User)
    requires UniqueIds(c) && Has(c, id) && v.username == Find(c, id).value.username
    ensures forall i | 0 <= i < |c| :: Replace(c, id, v)[i].data.username == c[i].data.username
  {
    var r := Replace(c, id, v);
    forall i | 0 <= i < |c|
      ensures r[i].data.username == c[i].data.username
    {
      if c[i].id == id {
        FindAt(c, i);
      }
    }
  }

  /** After a password change the user logs in with the new password and becomes
      that same user. */
  lemma ChangeThenLogin(s: Store, ses: Session, userId: Id, password: Field, validId: Id -> bool, hash: string -> string, later: Session)
    requires UsersOk(s.users)
    requires ChangePassword(s, ses, userId, password, validId, hash).result.Ok?
    ensures var r := ChangePassword(s, ses, userId, password, validId, hash);
      var name := Some(Find(s.users, userId).value.username);
      var login := UserLogin(r.store, later, name, password, hash);
      login.result.Ok? && login.session.userId == Some(userId)
  {
    var r := ChangePassword(s, ses, userId, password, validId, hash);
    var v := r.result.value.data;
    assert r.store.users == Replace(s.users, userId, v);
    ReplacedIsFound(s.users, userId, v);
  }

  /** In a well-formed users collection, a user whose record was replaced by one
      with the same username is still the one `findOne` finds by that username. */
  lemma ReplacedIsFound(c: Coll<User>, id: Id, v: User)
    requires UsersOk(c) && Has(c, id) && v.username == Find(c, id).value.username
    ensures FindBy(Replace(c, id, v), Username, v.username) == Some(Doc(id, v))
  {
    var before := Find(c, id).value;
    var m :| 0 <= m < |c| && c[m] == Doc(id, before);
    assert IndexBy(c, Username, v.username) == m;
    UsernamesKept(c, id, v);
    IndexBySameField(c, Replace(c, id, v), Username, v.username);
  }
}
