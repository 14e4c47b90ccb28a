/** The two guards placed in front of handlers. Each ends by calling `next` once,
    with an error or without one; `Gate` is that single call's argument. */
module Auth {
  import opened Wrappers
  import opened Collection
  import opened Model

  datatype Gate = Pass | Reject(status: int, message: string)

  const StaffRole := "staff"
  const StaffNotAuthenticated := "Staff not authenticated"
  const UserNotAuthenticated := "User not authenticated"

  /** The session names a stored staff record whose role is exactly "staff". */
  predicate IsStaffSession(staffs: Coll<Staff>, ses: Session) {
    && ses.staffId.Some?
    && Has(staffs, ses.staffId.value)
    && Find(staffs, ses.staffId.value).value.role == StaffRole
  }

  /** `getAuthenticatedStaff`: resolve the session's staff id, then check the role.
      An absent id finds nothing; an unknown id and a wrong role are rejected with
      the same status and message. */
  function StaffGuard(staffs: Coll<Staff>, ses: Session): (g: Gate)
    ensures g.Pass? <==> IsStaffSession(staffs, ses)
    ensures g.Reject? ==> g == Reject(401, StaffNotAuthenticated)
  {
    if ses.staffId.None? then Reject(401, StaffNotAuthenticated)
    else match Find(staffs, ses.staffId.value)
      case None => Reject(401, StaffNotAuthenticated)
      case Some(staff) => if staff.role == StaffRole then Pass else Reject(401, StaffNotAuthenticated)
  }

  /** A caller cannot tell a missing or stale staff id from a record with another
      role: all three are the same rejection. */
  lemma StaffRejectionsAlike(staffs: Coll<Staff>, a: Session, b: Session)
    requires a.staffId.None? || !Has(staffs, a.staffId.value)
    requires b.staffId.Some? && Has(staffs, b.staffId.value)
    requires Find(staffs, b.staffId.value).value.role != StaffRole
    ensures StaffGuard(staffs, a) == StaffGuard(staffs, b) == Reject(401, StaffNotAuthenticated)
  {
  }

  /** `userAuth`: the session's user id being present is enough; the store is not
      consulted, so it takes no store argument. */
  function UserGuard(ses: Session): (g: Gate)
    ensures g.Pass? <==> ses.userId.Some?
    ensures g.Reject? ==> g == Reject(401, UserNotAuthenticated)
  {
    if ses.userId.Some? then Pass else Reject(401, UserNotAuthenticated)
  }
}
