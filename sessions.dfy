/** The logged-in user held in `req.session.user`, and the outcome of a guard middleware. */
module Sessions {
  import opened Common

  /**
   * The two shapes of session user the login handlers create: an alumnus or the
   * administrator (registration login) and an employer (employer login).
   */
  datatype SessionUser =
    | AlumniUser(id: nat, userName: string, isAdmin: bool)
    | EmployerUser(id: nat, preferredUserId: string)

  /** `req.session.user`; None when nobody is logged in. */
  type Session = Option<SessionUser>

  /** A middleware either calls `next()` or answers with an error status, never both. */
  datatype Gate = Next | Deny(status: nat)

  predicate IsAdmin(u: SessionUser)
  {
    u.AlumniUser? && u.isAdmin
  }

  predicate IsEmployer(u: SessionUser)
  {
    u.EmployerUser?
  }

  /** `req.session.user.userName`, undefined for an employer. */
  function UserNameOf(u: SessionUser): Option<string>
  {
    if u.AlumniUser? then Some(u.userName) else None
  }

  /** `req.session.user.preferredUserId`, undefined for an alumnus or the administrator. */
  function PreferredUserIdOf(u: SessionUser): Option<string>
  {
    if u.EmployerUser? then Some(u.preferredUserId) else None
  }

  /**
   * The employer guard (`requireEmployer` of the employer routes, `authorizeEmployer`
   * of the career and application routes): 401 unless the session user is an employer.
   */
  function EmployerGate(session: Session): (g: Gate)
    ensures g == Next <==> session.Some? && IsEmployer(session.value)
    ensures g != Next ==> g == Deny(401)
  {
    if session.None? || !IsEmployer(session.value) then Deny(401) else Next
  }
}
