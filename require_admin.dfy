/** The administrator guard used in front of the admin routes. */
module RequireAdmin {
  import opened Common
  import opened Sessions

  /** `requireAdmin`: 403 unless the session user is the administrator. */
  function RequireAdmin(session: Session): (g: Gate)
    ensures g == Next <==> session.Some? && IsAdmin(session.value)
    ensures g != Next ==> g == Deny(403)
  {
    if session.None? || !IsAdmin(session.value) then Deny(403) else Next
  }
}
