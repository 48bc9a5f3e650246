/**
 * The two login handlers that create the session users the guards inspect:
 * alumni (and the administrator) log in against `registration`, employers
 * against `employers`, where only an accepted account may enter.
 */
module Logins {
  import opened Common
  import opened Sessions
  import opened Tables
  import opened Otp

  /**
   * POST /api/registration/login: 400 without both fields, 401 unless a row has
   * this userName and password; the session user is an administrator exactly
   * when the userName lower-cases to "admin".
   */
  function AlumniLogin(alumni: map<string, Registration>, userName: Option<string>, passWord: Option<string>)
    : (r: Response<SessionUser>)
    ensures r == Fail(400) <==> !Truthy(userName) || !Truthy(passWord)
    ensures r.Fail? ==> r.status in {400, 401}
    ensures r.Ok? <==> && Truthy(userName) && Truthy(passWord)
                       && userName.value in alumni && alumni[userName.value].passWord == passWord.value
    ensures r.Ok? ==> && r.body.AlumniUser?
                      && r.body.id == alumni[userName.value].id
                      && (IsAdmin(r.body) <==> Lower(userName.value) == "admin")
  {
    if !Truthy(userName) || !Truthy(passWord) then Fail(400)
    else if userName.value !in alumni || alumni[userName.value].passWord != passWord.value then Fail(401)
    else
      var row := alumni[userName.value];
      Ok(AlumniUser(row.id, row.userName, Lower(userName.value) == "admin"))
  }

  /** Only an account whose status is exactly "ACCEPTED" may log in. */
  predicate MayLogIn(status: string)
  {
    status == "ACCEPTED"
  }

  /**
   * POST /api/employer/login: 400 without both fields, 401 unless a row has this
   * preferredUserId and password (a NULL password matches nothing), 403 unless
   * the account's status is exactly "ACCEPTED".
   */
  function EmployerLogin(employers: map<string, Employer>, userId: Option<string>, password: Option<string>)
    : (r: Response<SessionUser>)
    ensures r == Fail(400) <==> !Truthy(userId) || !Truthy(password)
    ensures r.Fail? ==> r.status in {400, 401, 403}
    ensures r.Ok? <==> && Truthy(userId) && Truthy(password)
                       && userId.value in employers
                       && employers[userId.value].preferredPassword == password
                       && MayLogIn(employers[userId.value].status)
    ensures r == Fail(403) ==> userId.value in employers && !MayLogIn(employers[userId.value].status)
    ensures r.Ok? ==> && IsEmployer(r.body) && !IsAdmin(r.body)
                      && r.body == EmployerUser(employers[userId.value].id, userId.value)
  {
    if !Truthy(userId) || !Truthy(password) then Fail(400)
    else if userId.value !in employers || employers[userId.value].preferredPassword != password then Fail(401)
    else
      var row := employers[userId.value];
      if !MayLogIn(row.status) then Fail(403)
      else Ok(EmployerUser(row.id, userId.value))
  }

  /** An employer session passes the employer guard and never the administrator's. */
  lemma EmployerSessionsAreEmployers(employers: map<string, Employer>, userId: Option<string>, password: Option<string>)
    requires EmployerLogin(employers, userId, password).Ok?
    ensures EmployerGate(Some(EmployerLogin(employers, userId, password).body)) == Next
    ensures !IsAdmin(EmployerLogin(employers, userId, password).body)
  {
  }

  /** After a reset the new password logs the alumnus in and the old one, if different, no longer does. */
  lemma ResetThenAlumniLogin(store: map<string, OtpRecord>, accounts: Accounts, userName: string,
                             oldPassword: string, newPassword: string)
    requires userName != "" && newPassword != "" && oldPassword != "" && oldPassword != newPassword
    requires userName in accounts.alumni
    ensures var reset := ResetPassword(store, accounts, Some(userName), None, Some(newPassword));
            && reset.0.Ok?
            && AlumniLogin(reset.2.alumni, Some(userName), Some(newPassword)).Ok?
            && AlumniLogin(reset.2.alumni, Some(userName), Some(oldPassword)) == Fail(401)
  {
  }

  /** After a reset an accepted employer logs in with the new password. */
  lemma ResetThenEmployerLogin(store: map<string, OtpRecord>, accounts: Accounts, userId: string, newPassword: string)
    requires userId != "" && newPassword != ""
    requires userId !in accounts.alumni && userId in accounts.employers
    requires MayLogIn(accounts.employers[userId].status)
    ensures var reset := ResetPassword(store, accounts, Some(userId), None, Some(newPassword));
            && reset.0.Ok?
            && EmployerLogin(reset.2.employers, Some(userId), Some(newPassword)).Ok?
  {
  }
}
