/**
 * POST /api/registration/add: an alumnus creates an account. The checks run in
 * a fixed order (missing field, user name taken, identity already registered,
 * graduation year, alumni record) and only then is the row inserted.
 * `registration` is a map keyed by userName; `alumni` is the list of records.
 */
module AlumniRegistration {
  import opened Common
  import opened Tables
  import opened JsNumbers
  import opened Logins

  datatype RegistrationForm = RegistrationForm(
    firstName: Option<string>, lastName: Option<string>, personalEmail: Option<string>, gender: Option<string>,
    userName: Option<string>, passWord: Option<string>, major: Option<string>, graduated: Option<string>)

  /** Every field is present and non-empty. */
  predicate Complete(f: RegistrationForm)
  {
    && Truthy(f.firstName) && Truthy(f.lastName) && Truthy(f.personalEmail) && Truthy(f.gender)
    && Truthy(f.userName) && Truthy(f.passWord) && Truthy(f.major) && Truthy(f.graduated)
  }

  /** `LOWER(userName) = LOWER(?)` finds a row (the map is keyed by the userName column). */
  predicate NameTaken(registration: map<string, Registration>, userName: string)
  {
    exists k :: k in registration && Lower(k) == Lower(userName)
  }

  /** A row with the same first name, last name, gender and e-mail, compared case-insensitively. */
  predicate IdentityTaken(registration: map<string, Registration>, f: RegistrationForm)
    requires Complete(f)
  {
    exists k :: && k in registration
                && Lower(registration[k].firstName) == Lower(f.firstName.value)
                && Lower(registration[k].lastName) == Lower(f.lastName.value)
                && Lower(registration[k].gender) == Lower(f.gender.value)
                && Lower(registration[k].personalEmail) == Lower(f.personalEmail.value)
  }

  /** `LOWER(col) = LOWER(?)` on a nullable column: NULL matches nothing. */
  predicate SameText(column: Option<string>, value: string)
  {
    column.Some? && Lower(column.value) == Lower(value)
  }

  /** An alumni record with these names, gender, major and graduation year. */
  predicate OnRecord(alumni: seq<AlumniRecord>, f: RegistrationForm, year: int)
    requires Complete(f)
  {
    exists i :: && 0 <= i < |alumni|
                && SameText(alumni[i].firstName, f.firstName.value)
                && SameText(alumni[i].lastName, f.lastName.value)
                && SameText(alumni[i].gender, f.gender.value)
                && SameText(alumni[i].major, f.major.value)
                && alumni[i].graduated == Some(year)
  }

  /** The row the form becomes. */
  function NewRow(f: RegistrationForm, newId: nat): Registration
    requires Complete(f)
  {
    Registration(newId, f.firstName.value, f.lastName.value, f.personalEmail.value, f.gender.value,
                 f.userName.value, f.passWord.value)
  }

  /**
   * The route: 400, then 409 for a taken user name, 409 for a registered
   * identity, 400 for a graduation year that does not parse, 403 without an
   * alumni record; otherwise the row is inserted with id `newId`.
   */
  function Register(registration: map<string, Registration>, alumni: seq<AlumniRecord>, f: RegistrationForm,
                    newId: nat)
    : (r: (Response<nat>, map<string, Registration>))
    ensures !Complete(f) ==> r.0 == Fail(400)
    ensures Complete(f) && NameTaken(registration, f.userName.value) ==> r.0 == Fail(409)
    ensures Complete(f) && !NameTaken(registration, f.userName.value) && IdentityTaken(registration, f)
            ==> r.0 == Fail(409)
    ensures (Complete(f) && !NameTaken(registration, f.userName.value) && !IdentityTaken(registration, f)
             && ValidateInteger(f.graduated).None?) ==> r.0 == Fail(400)
    ensures (Complete(f) && !NameTaken(registration, f.userName.value) && !IdentityTaken(registration, f)
             && ValidateInteger(f.graduated).Some? && !OnRecord(alumni, f, ValidateInteger(f.graduated).value))
            ==> r.0 == Fail(403)
    ensures r.0.Fail? ==> r.1 == registration
    ensures r.0.Ok? <==> && Complete(f) && !NameTaken(registration, f.userName.value)
                         && !IdentityTaken(registration, f)
                         && ValidateInteger(f.graduated).Some? && OnRecord(alumni, f, ValidateInteger(f.graduated).value)
    ensures r.0.Ok? ==> && r.0.body == newId
                        && f.userName.value !in registration
                        && r.1 == registration[f.userName.value := NewRow(f, newId)]
  {
    if !Complete(f) then (Fail(400), registration)
    else if NameTaken(registration, f.userName.value) then (Fail(409), registration)
    else if IdentityTaken(registration, f) then (Fail(409), registration)
    else
      var year := ValidateInteger(f.graduated);
      if year.None? then (Fail(400), registration)
      else if !OnRecord(alumni, f, year.value) then (Fail(403), registration)
      else
        (Ok(newId), registration[f.userName.value := NewRow(f, newId)])
  }

  /** No two user names differ only in letter case. */
  predicate UniqueNames(registration: map<string, Registration>)
  {
    forall k1, k2 :: k1 in registration && k2 in registration && Lower(k1) == Lower(k2) ==> k1 == k2
  }

  /** Registration keeps the user names unique up to letter case. */
  lemma RegisterKeepsNamesUnique(registration: map<string, Registration>, alumni: seq<AlumniRecord>,
                                 f: RegistrationForm, newId: nat)
    requires UniqueNames(registration)
    ensures UniqueNames(Register(registration, alumni, f, newId).1)
  {
    var r := Register(registration, alumni, f, newId);
    if r.0.Ok? {
      var u := f.userName.value;
      assert forall k :: k in registration ==> Lower(k) != Lower(u);
    }
  }

  /**
   * Once any account's name lower-cases to "admin", no other account can take
   * a name that does: the administrator's name cannot be registered twice.
   */
  lemma AdminNameIsTakenOnce(registration: map<string, Registration>, alumni: seq<AlumniRecord>,
                             f: RegistrationForm, newId: nat, existing: string)
    requires existing in registration && Lower(existing) == "admin"
    requires Complete(f) && Lower(f.userName.value) == "admin"
    ensures Register(registration, alumni, f, newId) == (Fail(409), registration)
  {
    assert NameTaken(registration, f.userName.value);
  }

  /** A new account logs in with the registered password, as an administrator exactly when named so. */
  lemma RegisteredCanLogIn(registration: map<string, Registration>, alumni: seq<AlumniRecord>,
                           f: RegistrationForm, newId: nat)
    requires Register(registration, alumni, f, newId).0.Ok?
    ensures var login := AlumniLogin(Register(registration, alumni, f, newId).1, f.userName, f.passWord);
            && login.Ok? && login.body.id == newId
            && (login.body.isAdmin <==> Lower(f.userName.value) == "admin")
  {
  }
}
