/**
 * GET /api/admin-applications: the applications sent to careers owned by the
 * logged-in user, matched by user name or by numeric id.
 */
module AdminApplications {
  import opened Common
  import opened Sessions
  import opened Tables
  import opened Ordering
  import opened JsNumbers

  /** One result row, with `resumePath` renamed `resume` and `dateSubmitted` renamed `submittedAt`. */
  datatype AdminRow = AdminRow(
    firstName: string,
    lastName: string,
    phoneNo: string,
    email: string,
    resume: string,
    submittedAt: int,
    applicantUserName: Option<string>,
    careerId: int)

  /** `req.session.user.userName || ""`. */
  function NameKey(u: SessionUser): (k: string)
    ensures u.AlumniUser? ==> k == u.userName
    ensures u.EmployerUser? ==> k == ""
  {
    OrEmpty(UserNameOf(u))
  }

  /**
   * A value as `pool.query` writes it into the SQL text: a JavaScript string
   * becomes a quoted string literal, a number a numeric literal.
   */
  datatype Bound = Text(s: string) | Number(n: int)

  /** `req.session.user.id || ""`: the numeric id, or "" when it is 0 (falsy). */
  function IdKey(u: SessionUser): (k: Bound)
    ensures k.Text? <==> u.id == 0
    ensures k.Text? ==> k.s == ""
    ensures k.Number? ==> k.n == u.id
  {
    if u.id == 0 then Text("") else Number(u.id)
  }

  /**
   * MySQL's reading of a string as a number when it is compared with one: its
   * leading sign and decimal digits, 0 when there are none ("7abc" is 7, "abc" is 0).
   */
  function SqlNumber(column: string): (v: int)
    ensures ParseInt(column, Radix10).Some? ==> v == ParseInt(column, Radix10).value
    ensures ParseInt(column, Radix10).None? ==> v == 0
  {
    var parsed := ParseInt(column, Radix10);
    if parsed.Some? then parsed.value else 0
  }

  /** `column = ?` for a VARCHAR column: text is compared as text, a number numerically. */
  predicate SqlEquals(column: string, b: Bound)
  {
    match b
    case Text(t) => column == t
    case Number(n) => SqlNumber(column) == n
  }

  /**
   * A career whose owner text is the id's digits followed by anything that is
   * not a digit ("7", "7abc", "7 ") is owned by the session with that id.
   */
  lemma IdMatchesLeadingDigits(u: SessionUser, tail: string)
    requires u.id > 0
    requires tail == [] || !IsDigit(tail[0])
    ensures SqlEquals(Decimal(u.id) + tail, IdKey(u))
  {
    ParseIntOfDecimal(u.id, tail, Radix10);
  }

  /** A leading zero does not change the number either: "07" is owned by the session with id 7. */
  lemma ZeroPaddedIdMatches(u: SessionUser)
    requires u.id > 0
    ensures SqlEquals("0" + Decimal(u.id), IdKey(u))
  {
    var d := Decimal(u.id);
    LeadingZero(d);
    DecimalRoundTrip(u.id);
    ParseIntOfDigits("0" + d);
  }

  /** A string of decimal digits reads as its value. */
  lemma ParseIntOfDigits(s: string)
    requires |s| >= 1 && AllDigits(s)
    ensures ParseInt(s, Radix10) == Some(DigitsValue(s))
  {
    assert TrimStart(s) == s by {
      assert !IsJsWhitespace(s[0]);
    }
    ReadDigitsOfDecimal(s, []);
    assert s + [] == s;
  }

  /** A leading zero adds nothing to the value of a digit string. */
  lemma {:induction false} LeadingZero(d: string)
    requires AllDigits(d)
    ensures AllDigits("0" + d) && DigitsValue("0" + d) == DigitsValue(d)
  {
    var s := "0" + d;
    assert AllDigits(s);
    if d != [] {
      assert s[..|s| - 1] == "0" + d[..|d| - 1];
      LeadingZero(d[..|d| - 1]);
    }
  }

  /**
   * The application joins a career (`a.careerId = c.id`, so a NULL careerId joins
   * nothing) whose owner is one of the two keys.
   */
  predicate Visible(a: Application, careers: seq<Career>, nameKey: string, idKey: Bound)
  {
    a.careerId.Some?
    && exists c :: c in careers && c.id == a.careerId.value && (c.userId == nameKey || SqlEquals(c.userId, idKey))
  }

  /** The selected columns of a joined application (only applied to rows that joined, whose careerId is set). */
  function ToRow(a: Application): AdminRow
  {
    var careerId := if a.careerId.Some? then a.careerId.value else 0;
    AdminRow(a.firstName, a.lastName, a.phoneNo, a.email, a.resumePath, a.dateSubmitted, a.userName, careerId)
  }

  /**
   * The route: 401 without a session user, otherwise the visible rows newest
   * first. `careers.id` is the table's primary key, so an application joins at
   * most one career and the join is a filter on the applications.
   */
  function AdminApplications(session: Session, careers: seq<Career>, apps: seq<Application>)
    : (r: Response<seq<AdminRow>>)
    ensures session.None? <==> r == Fail(401)
    ensures r.Ok? ==> SortedDesc(r.body, (row: AdminRow) => row.submittedAt) && |r.body| <= |apps|
  {
    if session.None? then Fail(401)
    else
      var u := session.value;
      Ok(Select(apps, (a: Application) => Visible(a, careers, NameKey(u), IdKey(u)), ToRow,
                (row: AdminRow) => row.submittedAt))
  }

  /**
   * A row is in the answer exactly when it is the renamed form of an application
   * that joins a career owned by the session's user name or id.
   */
  lemma AdminApplicationsMembers(u: SessionUser, careers: seq<Career>, apps: seq<Application>, row: AdminRow)
    ensures AdminApplications(Some(u), careers, apps).Ok?
    ensures row in AdminApplications(Some(u), careers, apps).body
            <==> exists a :: a in apps && Visible(a, careers, NameKey(u), IdKey(u)) && row == ToRow(a)
  {
    SelectMembers(apps, (a: Application) => Visible(a, careers, NameKey(u), IdKey(u)), ToRow,
                  (row: AdminRow) => row.submittedAt, row);
  }
}
