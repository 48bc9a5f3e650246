/**
 * Job applications: the stored name of an uploaded resume, the PDF-only file
 * filter, submitting an application and an employer's view of one career's
 * applications.
 */
module Applications {
  import opened Common
  import opened Sessions
  import opened Tables
  import opened Ordering
  import opened UploadConfig
  import opened JsNumbers

  /** Characters the sanitiser keeps: `[a-zA-Z0-9_.-]`. */
  predicate IsSafeChar(c: char)
  {
    IsAsciiLetter(c) || IsDigit(c) || c == '_' || c == '.' || c == '-'
  }

  predicate AllSafe(s: string)
  {
    forall i :: 0 <= i < |s| ==> IsSafeChar(s[i])
  }

  /** `.replace(/\s+/g, "_")`: every maximal whitespace run becomes one underscore. */
  function CollapseWhitespace(s: string): (r: string)
    ensures |r| <= |s|
    ensures forall i :: 0 <= i < |r| ==> !IsJsWhitespace(r[i])
    decreases |s|
  {
    if s == [] then []
    else if IsJsWhitespace(s[0]) then "_" + CollapseWhitespace(TrimStart(s[1..]))
    else [s[0]] + CollapseWhitespace(s[1..])
  }

  /** `.replace(/[^a-zA-Z0-9_.-]/g, "")`: drop every character outside the safe set. */
  function KeepSafe(s: string): string
  {
    Filter(s, IsSafeChar)
  }

  /** The sanitised original name of a resume: safe characters only, never longer than the original. */
  function SafeName(originalName: string): (r: string)
    ensures AllSafe(r)
    ensures |r| <= |originalName|
  {
    KeepSafe(CollapseWhitespace(originalName))
  }

  /** The name a resume is stored under: `Date.now() + "_" + safeName`. */
  function StoredResumeName(now: nat, originalName: string): (r: string)
    ensures AllSafe(r)
    ensures StartsWith(r, Decimal(now) + "_")
    ensures r[|Decimal(now)| + 1..] == SafeName(originalName)
  {
    var stamp := Decimal(now) + "_";
    assert AllSafe(stamp);
    stamp + SafeName(originalName)
  }

  lemma {:induction false} CollapseKeepsWhitespaceFree(s: string)
    requires forall i :: 0 <= i < |s| ==> !IsJsWhitespace(s[i])
    ensures CollapseWhitespace(s) == s
    decreases |s|
  {
    if s != [] {
      CollapseKeepsWhitespaceFree(s[1..]);
    }
  }

  lemma {:induction false} KeepSafeKeepsSafe(s: string)
    requires AllSafe(s)
    ensures KeepSafe(s) == s
  {
    if s != [] {
      KeepSafeKeepsSafe(s[1..]);
    }
  }

  /** Sanitising an already sanitised name changes nothing. */
  lemma SafeNameIdempotent(originalName: string)
    ensures SafeName(SafeName(originalName)) == SafeName(originalName)
  {
    var s := SafeName(originalName);
    forall i | 0 <= i < |s| ensures !IsJsWhitespace(s[i]) {
      assert IsSafeChar(s[i]);
    }
    CollapseKeepsWhitespaceFree(s);
    KeepSafeKeepsSafe(s);
  }

  /** `fileFilter`: the lower-cased extension of the original name must be ".pdf". */
  predicate PdfFilter(originalName: string)
  {
    Lower(ExtName(originalName)) == ".pdf"
  }

  /** The extension of `stem + e`, for a '/'-free stem and an extension e, is e. */
  lemma {:induction false} ExtNameOfSuffix(stem: string, e: string)
    requires |stem| >= 1 && forall i :: 0 <= i < |stem| ==> stem[i] != '/'
    requires |e| >= 2 && e[0] == '.'
    requires forall i :: 1 <= i < |e| ==> e[i] != '.' && e[i] != '/'
    ensures ExtName(stem + e) == e
  {
    var p := stem + e;
    forall i | 0 <= i < |p| ensures p[i] != '/' {
      if i < |stem| { assert p[i] == stem[i]; } else { assert p[i] == e[i - |stem|]; }
    }
    SegmentExtName(p);
    forall j | |stem| < j < |p| ensures p[j] != '.' {
      assert p[j] == e[j - |stem|];
    }
    assert p[|stem|] == '.';
    assert LastIndexOf(p, '.') == |stem|;
    assert p[|stem|..] == e;
  }

  /**
   * For a name made of a '/'-free stem and a final extension, the filter accepts
   * exactly when that extension lower-cases to ".pdf" ("CV.PDF" passes,
   * "cv.pdf.exe" does not).
   */
  lemma PdfFilterByExtension(stem: string, e: string)
    requires |stem| >= 1 && forall i :: 0 <= i < |stem| ==> stem[i] != '/'
    requires |e| >= 2 && e[0] == '.'
    requires forall i :: 1 <= i < |e| ==> e[i] != '.' && e[i] != '/'
    ensures PdfFilter(stem + e) <==> Lower(e) == ".pdf"
  {
    ExtNameOfSuffix(stem, e);
  }

  /** A hidden file such as ".pdf" has no extension, so the filter refuses it. */
  lemma HiddenFileRefused(p: string)
    requires |p| >= 1 && p[0] == '.'
    requires forall i :: 1 <= i < |p| ==> p[i] != '.' && p[i] != '/'
    ensures ExtName(p) == ""
    ensures !PdfFilter(p)
  {
    SegmentExtName(p);
    assert LastIndexOf(p, '.') == 0;
  }

  /** The fields of an application form, each possibly absent from the request body. */
  datatype ApplicationForm = ApplicationForm(
    firstName: Option<string>,
    lastName: Option<string>,
    phoneNo: Option<string>,
    email: Option<string>,
    careerId: Option<string>)

  /**
   * `parseInt(careerId, 10)` of the body field; an absent field is `undefined`,
   * read as the text "undefined", which has no digits and gives NaN (None).
   */
  function CareerIdOf(form: ApplicationForm): (r: Option<int>)
    ensures form.careerId.None? ==> r.None?
    ensures form.careerId.Some? ==> r == ParseInt(form.careerId.value, Radix10)
  {
    var text := if form.careerId.None? then "undefined" else form.careerId.value;
    assert form.careerId.None? ==> TrimStart(text) == text && LeadingDigits(text, 10) == 0;
    ParseInt(text, Radix10)
  }

  /**
   * POST /add. multer's PDF filter runs first and a refused file ends in the
   * default error handler (500); a missing file is 400; an absent body field is
   * an undefined bind parameter, which the driver refuses (500); `dbAccepts` is
   * whether the database takes the insert. The career id is stored as
   * `parseInt(careerId, 10)`, a NaN stored as NULL.
   */
  function AddApplication(
    apps: seq<Application>, form: ApplicationForm, file: Option<UploadedFile>,
    uploadTime: nat, dbNow: int, newId: int, dbAccepts: bool)
    : (r: (Response<()>, seq<Application>))
    ensures r.0.Ok? <==> && file.Some? && PdfFilter(file.value.originalName)
                         && form.firstName.Some? && form.lastName.Some? && form.phoneNo.Some? && form.email.Some?
                         && dbAccepts
    ensures r.0.Ok? ==>
              && |r.1| == |apps| + 1 && r.1[..|apps|] == apps
              && r.1[|apps|].id == newId
              && r.1[|apps|].firstName == form.firstName.value && r.1[|apps|].lastName == form.lastName.value
              && r.1[|apps|].phoneNo == form.phoneNo.value && r.1[|apps|].email == form.email.value
              && r.1[|apps|].resumePath == StoredResumeName(uploadTime, file.value.originalName)
              && (form.careerId.Some? ==> r.1[|apps|].careerId == ParseInt(form.careerId.value, Radix10))
              && (form.careerId.None? ==> r.1[|apps|].careerId.None?)
              && r.1[|apps|].dateSubmitted == dbNow
              && r.1[|apps|].userName.None?
    ensures r.0.Fail? ==> r.1 == apps
    ensures file.Some? && !PdfFilter(file.value.originalName) ==> r.0 == Fail(500)
    ensures file.None? ==> r.0 == Fail(400)
    ensures r.0.Fail? ==> r.0.status in {400, 500}
  {
    if file.Some? && !PdfFilter(file.value.originalName) then (Fail(500), apps)
    else if file.None? then (Fail(400), apps)
    else if form.firstName.None? || form.lastName.None? || form.phoneNo.None? || form.email.None? then (Fail(500), apps)
    else if !dbAccepts then (Fail(500), apps)
    else
      var row := Application(newId, form.firstName.value, form.lastName.value, form.phoneNo.value,
                             form.email.value, StoredResumeName(uploadTime, file.value.originalName),
                             CareerIdOf(form), dbNow, None);
      (Ok(()), apps + [row])
  }

  /** The career exists and was posted by this employer. */
  predicate OwnsCareer(careers: seq<Career>, careerId: int, preferredUserId: string)
  {
    exists c :: c in careers && c.id == careerId && c.userId == preferredUserId
  }

  /** The columns the per-career view selects. */
  datatype ApplicantRow = ApplicantRow(
    id: int, firstName: string, lastName: string, email: string, phoneNo: string,
    resumePath: string, dateSubmitted: int)

  function ToApplicantRow(a: Application): ApplicantRow
  {
    ApplicantRow(a.id, a.firstName, a.lastName, a.email, a.phoneNo, a.resumePath, a.dateSubmitted)
  }

  /**
   * GET /career/:careerId: 401 unless an employer is logged in, 403 unless the
   * career is theirs, otherwise the career's applications, newest first.
   */
  function CareerApplications(session: Session, careerId: int, careers: seq<Career>, apps: seq<Application>)
    : (r: Response<seq<ApplicantRow>>)
    ensures EmployerGate(session) != Next ==> r == Fail(401)
    ensures EmployerGate(session) == Next && !OwnsCareer(careers, careerId, session.value.preferredUserId)
            ==> r == Fail(403)
    ensures r.Ok? ==> && session.Some? && IsEmployer(session.value)
                      && OwnsCareer(careers, careerId, session.value.preferredUserId)
                      && SortedDesc(r.body, (row: ApplicantRow) => row.dateSubmitted)
  {
    if EmployerGate(session) != Next then Fail(401)
    else if !OwnsCareer(careers, careerId, session.value.preferredUserId) then Fail(403)
    else Ok(Select(apps, (a: Application) => a.careerId == Some(careerId), ToApplicantRow,
                   (row: ApplicantRow) => row.dateSubmitted))
  }

  /** For the owner, the view holds exactly the applications sent to that career. */
  lemma CareerApplicationsMembers(preferredUserId: string, id: nat, careerId: int, careers: seq<Career>,
                                  apps: seq<Application>, row: ApplicantRow)
    requires OwnsCareer(careers, careerId, preferredUserId)
    ensures CareerApplications(Some(EmployerUser(id, preferredUserId)), careerId, careers, apps).Ok?
    ensures row in CareerApplications(Some(EmployerUser(id, preferredUserId)), careerId, careers, apps).body
            <==> exists a :: a in apps && a.careerId == Some(careerId) && row == ToApplicantRow(a)
  {
    SelectMembers(apps, (a: Application) => a.careerId == Some(careerId), ToApplicantRow,
                  (row: ApplicantRow) => row.dateSubmitted, row);
  }
}
