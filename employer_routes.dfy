/**
 * The employer's own account: reading it, editing its contact fields, storing
 * a company logo and confirming the profile. Each write is an UPDATE of the one
 * row whose `preferredUserId` is the session's.
 */
module EmployerRoutes {
  import opened Common
  import opened Sessions
  import opened Tables

  const LogoDirectory := "/uploads/companyLogos/"

  /** The stored logo file name `Date.now() + "-" + originalname`; the client's name is kept as sent. */
  function LogoFileName(now: nat, originalName: string): (name: string)
    ensures StartsWith(name, Decimal(now) + "-")
    ensures |name| == |Decimal(now)| + 1 + |originalName|
    ensures name[|Decimal(now)| + 1..] == originalName
  {
    Decimal(now) + "-" + originalName
  }

  /** The public path of a stored logo. */
  function LogoPath(now: nat, originalName: string): (path: string)
    ensures StartsWith(path, LogoDirectory)
    ensures path[|LogoDirectory|..] == LogoFileName(now, originalName)
  {
    LogoDirectory + LogoFileName(now, originalName)
  }

  /** `UPDATE employers SET companyEmail, mobileNo, landlineNo WHERE preferredUserId = key`. */
  function SetContacts(m: map<string, Employer>, key: string, companyEmail: string, mobileNo: string, landlineNo: string)
    : (r: map<string, Employer>)
    ensures r.Keys == m.Keys
    ensures forall k :: k in m && k != key ==> r[k] == m[k]
    ensures key in m ==> && r[key].companyEmail == companyEmail
                         && r[key].mobileNo == mobileNo
                         && r[key].landlineNo == landlineNo
                         && r[key].(companyEmail := m[key].companyEmail, mobileNo := m[key].mobileNo,
                                    landlineNo := m[key].landlineNo) == m[key]
  {
    if key in m then m[key := m[key].(companyEmail := companyEmail, mobileNo := mobileNo, landlineNo := landlineNo)]
    else m
  }

  /** `UPDATE employers SET companyLogo = path WHERE preferredUserId = key`. */
  function SetLogo(m: map<string, Employer>, key: string, path: string): (r: map<string, Employer>)
    ensures r.Keys == m.Keys
    ensures forall k :: k in m && k != key ==> r[k] == m[k]
    ensures key in m ==> r[key].companyLogo == Some(path) && r[key].(companyLogo := m[key].companyLogo) == m[key]
  {
    if key in m then m[key := m[key].(companyLogo := Some(path))] else m
  }

  /** `UPDATE employers SET profileConfirmed = 1 WHERE preferredUserId = key`. */
  function MarkConfirmed(m: map<string, Employer>, key: string): (r: map<string, Employer>)
    ensures r.Keys == m.Keys
    ensures forall k :: k in m && k != key ==> r[k] == m[k]
    ensures key in m ==> r[key].profileConfirmed && r[key].(profileConfirmed := m[key].profileConfirmed) == m[key]
  {
    if key in m then m[key := m[key].(profileConfirmed := true)] else m
  }

  /** Confirming twice is the same as confirming once. */
  lemma MarkConfirmedIdempotent(m: map<string, Employer>, key: string)
    ensures MarkConfirmed(MarkConfirmed(m, key), key) == MarkConfirmed(m, key)
  {
    var once := MarkConfirmed(m, key);
    if key in m {
      assert once[key].(profileConfirmed := true) == once[key];
    }
  }

  /**
   * The columns GET /me selects. The table's `businessAddress`, `companyWebsite`
   * and `submittedAt` are not part of this model, and `preferredPassword` is not
   * selected, so a profile has no field that could carry it.
   */
  datatype EmployerProfile = EmployerProfile(
    id: nat, employerName: string, businessName: string, landlineNo: string, mobileNo: string,
    companyEmail: string, preferredUserId: string, status: string, companyLogo: Option<string>,
    profileConfirmed: bool)

  /** The selected columns of the row stored under `key`. */
  function ToProfile(e: Employer, key: string): (p: EmployerProfile)
    ensures p.preferredUserId == key
    ensures && p.id == e.id && p.employerName == e.employerName && p.businessName == e.businessName
            && p.landlineNo == e.landlineNo && p.mobileNo == e.mobileNo && p.companyEmail == e.companyEmail
            && p.status == e.status && p.companyLogo == e.companyLogo && p.profileConfirmed == e.profileConfirmed
  {
    EmployerProfile(e.id, e.employerName, e.businessName, e.landlineNo, e.mobileNo, e.companyEmail,
                    key, e.status, e.companyLogo, e.profileConfirmed)
  }

  /** Rows that differ only in their password give the same profile: the password is never sent. */
  lemma ProfileHidesPassword(e: Employer, password: Option<string>, key: string)
    ensures ToProfile(e.(preferredPassword := password), key) == ToProfile(e, key)
  {
  }

  /** The employer table, keyed by the UNIQUE `preferredUserId` column. */
  class EmployerDirectory {
    var employers: map<string, Employer>

    constructor (employers: map<string, Employer>)
      ensures this.employers == employers
    {
      this.employers := employers;
    }

    /**
     * GET /me: 401 without an employer session, 404 when the employer's row is
     * gone, else the selected columns of the row.
     */
    function Me(session: Session): (r: Response<EmployerProfile>)
      reads this
      ensures EmployerGate(session) != Next ==> r == Fail(401)
      ensures EmployerGate(session) == Next ==>
                if session.value.preferredUserId in employers
                then r == Ok(ToProfile(employers[session.value.preferredUserId], session.value.preferredUserId))
                else r == Fail(404)
    {
      var key := if EmployerGate(session) == Next then session.value.preferredUserId else "";
      if EmployerGate(session) != Next then Fail(401)
      else if key in employers then Ok(ToProfile(employers[key], key))
      else Fail(404)
    }

    /**
     * POST /update. An absent body field is an undefined bind parameter, which
     * the driver refuses (500). The update succeeds even when no row matches.
     */
    method Update(session: Session, companyEmail: Option<string>, mobileNo: Option<string>, landlineNo: Option<string>)
      returns (r: Response<()>)
      modifies this
      ensures EmployerGate(session) != Next ==> r == Fail(401)
      ensures EmployerGate(session) == Next && (companyEmail.None? || mobileNo.None? || landlineNo.None?)
              ==> r == Fail(500)
      ensures r.Fail? ==> employers == old(employers)
      ensures r.Ok? <==> EmployerGate(session) == Next && companyEmail.Some? && mobileNo.Some? && landlineNo.Some?
      ensures r.Ok? ==> && employers == SetContacts(old(employers), session.value.preferredUserId,
                                                    companyEmail.value, mobileNo.value, landlineNo.value)
    {
      if EmployerGate(session) != Next {
        return Fail(401);
      }
      if companyEmail.None? || mobileNo.None? || landlineNo.None? {
        return Fail(500);
      }
      employers := SetContacts(employers, session.value.preferredUserId, companyEmail.value, mobileNo.value, landlineNo.value);
      r := Ok(());
    }

    /**
     * POST /upload-logo: 401 without an employer session, 400 without a file,
     * else the logo column is set and its path returned.
     */
    method UploadLogo(session: Session, file: Option<UploadedFile>, now: nat) returns (r: Response<string>)
      modifies this
      ensures EmployerGate(session) != Next ==> r == Fail(401)
      ensures EmployerGate(session) == Next && file.None? ==> r == Fail(400)
      ensures r.Fail? ==> employers == old(employers)
      ensures r.Ok? <==> EmployerGate(session) == Next && file.Some?
      ensures r.Ok? ==> && r.body == LogoPath(now, file.value.originalName)
                        && employers == SetLogo(old(employers), session.value.preferredUserId, r.body)
    {
      if EmployerGate(session) != Next {
        return Fail(401);
      }
      if file.None? {
        return Fail(400);
      }
      var path := LogoDirectory + LogoFileName(now, file.value.originalName);
      employers := SetLogo(employers, session.value.preferredUserId, path);
      r := Ok(path);
    }

    /** POST /confirm: with an employer session the flag is set, whatever the logo. */
    method Confirm(session: Session) returns (r: Response<()>)
      modifies this
      ensures r.Ok? <==> EmployerGate(session) == Next
      ensures r.Fail? ==> r == Fail(401) && employers == old(employers)
      ensures r.Ok? ==> employers == MarkConfirmed(old(employers), session.value.preferredUserId)
    {
      if EmployerGate(session) != Next {
        return Fail(401);
      }
      employers := MarkConfirmed(employers, session.value.preferredUserId);
      r := Ok(());
    }
  }
}
