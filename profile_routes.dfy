/**
 * An alumnus's profile: uploading a picture (with the decision to delete the
 * previous file), reading the picture with its placeholder fallback, the one-way
 * confirmation and the paginated directory listing.
 */
module ProfileRoutes {
  import opened Common
  import opened Sessions
  import opened Tables
  import opened UploadConfig
  import opened JsNumbers
  import opened Pagination
  import opened Ordering

  const DefaultPicture := "/images/default-profile.png"
  const PictureDirectory := "/uploads/profilePics/"

  /** The previous picture file is deleted when there is one and it is not the placeholder. */
  predicate ShouldDeleteOld(oldPicture: Option<string>)
  {
    Truthy(oldPicture) && !Contains(oldPicture.value, "default-profile.png")
  }

  /** The confirmation refuses a profile without a picture or still showing the placeholder. */
  predicate LacksOwnPicture(picture: Option<string>)
  {
    !Truthy(picture) || Contains(picture.value, "default-profile.png") || Contains(picture.value, "/images/default-profile")
  }

  /** `rows[0]?.profilePic || "/images/default-profile.png"`. */
  function PictureOrDefault(stored: Option<string>): (picture: string)
    ensures Truthy(stored) ==> picture == stored.value
    ensures !Truthy(stored) ==> picture == DefaultPicture
    ensures picture != ""
  {
    if Truthy(stored) then stored.value else DefaultPicture
  }

  /** The public path of an uploaded picture, from the upload configuration's generated name. */
  function PictureUrl(now: nat, random: real, originalName: string): (url: string)
    requires 0.0 <= random < 1.0
    ensures StartsWith(url, PictureDirectory)
    ensures ExtName(url) == ExtName(originalName)
  {
    var name := GeneratedName(now, random, originalName);
    GeneratedNameKeepsExtension(now, random, originalName);
    GeneratedNameIsSegment(now, random, originalName);
    DirectoryEndsInSlash();
    var url := PictureDirectory + name;
    assert url[..|PictureDirectory|] == PictureDirectory;
    ExtNameAfterDirectory(PictureDirectory, name);
    url
  }

  /** The picture directory ends in '/'. */
  lemma DirectoryEndsInSlash()
    ensures |PictureDirectory| >= 1 && PictureDirectory[|PictureDirectory| - 1] == '/'
  {
  }

  /** A '/'-free file name keeps its extension when a directory ending in '/' is put before it. */
  lemma ExtNameAfterDirectory(dir: string, name: string)
    requires |dir| >= 1 && dir[|dir| - 1] == '/'
    requires |name| >= 1 && forall i :: 0 <= i < |name| ==> name[i] != '/'
    requires name[|name| - 1] != '/'
    ensures ExtName(dir + name) == ExtName(name)
  {
    var p := dir + name;
    assert p[|p| - 1] == name[|name| - 1];
    assert StripTrailingSlashes(p) == p;
    assert StripTrailingSlashes(name) == name;
    forall j | |dir| <= j < |p| ensures p[j] != '/' {
      assert p[j] == name[j - |dir|];
    }
    assert p[|dir| - 1] == '/';
    assert LastIndexOf(p, '/') == |dir| - 1;
    assert Basename(p) == name;
    SegmentExtName(name);
  }

  /** Set the picture of the user's row, if there is one. */
  function SetPicture(m: map<string, Profile>, userName: string, url: string): (r: map<string, Profile>)
    ensures r.Keys == m.Keys
    ensures forall k :: k in m && k != userName ==> r[k] == m[k]
    ensures userName in m ==> r[userName] == Profile(Some(url), m[userName].profileConfirmed)
  {
    if userName in m then m[userName := m[userName].(profilePic := Some(url))] else m
  }

  /** The picture currently stored for the user, if the row exists. */
  function StoredPicture(m: map<string, Profile>, userName: string): Option<string>
  {
    if userName in m then m[userName].profilePic else None
  }

  /** The file to delete: the old picture when `ShouldDeleteOld` holds. */
  function DeleteIntent(oldPicture: Option<string>): (r: Option<string>)
    ensures r.Some? <==> ShouldDeleteOld(oldPicture)
    ensures r.Some? ==> r == oldPicture
  {
    if ShouldDeleteOld(oldPicture) then oldPicture else None
  }

  /**
   * POST /upload-picture. The multer configuration runs first: a file it refuses
   * (not an image, or over 5 MiB) ends in the default error handler (500). Then
   * 401 without a session user, 400 without a file, 500 for a session without a
   * user name (an undefined bind parameter). The answer carries the new path and
   * the old file to delete, if any; a failed deletion only logs a warning.
   */
  function UploadPictureStep(m: map<string, Profile>, session: Session, file: Option<UploadedFile>, now: nat, random: real)
    : (r: (Response<string>, Option<string>, map<string, Profile>))
    requires 0.0 <= random < 1.0
    ensures r.0.Fail? ==> r.1.None? && r.2 == m
    ensures file.Some? && !Admits(ProfilePicUpload, file.value) ==> r.0 == Fail(500)
    ensures session.None? && (file.None? || Admits(ProfilePicUpload, file.value)) ==> r.0 == Fail(401)
    ensures session.Some? && file.None? ==> r.0 == Fail(400)
    ensures session.Some? && UserNameOf(session.value).None? && file.Some? && Admits(ProfilePicUpload, file.value)
            ==> r.0 == Fail(500)
    ensures r.0.Ok? <==> session.Some? && UserNameOf(session.value).Some? && file.Some? && Admits(ProfilePicUpload, file.value)
    ensures r.0.Ok? ==>
              && r.0.body == PictureUrl(now, random, file.value.originalName)
              && r.1 == DeleteIntent(StoredPicture(m, UserNameOf(session.value).value))
              && r.2 == SetPicture(m, UserNameOf(session.value).value, r.0.body)
  {
    if file.Some? && !Admits(ProfilePicUpload, file.value) then (Fail(500), None, m)
    else if session.None? then (Fail(401), None, m)
    else if file.None? then (Fail(400), None, m)
    else if UserNameOf(session.value).None? then (Fail(500), None, m)
    else
      var userName := UserNameOf(session.value).value;
      var url := PictureUrl(now, random, file.value.originalName);
      (Ok(url), DeleteIntent(StoredPicture(m, userName)), SetPicture(m, userName, url))
  }

  /**
   * POST /confirm: 401 without a session user, 500 for a session without a user
   * name, 404 without a row, success without change when already confirmed, 400
   * when the picture is missing or the placeholder, otherwise the row is
   * confirmed.
   */
  function ConfirmProfile(m: map<string, Profile>, session: Session): (r: (Response<()>, map<string, Profile>))
    ensures r.0.Fail? ==> r.1 == m
    ensures session.None? ==> r.0 == Fail(401)
    ensures session.Some? && UserNameOf(session.value).None? ==> r.0 == Fail(500)
    ensures session.Some? && UserNameOf(session.value).Some? && UserNameOf(session.value).value !in m ==> r.0 == Fail(404)
    ensures r.0.Ok? <==> && session.Some? && UserNameOf(session.value).Some?
                         && var userName := UserNameOf(session.value).value;
                            && userName in m
                            && (m[userName].profileConfirmed || !LacksOwnPicture(m[userName].profilePic))
    ensures r.0.Ok? ==> var userName := UserNameOf(session.value).value;
                        r.1 == m[userName := m[userName].(profileConfirmed := true)]
    ensures r.0 == Fail(400) <==> && session.Some? && UserNameOf(session.value).Some?
                                  && var userName := UserNameOf(session.value).value;
                                     userName in m && !m[userName].profileConfirmed && LacksOwnPicture(m[userName].profilePic)
  {
    if session.None? then (Fail(401), m)
    else if UserNameOf(session.value).None? then (Fail(500), m)
    else
      var userName := UserNameOf(session.value).value;
      if userName !in m then (Fail(404), m)
      else if m[userName].profileConfirmed then
        assert m[userName := m[userName].(profileConfirmed := true)] == m;
        (Ok(()), m)
      else if LacksOwnPicture(m[userName].profilePic) then (Fail(400), m)
      else (Ok(()), m[userName := m[userName].(profileConfirmed := true)])
  }

  /** Confirming again after a successful confirmation succeeds and changes nothing. */
  lemma ConfirmIdempotent(m: map<string, Profile>, session: Session)
    ensures var first := ConfirmProfile(m, session);
            first.0.Ok? ==> ConfirmProfile(first.1, session) == (Ok(()), first.1)
  {
  }

  /** Neither the confirmation nor a picture upload ever clears a confirmed profile. */
  lemma ConfirmationIsOneWay(m: map<string, Profile>, session: Session, file: Option<UploadedFile>,
                             now: nat, random: real, k: string)
    requires 0.0 <= random < 1.0
    requires k in m && m[k].profileConfirmed
    ensures var c := ConfirmProfile(m, session).1; k in c && c[k].profileConfirmed
    ensures var u := UploadPictureStep(m, session, file, now, random).2; k in u && u[k].profileConfirmed
  {
  }

  /** An uploaded picture's path is never taken for the placeholder. */
  lemma UploadedPictureIsOwn(now: nat, random: real, originalName: string)
    requires 0.0 <= random < 1.0
    ensures !LacksOwnPicture(Some(PictureUrl(now, random, originalName)))
  {
    var prefix := UniquePrefix(now, random);
    var ext := ExtName(originalName);
    PictureUrlParts(now, random, originalName);
    DirectoryCharacters();
    PathCharacters(PictureDirectory, prefix, ext);
    OwnPictureByShape(PictureDirectory + prefix + ext, |PictureDirectory| + |prefix|);
  }

  /** An uploaded picture's path is the directory, the unique prefix and the original extension. */
  lemma PictureUrlParts(now: nat, random: real, originalName: string)
    requires 0.0 <= random < 1.0
    ensures PictureUrl(now, random, originalName) == PictureDirectory + UniquePrefix(now, random) + ExtName(originalName)
  {
    var prefix, ext := UniquePrefix(now, random), ExtName(originalName);
    assert PictureDirectory + (prefix + ext) == PictureDirectory + prefix + ext;
  }

  /** A path whose only dot follows a digit and whose slashes are at 0, 8 and 20 is not the placeholder. */
  lemma OwnPictureByShape(url: string, j: int)
    requires 1 <= j <= |url| && IsDigit(url[j - 1])
    requires forall k :: 0 <= k < |url| && url[k] == '/' ==> k == 0 || k == 8 || k == 20
    requires forall k :: 0 <= k < |url| && url[k] == '.' ==> k == j
    ensures !LacksOwnPicture(Some(url))
  {
    NoOccurrenceBeforeDot(url, j, "default-profile.png", 15);
    NoSlashPairSevenApart(url, "/images/default-profile");
  }

  /**
   * Where the slashes and the dot of `dir + prefix + ext` are, for a directory
   * with slashes at 0, 8 and 20 and no dot, a prefix of digits and '-' ending in
   * a digit and an extension whose only dot is its first character.
   */
  lemma PathCharacters(dir: string, prefix: string, ext: string)
    requires |dir| == 21
    requires forall k :: 0 <= k < |dir| ==> (dir[k] == '/' ==> k == 0 || k == 8 || k == 20) && dir[k] != '.'
    requires |prefix| >= 1 && IsDigit(prefix[|prefix| - 1])
    requires forall k :: 0 <= k < |prefix| ==> IsDigit(prefix[k]) || prefix[k] == '-'
    requires ext == [] || ext[0] == '.'
    requires forall k :: 1 <= k < |ext| ==> ext[k] != '.' && ext[k] != '/'
    ensures var url := dir + prefix + ext;
            var j := |dir| + |prefix|;
            && IsDigit(url[j - 1])
            && (forall k :: 0 <= k < |url| && url[k] == '/' ==> k == 0 || k == 8 || k == 20)
            && (forall k :: 0 <= k < |url| && url[k] == '.' ==> k == j)
  {
    var url := dir + prefix + ext;
    var j := |dir| + |prefix|;
    forall k | 0 <= k < |url| ensures (url[k] == '/' ==> k == 0 || k == 8 || k == 20) && (url[k] == '.' ==> k == j) {
      if k < |dir| {
        assert url[k] == dir[k];
      } else if k < j {
        assert url[k] == prefix[k - |dir|];
      } else {
        assert url[k] == ext[k - j];
      }
    }
    assert url[j - 1] == prefix[|prefix| - 1];
  }

  /** The picture directory has slashes at 0, 8 and 20 only, and no dot. */
  lemma DirectoryCharacters()
    ensures |PictureDirectory| == 21
    ensures forall k :: 0 <= k < |PictureDirectory| ==>
              (PictureDirectory[k] == '/' ==> k == 0 || k == 8 || k == 20) && PictureDirectory[k] != '.'
  {
  }

  /** A text whose dot (at index d > 0) follows a non-digit does not occur where the only dot follows a digit. */
  lemma NoOccurrenceBeforeDot(url: string, j: int, t: string, d: int)
    requires 1 <= j <= |url| && IsDigit(url[j - 1])
    requires forall k :: 0 <= k < |url| && url[k] == '.' ==> k == j
    requires 1 <= d < |t| && t[d] == '.' && !IsDigit(t[d - 1])
    ensures !Contains(url, t)
  {
    forall i | 0 <= i <= |url| - |t| ensures !OccursAt(url, t, i) {
      var w := url[i..i + |t|];
      if url[i + d] == '.' {
        assert w[d - 1] == url[j - 1];
      } else {
        assert w[d] == url[i + d];
      }
    }
    ContainsAt(url, t);
  }

  /** A text with slashes at indexes 0 and 7 does not occur where the only slashes are at 0, 8 and 20. */
  lemma NoSlashPairSevenApart(url: string, t: string)
    requires forall k :: 0 <= k < |url| && url[k] == '/' ==> k == 0 || k == 8 || k == 20
    requires |t| >= 8 && t[0] == '/' && t[7] == '/'
    ensures !Contains(url, t)
  {
    forall i | 0 <= i <= |url| - |t| ensures !OccursAt(url, t, i) {
      var w := url[i..i + |t|];
      if url[i] == '/' {
        assert w[7] == url[i + 7];
      } else {
        assert w[0] == url[i];
      }
    }
    ContainsAt(url, t);
  }

  /** After a successful upload to an existing row, confirming succeeds and leaves the profile confirmed. */
  lemma UploadThenConfirm(m: map<string, Profile>, session: Session, file: Option<UploadedFile>, now: nat, random: real)
    requires 0.0 <= random < 1.0
    requires var up := UploadPictureStep(m, session, file, now, random);
             up.0.Ok? && UserNameOf(session.value).value in m
    ensures var up := UploadPictureStep(m, session, file, now, random);
            var c := ConfirmProfile(up.2, session);
            && c.0 == Ok(())
            && c.1[UserNameOf(session.value).value].profileConfirmed
  {
    var up := UploadPictureStep(m, session, file, now, random);
    UploadedPictureIsOwn(now, random, file.value.originalName);
  }

  /** The profile table, keyed by user name. */
  class ProfileDirectory {
    var profiles: map<string, Profile>

    constructor (profiles: map<string, Profile>)
      ensures this.profiles == profiles
    {
      this.profiles := profiles;
    }

    /** POST /upload-picture, as `UploadPictureStep` describes it; returns the file to delete, if any. */
    method UploadPicture(session: Session, file: Option<UploadedFile>, now: nat, random: real)
      returns (r: Response<string>, deleteOld: Option<string>)
      requires 0.0 <= random < 1.0
      modifies this
      ensures (r, deleteOld, profiles) == UploadPictureStep(old(profiles), session, file, now, random)
    {
      if file.Some? && !Admits(ProfilePicUpload, file.value) {
        return Fail(500), None;
      }
      if session.None? {
        return Fail(401), None;
      }
      if file.None? {
        return Fail(400), None;
      }
      if UserNameOf(session.value).None? {
        return Fail(500), None;
      }
      var userName := UserNameOf(session.value).value;
      var url := PictureUrl(now, random, file.value.originalName);
      deleteOld := DeleteIntent(StoredPicture(profiles, userName));
      if userName in profiles {
        profiles := profiles[userName := profiles[userName].(profilePic := Some(url))];
      }
      r := Ok(url);
    }

    /** GET /get-profile: 401 without a user name in the session, else the picture or the placeholder. */
    function GetProfile(session: Session): (r: Response<string>)
      reads this
      ensures r.Fail? <==> session.None? || !Truthy(UserNameOf(session.value))
      ensures r.Fail? ==> r.status == 401
      ensures r.Ok? ==> var userName := UserNameOf(session.value).value;
                        && (userName in profiles && Truthy(profiles[userName].profilePic) ==> r.body == profiles[userName].profilePic.value)
                        && (userName !in profiles || !Truthy(profiles[userName].profilePic) ==> r.body == DefaultPicture)
    {
      if session.None? || !Truthy(UserNameOf(session.value)) then Fail(401)
      else
        var userName := UserNameOf(session.value).value;
        Ok(PictureOrDefault(if userName in profiles then profiles[userName].profilePic else None))
    }

    /** POST /confirm, as `ConfirmProfile` describes it. */
    method Confirm(session: Session) returns (r: Response<()>)
      modifies this
      ensures (r, profiles) == ConfirmProfile(old(profiles), session)
    {
      if session.None? {
        return Fail(401);
      }
      if UserNameOf(session.value).None? {
        return Fail(500);
      }
      var userName := UserNameOf(session.value).value;
      if userName !in profiles {
        return Fail(404);
      }
      if profiles[userName].profileConfirmed {
        return Ok(());
      }
      if LacksOwnPicture(profiles[userName].profilePic) {
        return Fail(400);
      }
      profiles := profiles[userName := profiles[userName].(profileConfirmed := true)];
      r := Ok(());
    }
  }

  /** `parseInt(req.query.x)`: an absent query value parses to NaN. */
  function QueryInt(arg: Option<string>): (r: Option<int>)
    ensures arg.None? ==> r.None?
    ensures arg.Some? ==> r == ParseInt(arg.value, NoRadix)
  {
    if arg.None? then None else ParseInt(arg.value, NoRadix)
  }

  /** GET /fullInformation: the searched directory, id descending, one page at a time. */
  function FullInformation<T(!new)>(table: seq<T>, matches: T -> bool, id: T -> int, page: Option<string>, limit: Option<string>)
    : (r: Response<Page<T>>)
    ensures r.Fail? ==> r.status == 500
    ensures page.None? && limit.None? ==> r.Ok? && |r.body.rows| <= DefaultLimit
    ensures var p, l := OrDefault(QueryInt(page), DefaultPage), OrDefault(QueryInt(limit), DefaultLimit);
            && (r.Fail? <==> l < 0 || Offset(p, l) < 0)
            && (r.Ok? ==> r.body == Page(Window(Ordered(table, matches, id), l, Offset(p, l)).body,
                                         TotalPages(|Filter(table, matches)|, l)))
  {
    ListPage(table, matches, id, QueryInt(page), QueryInt(limit))
  }
}
