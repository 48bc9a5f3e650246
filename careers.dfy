/**
 * Career postings: the administrator guard, posting a career,
 * the employer's and the public listings and the career image.
 */
module Careers {
  import opened Common
  import opened Sessions
  import opened Tables
  import opened Ordering

  /** `authorizeAdmin`: 401 unless the session user is the administrator. */
  function AuthorizeAdmin(session: Session): (g: Gate)
    ensures g == Next <==> session.Some? && IsAdmin(session.value)
    ensures g != Next ==> g == Deny(401)
  {
    if session.None? || !IsAdmin(session.value) then Deny(401) else Next
  }

  /** Who may post a career: an employer or the administrator. */
  predicate MayPost(u: SessionUser)
  {
    IsEmployer(u) || IsAdmin(u)
  }

  /** The owner recorded on a new career: "admin" for the administrator, else the employer's preferredUserId. */
  function Owner(u: SessionUser): (owner: string)
    requires MayPost(u)
    ensures IsAdmin(u) ==> owner == "admin"
    ensures !IsAdmin(u) ==> PreferredUserIdOf(u) == Some(owner)
  {
    if IsAdmin(u) then "admin" else u.preferredUserId
  }

  /** The text fields of the posting form, each possibly absent or empty. */
  datatype CareerForm = CareerForm(title: Option<string>, description: Option<string>, link: Option<string>)

  /**
   * POST /add against the table `rows` whose next AUTO_INCREMENT id is `nextId`:
   * 401 unless an employer or the administrator is logged in, then 400 without an
   * image, then the insert (refused with 500 when the database does not accept it).
   */
  function PostCareer(rows: seq<Career>, nextId: int, session: Session, form: CareerForm,
                      image: Option<seq<byte>>, now: int, dbAccepts: bool)
    : (r: (Response<()>, seq<Career>))
    ensures (session.None? || !MayPost(session.value)) ==> r.0 == Fail(401)
    ensures session.Some? && MayPost(session.value) && image.None? ==> r.0 == Fail(400)
    ensures r.0.Ok? <==> session.Some? && MayPost(session.value) && image.Some? && dbAccepts
    ensures r.0.Fail? ==> r.1 == rows
    ensures r.0.Ok? ==>
              && |r.1| == |rows| + 1 && r.1[..|rows|] == rows
              && var c := r.1[|rows|];
                 && c.id == nextId && c.datePosted == now && c.image == image
                 && c.userId == Owner(session.value)
                 && (c.title.None? <==> !Truthy(form.title))
                 && (c.description.None? <==> !Truthy(form.description))
                 && (c.link.None? <==> !Truthy(form.link))
                 && (Truthy(form.title) ==> c.title == form.title)
                 && (Truthy(form.description) ==> c.description == form.description)
                 && (Truthy(form.link) ==> c.link == form.link)
  {
    if session.None? || !MayPost(session.value) then (Fail(401), rows)
    else if image.None? then (Fail(400), rows)
    else if !dbAccepts then (Fail(500), rows)
    else
      var c := Career(nextId, OrNull(form.title), OrNull(form.description), OrNull(form.link),
                      Owner(session.value), now, image);
      (Ok(()), rows + [c])
  }

  /** A row of the employer listing: every column but the image. */
  datatype CareerListing = CareerListing(
    id: int, title: Option<string>, description: Option<string>, link: Option<string>,
    userId: string, datePosted: int)

  /** A row of the public listing: every column but the owner and the image. */
  datatype PublicCareer = PublicCareer(
    id: int, title: Option<string>, description: Option<string>, link: Option<string>, datePosted: int)

  function ToListing(c: Career): CareerListing
  {
    CareerListing(c.id, c.title, c.description, c.link, c.userId, c.datePosted)
  }

  function ToPublic(c: Career): PublicCareer
  {
    PublicCareer(c.id, c.title, c.description, c.link, c.datePosted)
  }

  /** GET /: the logged-in employer's own careers, newest first. */
  function EmployerCareers(session: Session, rows: seq<Career>): (r: Response<seq<CareerListing>>)
    ensures r.Fail? <==> EmployerGate(session) != Next
    ensures r.Fail? ==> r.status == 401
    ensures r.Ok? ==> && SortedDesc(r.body, (l: CareerListing) => l.datePosted)
                      && forall i :: 0 <= i < |r.body| ==> r.body[i].userId == session.value.preferredUserId
  {
    if EmployerGate(session) != Next then Fail(401)
    else
      var owner := session.value.preferredUserId;
      var listing := Select(rows, (c: Career) => c.userId == owner, ToListing, (l: CareerListing) => l.datePosted);
      assert forall i :: 0 <= i < |listing| ==> listing[i].userId == owner by {
        forall i | 0 <= i < |listing| ensures listing[i].userId == owner {
          SelectMembers(rows, (c: Career) => c.userId == owner, ToListing, (l: CareerListing) => l.datePosted, listing[i]);
        }
      }
      Ok(listing)
  }

  /** The employer listing holds exactly the employer's own careers. */
  lemma EmployerCareersMembers(id: nat, preferredUserId: string, rows: seq<Career>, l: CareerListing)
    ensures EmployerCareers(Some(EmployerUser(id, preferredUserId)), rows).Ok?
    ensures l in EmployerCareers(Some(EmployerUser(id, preferredUserId)), rows).body
            <==> exists c :: c in rows && c.userId == preferredUserId && l == ToListing(c)
  {
    SelectMembers(rows, (c: Career) => c.userId == preferredUserId, ToListing, (l: CareerListing) => l.datePosted, l);
  }

  /** GET /public: every career, newest first. */
  function PublicCareers(rows: seq<Career>): (r: seq<PublicCareer>)
    ensures SortedDesc(r, (p: PublicCareer) => p.datePosted)
    ensures |r| == |rows|
    ensures multiset(r) == multiset(Project(rows, ToPublic))
  {
    SortDesc(Project(rows, ToPublic), (p: PublicCareer) => p.datePosted)
  }

  /** A career an employer has just posted appears in that employer's listing. */
  lemma PostedCareerIsListed(rows: seq<Career>, nextId: int, id: nat, preferredUserId: string, form: CareerForm,
                             image: Option<seq<byte>>, now: int)
    requires image.Some?
    ensures var r := PostCareer(rows, nextId, Some(EmployerUser(id, preferredUserId)), form, image, now, true);
            && r.0.Ok?
            && ToListing(r.1[|rows|]) in EmployerCareers(Some(EmployerUser(id, preferredUserId)), r.1).body
  {
    var r := PostCareer(rows, nextId, Some(EmployerUser(id, preferredUserId)), form, image, now, true);
    var c := r.1[|rows|];
    assert c in r.1;
    EmployerCareersMembers(id, preferredUserId, r.1, ToListing(c));
  }

  /** The first row with the given id (`SELECT image FROM careers WHERE id = ?`, then `rows[0]`). */
  function FindCareer(rows: seq<Career>, id: int): (r: Option<Career>)
    ensures r.None? <==> forall c :: c in rows ==> c.id != id
    ensures r.Some? ==> r.value in rows && r.value.id == id
  {
    if rows == [] then None
    else if rows[0].id == id then Some(rows[0])
    else FindCareer(rows[1..], id)
  }

  /**
   * GET /image/:id: 404 when no row has the id or its image is NULL. A stored
   * image is a Buffer, truthy even when empty, so it is always served.
   */
  function CareerImage(rows: seq<Career>, id: int): (r: Response<seq<byte>>)
    ensures r.Fail? ==> r.status == 404
    ensures r.Ok? ==> exists c :: c in rows && c.id == id && c.image == Some(r.body)
    ensures (forall c :: c in rows ==> c.id != id) ==> r == Fail(404)
    ensures (forall c :: c in rows && c.id == id ==> c.image.Some?) && (exists c :: c in rows && c.id == id) ==> r.Ok?
  {
    var found := FindCareer(rows, id);
    if found.None? || found.value.image.None? then Fail(404) else Ok(found.value.image.value)
  }

  /** The career posting table, with its AUTO_INCREMENT counter. */
  class CareerBoard {
    var rows: seq<Career>
    var nextId: int

    /** Every id is below the counter and no two rows share an id. */
    ghost predicate Valid()
      reads this
    {
      && (forall i :: 0 <= i < |rows| ==> rows[i].id < nextId)
      && (forall i, j :: 0 <= i < j < |rows| ==> rows[i].id != rows[j].id)
    }

    constructor ()
      ensures rows == [] && nextId == 1
      ensures Valid()
    {
      rows := [];
      nextId := 1;
    }

    /** POST /add: the table and the counter become what `PostCareer` describes. */
    method Add(session: Session, form: CareerForm, image: Option<seq<byte>>, now: int, dbAccepts: bool)
      returns (r: Response<()>)
      requires Valid()
      modifies this
      ensures Valid()
      ensures (r, rows) == PostCareer(old(rows), old(nextId), session, form, image, now, dbAccepts)
      ensures nextId == if r.Ok? then old(nextId) + 1 else old(nextId)
    {
      if session.None? || !MayPost(session.value) {
        return Fail(401);
      }
      if image.None? {
        return Fail(400);
      }
      if !dbAccepts {
        return Fail(500);
      }
      var c := Career(nextId, OrNull(form.title), OrNull(form.description), OrNull(form.link),
                      Owner(session.value), now, image);
      rows := rows + [c];
      nextId := nextId + 1;
      r := Ok(());
    }
  }
}
