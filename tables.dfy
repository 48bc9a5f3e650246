/**
 * Rows of the MySQL tables the core reads and writes, restricted to the columns
 * it uses. DATETIME columns are modelled as integer timestamps, BLOBs as bytes
 * and nullable columns as Option.
 */
module Tables {
  import opened Common

  /** A row of `careers`; `userId` is "admin" or the posting employer's preferredUserId. */
  datatype Career = Career(
    id: int,
    title: Option<string>,
    description: Option<string>,
    link: Option<string>,
    userId: string,
    datePosted: int,
    image: Option<seq<byte>>)

  /** A row of `applications`. */
  datatype Application = Application(
    id: int,
    firstName: string,
    lastName: string,
    phoneNo: string,
    email: string,
    resumePath: string,
    careerId: Option<int>,
    dateSubmitted: int,
    userName: Option<string>)

  /** A row of `employers`; `preferredUserId` is UNIQUE, so tables are maps keyed by it. */
  datatype Employer = Employer(
    id: nat,
    employerName: string,
    businessName: string,
    landlineNo: string,
    mobileNo: string,
    companyEmail: string,
    preferredPassword: Option<string>,
    status: string,
    companyLogo: Option<string>,
    profileConfirmed: bool)

  /** A row of `registration` (alumni accounts). */
  datatype Registration = Registration(
    id: nat,
    firstName: string,
    lastName: string,
    personalEmail: string,
    gender: string,
    userName: string,
    passWord: string)

  /** The columns of an `alumni` row that registration matches against. */
  datatype AlumniRecord = AlumniRecord(
    firstName: Option<string>,
    lastName: Option<string>,
    gender: Option<string>,
    major: Option<string>,
    graduated: Option<int>)

  /** The columns of a `fullInformation` row that the profile routes use. */
  datatype Profile = Profile(profilePic: Option<string>, profileConfirmed: bool)
}
