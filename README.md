# Alumni portal: route logic

The portal is a set of Express route handlers over MySQL. Alumni register and
log in. Employers log in once accepted, keep their profile and post careers.
Applicants send résumés. An administrator reviews statuses and imports the
alumni list from a spreadsheet. A forgotten password is reset through a mailed
one-time code behind a rate limiter.

This project models the decision logic and the small state machines of those
handlers in Dafny:

- tables are maps (keyed by the column a route looks rows up by) or sequences of rows;
- the session user is a datatype;
- every answer is a `Response` (`Ok(body)` or `Fail(status)`).

`Date.now()`, `Math.random()`, the mail transport, the spreadsheet reader, host
date parsing and the database's accept/refuse decision are parameters.

Modules follow the source files:

- `RequireAdmin`, `UploadConfig`, `Applications`, `AdminApplications`, `Careers`,
  `EmployerRoutes` and `ProfileRoutes` for the files of the same names;
- `Otp`, `DateParsing`, `JsNumbers`, `ExcelImport`, `Pagination`, `StatusGates`,
  `Logins` and `AlumniRegistration` for the parts of `api/server.js`;
- `Common`, `Sessions`, `Tables` and `Ordering` for shared JavaScript semantics
  (truthiness, `||`, ASCII case mapping, decimal rendering), session users, row
  types and `WHERE … ORDER BY … DESC`.

Code that mutates shared state is modelled as classes:

- the OTP rate-limit and code dictionaries: `Otp.OtpService`;
- the employer table: `EmployerRoutes.EmployerDirectory`;
- the profile table: `ProfileRoutes.ProfileDirectory`;
- the career table: `Careers.CareerBoard`;
- the spreadsheet import loop: `ExcelImport.ImportRows`.

Each state-changing method is tied to a pure step function. Its properties are
proved as lemmas.

## Model

| member | source | states |
|---|---|---|
| RequireAdmin.RequireAdmin | api/requireAdmin.js:2-7 | calls next exactly when the session user is the administrator; otherwise 403, never both |
| Sessions.EmployerGate | api/employerRoutes.js:19-24 | requireEmployer / authorizeEmployer: next exactly for an employer session, otherwise 401 |
| UploadConfig.AdmitsByKind | api/uploadConfig.js:7-87 | per upload kind: image, profile and logo filters take `image/*`; Excel takes the two spreadsheet types; résumé takes PDF/DOC/DOCX; limits are 20, 100, 5, 5 and 5 MiB |
| UploadConfig.LastIndexOf | api/uploadConfig.js:37 | the last occurrence of a character, or -1 when there is none |
| UploadConfig.StripTrailingSlashes | api/uploadConfig.js:37 | `path.extname` first drops trailing slashes: a prefix of the path, not ending in '/' |
| UploadConfig.Basename | api/uploadConfig.js:37 | the last path segment: a slash-free suffix |
| UploadConfig.SegmentExt | api/uploadConfig.js:37 | the extension of a segment is empty or one dot followed by dot-free text |
| UploadConfig.ExtName | api/uploadConfig.js:37 | `path.extname` is empty or starts with its only dot |
| UploadConfig.UniquePrefix | api/uploadConfig.js:36 | `Date.now() + "-" + Math.round(random * 1e9)` is digits around one dash |
| UploadConfig.SegmentExtName | api/uploadConfig.js:37 | a slash-free name's extension is that of its single segment |
| UploadConfig.ExtNameOfStemAndExt | api/uploadConfig.js:37 | a dot-free stem followed by an extension has exactly that extension |
| UploadConfig.GeneratedNameKeepsExtension | api/uploadConfig.js:35-38 | a generated résumé, picture or logo name starts with the unique prefix and keeps the original extension |
| Applications.CollapseWhitespace | api/applications.js:16 | each whitespace run becomes one underscore: no whitespace is left and the text never grows |
| Applications.SafeName | api/applications.js:15-17 | the sanitised name holds only `[A-Za-z0-9_.-]` and is never longer than the original |
| Applications.StoredResumeName | api/applications.js:19 | `Date.now() + "_" + safeName`, made only of safe characters |
| Applications.CollapseKeepsWhitespaceFree | api/applications.js:16 | a whitespace-free name is left unchanged by the first replace |
| Applications.KeepSafeKeepsSafe | api/applications.js:17 | a name of safe characters is left unchanged by the second replace |
| Applications.SafeNameIdempotent | api/applications.js:15-17 | sanitising a sanitised name changes nothing |
| Applications.ExtNameOfSuffix | api/applications.js:25 | the extension of a slash-free stem and a suffix extension is the suffix |
| Applications.PdfFilterByExtension | api/applications.js:24-30 | the filter accepts exactly when the lower-cased extension is ".pdf" (`CV.PDF` passes, `cv.pdf.exe` does not) |
| Applications.HiddenFileRefused | api/applications.js:24-30 | a dot-file such as ".pdf" has no extension and is refused |
| Applications.CareerIdOf | api/applications.js:54-63 | the career id is `parseInt` of the body field in base 10; an absent field gives NaN |
| Applications.AddApplication | api/applications.js:52-71 | a refused file is 500, a missing file is 400, and either leaves the table unchanged; success exactly for an accepted PDF, all four fields present and an accepted insert, and then exactly one row is appended with the new id, the form's names, phone and e-mail, the stored résumé name and `parseInt(careerId, 10)` of the form, NULL when the field is absent |
| Applications.CareerApplications | api/applications.js:75-101 | 401 without an employer, 403 unless the career is the employer's; otherwise sorted by dateSubmitted descending |
| Applications.CareerApplicationsMembers | api/applications.js:90-94 | for the owner, the view holds exactly the applications sent to that career |
| AdminApplications.NameKey | api/adminApplications.js:15 | the session user name, or "" for an employer session |
| AdminApplications.IdKey | api/adminApplications.js:16 | a zero id becomes the string ""; any other id stays a number, which the query inlines as a numeric literal |
| AdminApplications.SqlNumber | api/adminApplications.js:32-36 | a VARCHAR compared with a number is read by its leading sign and digits, 0 when there are none |
| AdminApplications.IdMatchesLeadingDigits | api/adminApplications.js:32-36 | a career owned by the id's digits followed by a non-digit ("7abc") is matched by that numeric id |
| AdminApplications.ZeroPaddedIdMatches | api/adminApplications.js:32-36 | a career owned by "0" and the id's digits ("07") is matched by that numeric id |
| AdminApplications.AdminApplications | api/adminApplications.js:8-44 | 401 exactly without a session user; otherwise rows sorted by submittedAt descending |
| AdminApplications.AdminApplicationsMembers | api/adminApplications.js:20-36 | a row is returned exactly when it is the renamed form of an application that joins a career owned by the session's user name or id |
| Careers.AuthorizeAdmin | api/careers.js:17-21 | next exactly for the administrator, otherwise 401 |
| Careers.Owner | api/careers.js:54 | the owner is "admin" for the administrator (who takes precedence), else the employer's preferredUserId |
| Careers.PostCareer | api/careers.js:43-67 | 401 before 400 (no image); on success exactly one row is appended, with the owner, the image, each truthy text field as given and NULL for every falsy one |
| Careers.EmployerCareers | api/careers.js:26-38 | 401 without an employer; otherwise only the employer's careers, sorted by datePosted descending |
| Careers.EmployerCareersMembers | api/careers.js:29-32 | the listing holds exactly the employer's own careers |
| Careers.PublicCareers | api/careers.js:88-98 | every career, as a permutation sorted by datePosted descending |
| Careers.PostedCareerIsListed | api/careers.js:43-67 | a career an employer has just posted appears in that employer's listing |
| Careers.FindCareer | api/careers.js:74 | None exactly when no row has the id; otherwise a row with that id |
| Careers.CareerImage | api/careers.js:72-83 | 404 when no row has the id; a served image is the stored image of a row with that id |
| Careers.CareerBoard.Add | api/careers.js:43-67 | the table becomes what PostCareer gives; ids stay unique and below the counter |
| EmployerRoutes.LogoFileName | api/employerRoutes.js:12-14 | `Date.now() + "-" + originalname`, with the client's name kept unsanitised |
| EmployerRoutes.LogoPath | api/employerRoutes.js:83 | the logo path is the logo directory followed by the stored file name |
| EmployerRoutes.SetContacts | api/employerRoutes.js:64-69 | overwrites exactly companyEmail, mobileNo and landlineNo of the one row; other columns and rows are unchanged |
| EmployerRoutes.SetLogo | api/employerRoutes.js:86-89 | sets only companyLogo of the one row |
| EmployerRoutes.MarkConfirmed | api/employerRoutes.js:100-103 | sets only profileConfirmed of the one row |
| EmployerRoutes.MarkConfirmedIdempotent | api/employerRoutes.js:100-103 | confirming twice equals confirming once |
| EmployerRoutes.ToProfile | api/employerRoutes.js:29-46 | the profile is the selected columns of the row under the session's key; it has no password field |
| EmployerRoutes.ProfileHidesPassword | api/employerRoutes.js:29-46 | two rows that differ only in their password give the same profile |
| EmployerRoutes.EmployerDirectory.Me | api/employerRoutes.js:27-57 | 401 without an employer; 404 when the row is gone; otherwise the selected columns of the row, never its password |
| EmployerRoutes.EmployerDirectory.Update | api/employerRoutes.js:60-75 | 401 without an employer; an absent field is an undefined bind (500); success exactly for an employer with all three fields, and then the table becomes SetContacts |
| EmployerRoutes.EmployerDirectory.UploadLogo | api/employerRoutes.js:78-95 | 401, then 400 without a file; success exactly for an employer with a file, and then the path is returned and stored with SetLogo |
| EmployerRoutes.EmployerDirectory.Confirm | api/employerRoutes.js:98-109 | succeeds exactly for an employer session, with no logo precondition; the table becomes MarkConfirmed |
| ProfileRoutes.PictureOrDefault | api/profileRoutes.js:109 | the stored picture when it is truthy, else "/images/default-profile.png" |
| ProfileRoutes.PictureUrl | api/profileRoutes.js:19 | "/uploads/profilePics/" followed by the generated name, keeping the original extension |
| ProfileRoutes.ExtNameAfterDirectory | api/profileRoutes.js:19 | putting the directory before a file name keeps its extension |
| ProfileRoutes.SetPicture | api/profileRoutes.js:39-42 | sets only the user's profilePic |
| ProfileRoutes.DeleteIntent | api/profileRoutes.js:28-36 | deletes the old file exactly when it exists and does not contain "default-profile.png" |
| ProfileRoutes.UploadPictureStep | api/profileRoutes.js:10-49 | multer refusal (500), then 401, then 400, then 500 for a session without a user name, each leaving the table unchanged; success exactly for a user name and an admitted file, and then the new url is stored and the delete decision is returned |
| ProfileRoutes.ConfirmProfile | api/profileRoutes.js:121-155 | 401, 500 without a user name, 404; success exactly for an existing row that is confirmed or has its own picture, and then profileConfirmed becomes true; 400 exactly for an unconfirmed row without an own picture |
| ProfileRoutes.ConfirmIdempotent | api/profileRoutes.js:134-137 | confirming again after a success succeeds and changes nothing |
| ProfileRoutes.ConfirmationIsOneWay | api/profileRoutes.js:145-148 | neither confirmation nor a picture upload clears a confirmed profile |
| ProfileRoutes.UploadedPictureIsOwn | api/profileRoutes.js:19 | an uploaded picture's path never passes for the placeholder |
| ProfileRoutes.OwnPictureByShape | api/profileRoutes.js:140 | a path shaped like an upload contains neither placeholder marker |
| ProfileRoutes.PathCharacters | api/profileRoutes.js:19 | the slashes and the dot of an upload path are at fixed places |
| ProfileRoutes.DirectoryCharacters | api/profileRoutes.js:19 | the picture directory's slash positions |
| ProfileRoutes.NoOccurrenceBeforeDot | api/profileRoutes.js:140 | "default-profile.png" cannot occur in an upload path |
| ProfileRoutes.NoSlashPairSevenApart | api/profileRoutes.js:140 | "/images/default-profile" cannot occur in an upload path |
| ProfileRoutes.UploadThenConfirm | api/profileRoutes.js:10-155 | after a successful upload to an existing row, confirming succeeds and leaves the profile confirmed |
| ProfileRoutes.ProfileDirectory.UploadPicture | api/profileRoutes.js:10-49 | the table and the delete decision are those of UploadPictureStep |
| ProfileRoutes.ProfileDirectory.GetProfile | api/profileRoutes.js:99-115 | 401 exactly without a session user name; otherwise the stored picture or the placeholder |
| ProfileRoutes.ProfileDirectory.Confirm | api/profileRoutes.js:121-155 | the table becomes what ConfirmProfile gives |
| ProfileRoutes.QueryInt | api/profileRoutes.js:160-161 | `parseInt` of an absent query value is NaN |
| ProfileRoutes.FullInformation | api/profileRoutes.js:158-193 | 500 exactly for a negative limit or offset; otherwise the page is the window at offset (page - 1) * limit of the matching rows id descending, with totalPages = ceil(matches / limit); the default page holds at most 100 rows |
| Ordering.Filter | api/careers.js:30 | WHERE: keeps exactly the rows satisfying the condition, with their multiplicities |
| Ordering.Project | api/careers.js:30 | a SELECT list maps row by row |
| Ordering.InsertDesc | api/careers.js:30 | inserting into a descending list gives a descending permutation |
| Ordering.SortDesc | api/careers.js:30 | ORDER BY … DESC gives a sorted permutation |
| Ordering.PermutationMembers | api/careers.js:30 | a permutation has the same members |
| Ordering.Select | api/careers.js:29-32 | the selected rows are sorted descending and are a permutation of the projected kept rows, each as often as in the table |
| Ordering.SelectMembers | api/careers.js:29-32 | a row is selected exactly when it projects a kept row |
| Pagination.OrDefault | api/profileRoutes.js:160-161 | `parsed \|\| fallback`: NaN and 0 fall back |
| Pagination.TotalPages | api/profileRoutes.js:187 | `Math.ceil(count / limit)`: the least t with t·limit ≥ count (mirrored for a negative limit) |
| Pagination.Window | api/profileRoutes.js:172-174 | LIMIT/OFFSET: a negative value is 500; otherwise the slice starting at the offset |
| Pagination.Ordered | api/profileRoutes.js:166-173 | the matching rows, a sorted permutation of the filtered table |
| Pagination.ListPage | api/profileRoutes.js:158-193 | 500 exactly for a negative limit or offset; otherwise the window at offset (page - 1) * limit of the ordered matching rows, with totalPages = ceil(matches / limit); sorted, at most limit rows, only matching rows |
| Pagination.ListedRowOnItsPage | api/profileRoutes.js:158-193 | through the route, row i of the listing is row i mod limit of page i div limit + 1, within the page count |
| Pagination.ListedPastTheEndIsEmpty | api/profileRoutes.js:158-193 | through the route, a page after the last is empty with the same page count |
| Pagination.CheckedListPage | api/server.js:712-745 | 400 exactly when the limit is not positive or the offset is negative; otherwise the listing |
| Pagination.RowOnItsPage | api/profileRoutes.js:162 | row i is at position i mod limit of page i div limit + 1, within the page count |
| Pagination.PagesPastTheEndAreEmpty | api/profileRoutes.js:162-187 | a page after the last is empty |
| Pagination.PagesBeforeTheLastAreFull | api/profileRoutes.js:162-187 | a page before the last holds exactly limit rows |
| JsNumbers.DigitValue | api/server.js:520 | a digit's value; non-digits count as too large for base 10 |
| JsNumbers.LeadingDigits | api/server.js:520 | the longest prefix of digits of the base |
| JsNumbers.ReadDigits | api/server.js:520 | no digits read is NaN; digits give a non-negative value |
| JsNumbers.ParseMagnitude | api/server.js:520 | the unsigned part is non-negative |
| JsNumbers.ParseInt | api/server.js:520 | a negative result comes only from a leading minus after whitespace |
| JsNumbers.DigitsInDecimal | api/server.js:520 | in base 10 the digit reading is the decimal value |
| JsNumbers.ReadDigitsOfDecimal | api/server.js:520 | a digit run stopped by a non-digit is read whole |
| JsNumbers.ParseMagnitudeOfDecimal | api/server.js:520 | a rendered number is read back |
| JsNumbers.ParseIntOfDecimal | api/server.js:520 | `parseInt(String(n) + tail) == n` for a tail that does not continue the digits |
| JsNumbers.ParseIntOfNegative | api/server.js:520 | `parseInt("-" + n) == -n` |
| JsNumbers.ParseIntHexPrefix | api/server.js:520 | without a radix, "0x…" is read in base 16; with radix 10 it is 0 |
| JsNumbers.ValidateInteger | api/server.js:517-526 | null for a falsy value, else parseInt with NaN as null |
| JsNumbers.ValidateIntegerOfDecimal | api/server.js:517-526 | a rendered non-negative number validates to itself |
| DateParsing.Span | api/server.js:265 | the longest prefix whose characters all satisfy the class |
| DateParsing.SpanIs | api/server.js:265 | a prefix of that class stopped by another character is the span |
| DateParsing.MatchDate | api/server.js:265 | the three groups: month of word characters, 1-2 digit day, 4-digit year |
| DateParsing.MatchDateSound | api/server.js:265 | a match is the whole string: month, blanks, day, blanks, year |
| DateParsing.MatchDateComplete | api/server.js:265 | every string of that shape matches, with exactly those groups |
| DateParsing.MonthNumber | api/server.js:258-262 | only the twelve exact English month names map, to two-digit numbers 01-12 |
| DateParsing.PadDay | api/server.js:268 | `padStart(2, '0')`: two digits ending in the day |
| DateParsing.IsoDate | api/server.js:273 | `YYYY-MM-DD` with dashes at 4 and 7 |
| DateParsing.Reformat | api/server.js:266-275 | None exactly for an unknown month name; otherwise the ISO date |
| DateParsing.ParseDate | api/server.js:253-289 | null for a falsy value; the regex branch when it matches a known month; otherwise host parsing |
| DateParsing.ParseDateOfMonthDayYear | api/server.js:264-275 | "Month D YYYY" with a known month gives YYYY-MM-DD, and the day is not range-checked |
| DateParsing.UnknownMonthGoesToHost | api/server.js:272-286 | a matching string with an unknown (or lower-case) month goes to host parsing |
| ExcelImport.Cell | api/server.js:343 | a cell is present exactly when its header is in the row |
| ExcelImport.FirstOfFindsFirst | api/server.js:343-354 | `a \|\| b \|\| null` is the first non-empty cell in header order, null when all are empty |
| ExcelImport.PresentOr | api/server.js:352-353 | a present first cell is kept even when empty; otherwise the second cell when truthy |
| ExcelImport.ErrorLine | api/server.js:361 | `Row ${i + 1}: ${message}` |
| ExcelImport.InsertedRows | api/server.js:357-358 | only rows the database accepted are counted as inserted |
| ExcelImport.EveryRowAccounted | api/server.js:337-363 | inserted plus reported equals the number of rows |
| ExcelImport.AllAccepted | api/server.js:337-363 | when every insert succeeds, all rows are inserted and none is reported |
| ExcelImport.ImportRows | api/server.js:333-363 | the loop: `insertedCount + errors.length == rows.length`; the committed rows are the accepted rows' values and the messages are the refused rows' report lines, each in sheet order |
| ExcelImport.UploadSheet | api/server.js:18-31 | a refused or oversized file is 500; no file, an unreadable or empty sheet is 400; otherwise the accepted rows are committed even when others failed |
| StatusGates.SetStatus | api/server.js:1305 | 400 exactly for a value outside PENDING/ACCEPTED/DECLINED; 404 for a missing row; otherwise only that row changes, and every stored status stays valid |
| StatusGates.SetRequestStatus | api/server.js:1626-1628 | ID requests upper-case `status \|\| ''` before the same check |
| StatusGates.RequestStatusIgnoresCase | api/server.js:1626-1628 | any letter case of an accepted word is stored as that word |
| StatusGates.LowerCaseStatus | api/server.js:1391 | "accepted" is refused by the exact whitelist and stored as ACCEPTED by the request route |
| Logins.AlumniLogin | api/server.js:631-660 | 400 without both fields, 401 unless the name and password match a row; the session is the administrator exactly when the name lower-cases to "admin" |
| Logins.EmployerLogin | api/server.js:667-700 | 400, 401, then 403 unless the status is exactly ACCEPTED; only then an employer session |
| Logins.EmployerSessionsAreEmployers | api/server.js:693-697 | an employer session passes the employer guard and is never the administrator |
| Logins.ResetThenAlumniLogin | api/server.js:1775-1781 | after a reset the new password logs the alumnus in and the old one fails |
| Logins.ResetThenEmployerLogin | api/server.js:1784-1790 | after a reset an accepted employer logs in with the new password |
| AlumniRegistration.Register | api/server.js:533-620 | checks in order: missing field 400, taken name 409, known identity 409, bad year 400, no alumni record 403; only then insert the row, under a fresh name |
| AlumniRegistration.RegisterKeepsNamesUnique | api/server.js:548-554 | user names stay unique up to letter case |
| AlumniRegistration.AdminNameIsTakenOnce | api/server.js:548-554 | once a name lower-casing to "admin" exists, no other can register |
| AlumniRegistration.RegisteredCanLogIn | api/server.js:580-583 | a new account logs in with its password, as administrator exactly when so named |
| Otp.Recent | api/server.js:1703 | keeps exactly the timestamps within the window |
| Otp.KeyStep | api/server.js:1703-1710 | refuses exactly when five recent requests remain; the new list is the pruned list, with now appended exactly when accepted; the list stays at most five |
| Otp.LimiterStep | api/server.js:1698-1711 | 400 without a key, with the table unchanged; otherwise only the key's entry changes, 429 or next, and every list stays at most five |
| Otp.Replay | api/server.js:1698-1711 | the limiter over a sequence of requests on one key |
| Otp.RecentTwice | api/server.js:1703 | pruning at a later time after an earlier one is pruning once |
| Otp.RecentAppend | api/server.js:1703-1709 | pruning after an append |
| Otp.RecentKeepsSuffix | api/server.js:1703 | a run of in-window timestamps at the end of the list survives the prune |
| Otp.ReplayInvariant | api/server.js:1698-1711 | accepted requests are ordered and any six of them span at least the window |
| Otp.NoSixWithinWindow | api/server.js:1676-1677 | no six accepted requests fall within ten minutes |
| Otp.RecentOfStale | api/server.js:1703 | a window with only stale entries prunes to nothing |
| Otp.QuietWindowPasses | api/server.js:1703-1710 | after ten quiet minutes a request passes and restarts the list |
| Otp.OtpValue | api/server.js:1742 | the code value lies in 100000..999999 |
| Otp.OtpCode | api/server.js:1742 | six digits, not starting with 0 |
| Otp.Expiry | api/server.js:1745 | now plus minutes·60000; NaN when the setting does not parse |
| Otp.DefaultExpiry | api/server.js:1745 | without a setting the code expires after ten minutes |
| Otp.PropertyName | api/server.js:1743 | an absent key becomes the property "undefined" |
| Otp.Issue | api/server.js:1743-1746 | overwrites the key's record with a fresh code; other keys are unchanged |
| Otp.MailAddress | api/server.js:1719-1733 | the alumnus's e-mail first, else the employer's company e-mail |
| Otp.FindUser | api/server.js:1680-1695 | 400 without a name, 404 for an unknown alumnus, else the e-mail |
| Otp.FoundAddressIsMailed | api/server.js:1686-1724 | the address shown is the one a code is mailed to |
| Otp.SendOtp | api/server.js:1714-1754 | a limiter refusal is answered with its status and stores and mails nothing; after it passes, a code is stored and mailed exactly when the key has an address, 404 exactly when it has none; a failed mail is 500 and keeps the code |
| Otp.VerifyOtp | api/server.js:1757-1767 | success exactly when a record exists, has not expired and the code matches; the record is kept |
| Otp.MailedCodeVerifies | api/server.js:1741-1766 | the mailed code verifies until it expires |
| Otp.WrongCodeRefused | api/server.js:1761-1763 | any other code is refused |
| Otp.ResetPassword | api/server.js:1770-1798 | the registration table first, then employers; the code is deleted only on an update; 404 keeps it |
| Otp.ResetIgnoresCodes | api/server.js:1770-1798 | a reset succeeds with no code issued at all |
| Otp.VerifiedReset | api/server.js:1770-1798 | the reset behind a verified code |
| Otp.VerifiedResetNeedsCode | api/server.js:1757-1798 | the corrected reset succeeds only with a valid code |
| Otp.OtpService.Limit | api/server.js:1698-1711 | the dictionary becomes what LimiterStep gives; every list stays at most five |
| Otp.OtpService.SendCode | api/server.js:1714-1754 | the dictionaries and the mail are those of SendOtp |
| Otp.OtpService.Verify | api/server.js:1757-1767 | VerifyOtp on the current store |
| Otp.OtpService.Reset | api/server.js:1770-1798 | the store and tables become what ResetPassword gives; the limiter is untouched |

## Left out

- I/O: the MySQL pool, connections and transactions, socket.io notifications, file deletion (`fs.unlink`, kept as a returned intent) and the mail transport (a `delivered` flag).
- Clocks and randomness: `Date.now()`, `NOW()` and `Math.random()` are parameters; one `now` serves both the limiter and the expiry of one request.
- Host date parsing: the `new Date(...)` fallback of `parseDate` is the parameter `hostParse`.
- Spreadsheet reading: `XLSX.read` / `sheet_to_json` give the `sheet` parameter (None when reading throws).
- The `req.file.buffer` check of the spreadsheet import is left out: memory storage always sets it.
- SQL `LIKE` search is the abstract predicate `matches`. SQL `=` between strings is exact string equality, so MySQL's case-insensitive collation is not modelled. `LOWER()` and `toLowerCase` are ASCII lower-casing; `toUpperCase` maps to ASCII only the ASCII letters, U+0131 and U+017F.
- AdminApplications.SqlNumber: MySQL's reading of `careers.userId` as a number stops after the leading sign and digits, so a fraction or an exponent after them ("7.5", "7e1") is not read. The blanks it skips are JavaScript's whitespace, and the comparison's double rounding is not modelled.
- JsNumbers.ParseInt: JavaScript's result is a double, but the model's is an unbounded integer. It is exact only up to 2^53: "9007199254740993" reads as 9007199254740992 in JavaScript. A run of 310 or more digits gives Infinity, which `validateInteger` passes on, and "-0" gives -0; neither is modelled. The same holds for the query values of the listings: a limit of 10^21 or more is written "1e+21" into `LIMIT ${limit}`, which MySQL refuses (500), where `Pagination.CheckedListPage` answers with the page.
- Database failures are modelled only where a route answers them differently (`dbAccepts`, the `insert` result of the import). Elsewhere the catch-all 500 is not modelled: the registration and send-otp lookups, and a notification insert failing after a registration was inserted.
- Object keys inherited from `Object.prototype` (such as `monthNames["constructor"]`) are not modelled: the month table has exactly twelve keys.
- Pagination.ListPage: the listings in `api/server.js` that read `+req.query.page` (Number conversion rather than parseInt), and their defaults of 10 and 50, are not modelled separately.
- `GET /api/employer/applicants` is outside the modelled core.
- Unique keys: `fullInformation` is a map keyed by `userName`, which assumes that column is unique; no table definition makes it so. The source reads `rows[0]` of a lookup and updates every matching row, so with duplicate user names it would read one row and change several. (`employers.preferredUserId` is declared UNIQUE.)
- Applications.AddApplication: a NaN career id is bound as a number that MySQL cannot take. The model stores NULL for it.
- Careers.CareerImage, Applications.CareerApplications and StatusGates.SetStatus take the route's id as the number MySQL reads from the `req.params` text, since the source binds that text and MySQL compares it numerically ("07" and "7abc" both find row 7). The sportfest teams route instead converts with unary `+`, where "7abc" is NaN and "0x10" is 16. That difference on such strings is not modelled.
- Pagination.RowOnItsPage: states the page arithmetic for positive limits only; negative limits reach MySQL, which refuses them (500).
- The duplicated helper definitions (`validateInteger` at api/server.js:517 and 755) are modelled once.
- The remaining CRUD routes of `api/server.js` (teams, athletes, events, receipts, photos) are outside the modelled core, except their status whitelists.

## Findings

| source | as written | input that shows it | evidently intended | confidence | as-written member | corrected member |
|---|---|---|---|---|---|---|
| api/server.js:1770-1798 | reset-password changes the password of any existing account without checking that a one-time code was issued or verified | `POST /api/forgot/reset-password` with `userName` of an existing alumnus and any `newPassword`, with no code ever sent | the reset goes through only after the account's code has been verified | not executed; high | Otp.ResetIgnoresCodes | Otp.VerifiedResetNeedsCode |
