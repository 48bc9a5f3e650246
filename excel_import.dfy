/**
 * POST /api/alumni/upload-excel: every row of the first sheet is inserted into
 * `alumni` inside one transaction; a row whose insert fails is reported and
 * skipped, and the transaction is committed whatever failed.
 */
module ExcelImport {
  import opened Common
  import opened UploadConfig
  import opened DateParsing
  import opened Ordering

  /** The size limit of the server's own spreadsheet upload (10 MiB). */
  const SheetSizeLimit: nat := 10 * MiB

  /** A sheet row as `sheet_to_json` with formatted text gives it: header to cell text, empty cells absent. */
  type SheetRow = map<string, string>

  /** `row[header]`. */
  function Cell(row: SheetRow, header: string): (v: Option<string>)
    ensures v.Some? <==> header in row
  {
    if header in row then Some(row[header]) else None
  }

  /** `row[h1] || row[h2] || … || null`: the first non-empty cell among the headers. */
  function FirstOf(row: SheetRow, headers: seq<string>): Option<string>
  {
    if headers == [] then None
    else if Truthy(Cell(row, headers[0])) then Cell(row, headers[0])
    else FirstOf(row, headers[1..])
  }

  /** `FirstOf` is null exactly when every listed cell is missing or empty, and otherwise the first non-empty one. */
  lemma {:induction false} FirstOfFindsFirst(row: SheetRow, headers: seq<string>)
    ensures FirstOf(row, headers).None? <==> forall i :: 0 <= i < |headers| ==> !Truthy(Cell(row, headers[i]))
    ensures FirstOf(row, headers).Some? ==>
              && FirstOf(row, headers).value != ""
              && exists i :: && 0 <= i < |headers| && Cell(row, headers[i]) == FirstOf(row, headers)
                             && forall j :: 0 <= j < i ==> !Truthy(Cell(row, headers[j]))
  {
    if headers != [] && !Truthy(Cell(row, headers[0])) {
      var tail := headers[1..];
      FirstOfFindsFirst(row, tail);
      assert forall i :: 1 <= i < |headers| ==> headers[i] == tail[i - 1];
      if FirstOf(row, tail).Some? {
        var k :| && 0 <= k < |tail| && Cell(row, tail[k]) == FirstOf(row, tail)
                 && forall j :: 0 <= j < k ==> !Truthy(Cell(row, tail[j]));
        assert Cell(row, headers[k + 1]) == FirstOf(row, headers);
      }
    }
  }

  /**
   * `row[a] != null ? String(row[a]) : (row[b] ? String(row[b]) : null)`: a
   * present first cell is kept even when empty; the second only when non-empty.
   */
  function PresentOr(row: SheetRow, a: string, b: string): (v: Option<string>)
    ensures a in row ==> v == Some(row[a])
    ensures a !in row ==> v == OrNull(Cell(row, b))
  {
    if a in row then Some(row[a]) else OrNull(Cell(row, b))
  }

  /** The twelve values bound into the alumni INSERT, None for SQL NULL. */
  datatype AlumniValues = AlumniValues(
    firstName: Option<string>, lastName: Option<string>, initial: Option<string>, suffix: Option<string>,
    civilStatus: Option<string>, dateBirth: Option<string>, gender: Option<string>, phoneNo: Option<string>,
    major: Option<string>, yearStarted: Option<string>, graduated: Option<string>, studentNo: Option<string>)

  /** The header names each column is looked up under, the display header first. */
  const FirstNameHeaders: seq<string> := ["First Name", "firstName"]
  const LastNameHeaders: seq<string> := ["Last Name", "lastName"]
  const InitialHeaders: seq<string> := ["Initial", "initial"]
  const SuffixHeaders: seq<string> := ["Suffix", "suffix"]
  const CivilStatusHeaders: seq<string> := ["Civil Status", "civilStatus"]
  const BirthDateHeaders: seq<string> := ["Date of Birth", "dateBirth"]
  const GenderHeaders: seq<string> := ["Gender", "gender"]
  const PhoneHeaders: seq<string> := ["Phone No.", "Phone No", "phoneNo"]
  const MajorHeaders: seq<string> := ["Major", "major"]
  const StudentNoHeaders: seq<string> := ["Student No.", "Student No", "studentNo"]

  /** The values of one row: each column under its display header or its field name. */
  function RowValues(row: SheetRow, hostParse: string -> Option<string>): AlumniValues
  {
    AlumniValues(
      FirstOf(row, FirstNameHeaders),
      FirstOf(row, LastNameHeaders),
      FirstOf(row, InitialHeaders),
      FirstOf(row, SuffixHeaders),
      FirstOf(row, CivilStatusHeaders),
      OrNull(ParseDate(FirstOf(row, BirthDateHeaders), hostParse)),
      FirstOf(row, GenderHeaders),
      FirstOf(row, PhoneHeaders),
      FirstOf(row, MajorHeaders),
      PresentOr(row, "Year Started", "yearStarted"),
      PresentOr(row, "Graduated", "graduated"),
      FirstOf(row, StudentNoHeaders))
  }

  /** The report line of a failed row: `Row ${i + 1}: ${message}`. */
  function ErrorLine(rowNumber: nat, message: string): (line: string)
    ensures StartsWith(line, "Row " + Decimal(rowNumber) + ": ")
    ensures line[|Decimal(rowNumber)| + 6..] == message
  {
    "Row " + Decimal(rowNumber) + ": " + message
  }

  /** `RowValues` with the host's date parser fixed: how the route reads each row. */
  function Reader(hostParse: string -> Option<string>): SheetRow -> AlumniValues
  {
    row => RowValues(row, hostParse)
  }

  /**
   * The first n rows' values whose insert succeeded, in order; `insert` gives
   * the driver's error message for a row it refuses, None when it accepts.
   */
  function InsertedRows(values: seq<AlumniValues>, n: nat, insert: AlumniValues -> Option<string>)
    : (r: seq<AlumniValues>)
    requires n <= |values|
    ensures |r| <= n
    ensures forall v :: v in r ==> insert(v).None?
  {
    if n == 0 then []
    else InsertedRows(values, n - 1, insert) + (if insert(values[n - 1]).None? then [values[n - 1]] else [])
  }

  /** The report lines of the first n rows whose insert failed, in order. */
  function ErrorLines(values: seq<AlumniValues>, n: nat, insert: AlumniValues -> Option<string>): (r: seq<string>)
    requires n <= |values|
    ensures |r| <= n
  {
    if n == 0 then []
    else
      var failure := insert(values[n - 1]);
      ErrorLines(values, n - 1, insert) + (if failure.Some? then [ErrorLine(n, failure.value)] else [])
  }

  /** Every row is accounted for exactly once: inserted or reported. */
  lemma {:induction false} EveryRowAccounted(values: seq<AlumniValues>, n: nat, insert: AlumniValues -> Option<string>)
    requires n <= |values|
    ensures |InsertedRows(values, n, insert)| + |ErrorLines(values, n, insert)| == n
  {
    if n > 0 {
      EveryRowAccounted(values, n - 1, insert);
    }
  }

  /** When the database accepts every row, all of them are inserted and nothing is reported. */
  lemma {:induction false} AllAccepted(values: seq<AlumniValues>, n: nat, insert: AlumniValues -> Option<string>)
    requires n <= |values|
    requires forall i :: 0 <= i < n ==> insert(values[i]).None?
    ensures InsertedRows(values, n, insert) == values[..n]
    ensures ErrorLines(values, n, insert) == []
  {
    if n > 0 {
      AllAccepted(values, n - 1, insert);
      assert values[..n] == values[..n - 1] + [values[n - 1]];
    }
  }

  /** One more row: it joins the inserted rows or adds its report line. */
  lemma ImportStep(values: seq<AlumniValues>, i: nat, insert: AlumniValues -> Option<string>)
    requires i < |values|
    ensures insert(values[i]).None? ==> && InsertedRows(values, i + 1, insert) == InsertedRows(values, i, insert) + [values[i]]
                                        && ErrorLines(values, i + 1, insert) == ErrorLines(values, i, insert)
    ensures insert(values[i]).Some? ==> && InsertedRows(values, i + 1, insert) == InsertedRows(values, i, insert)
                                        && ErrorLines(values, i + 1, insert)
                                           == ErrorLines(values, i, insert) + [ErrorLine(i + 1, insert(values[i]).value)]
  {
  }

  /**
   * The loop: counts the inserted rows and collects the report lines; `read`
   * turns a sheet row into the bound values (`Reader` in the route).
   */
  method ImportRows(rows: seq<SheetRow>, read: SheetRow -> AlumniValues, insert: AlumniValues -> Option<string>)
    returns (insertedCount: nat, errors: seq<string>, written: seq<AlumniValues>)
    ensures insertedCount + |errors| == |rows|
    ensures written == InsertedRows(Project(rows, read), |rows|, insert) && insertedCount == |written|
    ensures errors == ErrorLines(Project(rows, read), |rows|, insert)
  {
    ghost var all := Project(rows, read);
    insertedCount, errors, written := 0, [], [];
    var i := 0;
    while i < |rows|
      invariant 0 <= i <= |rows|
      invariant insertedCount + |errors| == i
      invariant written == InsertedRows(all, i, insert) && insertedCount == |written|
      invariant errors == ErrorLines(all, i, insert)
    {
      var values := read(rows[i]);
      assert values == all[i];
      ImportStep(all, i, insert);
      var failure := insert(values);
      if failure.None? {
        written := written + [values];
        insertedCount := insertedCount + 1;
      } else {
        errors := errors + [ErrorLine(i + 1, failure.value)];
      }
      i := i + 1;
    }
  }

  /** The JSON answer: `errors` is left out when no row failed. */
  datatype ImportSummary = ImportSummary(totalRows: nat, inserted: nat, errors: Option<seq<string>>)

  /**
   * The route. A file the Excel filter refuses or one over the size limit ends
   * in the default error handler (500); no file, an unreadable workbook (`sheet`
   * None) and an empty sheet are 400. Otherwise every row is tried and the
   * rows that went in are committed.
   */
  method UploadSheet(file: Option<UploadedFile>, sheet: Option<seq<SheetRow>>, hostParse: string -> Option<string>,
                     insert: AlumniValues -> Option<string>)
    returns (r: Response<ImportSummary>, committed: seq<AlumniValues>)
    ensures file.Some? && (!ExcelFilter(file.value.mimeType) || file.value.size > SheetSizeLimit) ==> r == Fail(500)
    ensures file.None? ==> r == Fail(400)
    ensures r.Fail? ==> committed == []
    ensures r.Ok? <==> && file.Some? && ExcelFilter(file.value.mimeType) && file.value.size <= SheetSizeLimit
                       && sheet.Some? && |sheet.value| > 0
    ensures r.Ok? ==> && r.body.totalRows == |sheet.value|
                      && committed == InsertedRows(Project(sheet.value, Reader(hostParse)), |sheet.value|, insert)
                      && r.body.inserted == |committed|
                      && (r.body.errors.None? <==> r.body.inserted == r.body.totalRows)
                      && (r.body.errors.Some? ==> r.body.errors.value == ErrorLines(Project(sheet.value, Reader(hostParse)), |sheet.value|, insert))
  {
    committed := [];
    if file.Some? && (!ExcelFilter(file.value.mimeType) || file.value.size > SheetSizeLimit) {
      return Fail(500), committed;
    }
    if file.None? {
      return Fail(400), committed;
    }
    if sheet.None? || |sheet.value| == 0 {
      return Fail(400), committed;
    }
    var insertedCount, errors, written := ImportRows(sheet.value, Reader(hostParse), insert);
    committed := written;
    r := Ok(ImportSummary(|sheet.value|, insertedCount, if |errors| > 0 then Some(errors) else None));
  }
}
