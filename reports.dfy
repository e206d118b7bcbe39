/**
 * Attendance reports of routes/reports.py: the request guards of `generate`,
 * the date window and the enrichment of `get_filtered_attendance_data`, the
 * CSV rows and the PDF table cells and period label. Writing the files,
 * reportlab's layout and `send_file` are not modelled; the timestamp of the
 * file name is a parameter.
 */
module Reports {
  import opened Common
  import opened DbHandler

  // ---------------------------------------------------------------------------
  // Date window
  // ---------------------------------------------------------------------------

  /**
   * The date test of `get_filtered_attendance_data`: both bounds inclusive
   * when both are given, one-sided with one, none without; dates compare as
   * strings.
   */
  predicate InWindow(date: string, dateFrom: Option<string>, dateTo: Option<string>)
  {
    if Truthy(dateFrom) && Truthy(dateTo) then LexLeq(dateFrom.value, date) && LexLeq(date, dateTo.value)
    else if Truthy(dateFrom) then LexLeq(dateFrom.value, date)
    else if Truthy(dateTo) then LexLeq(date, dateTo.value)
    else true
  }

  /** The records inside the window, in table order. */
  function DateWindow(rows: seq<AttendanceRow>, dateFrom: Option<string>, dateTo: Option<string>)
    : (r: seq<AttendanceRow>)
    ensures |r| <= |rows|
    ensures forall x :: x in r <==> x in rows && InWindow(x.date, dateFrom, dateTo)
  {
    if rows == [] then []
    else (if InWindow(rows[0].date, dateFrom, dateTo) then [rows[0]] else [])
         + DateWindow(rows[1..], dateFrom, dateTo)
  }

  /** The window judges each record on its own, so it keeps table order. */
  lemma {:induction false} DateWindowAppend(a: seq<AttendanceRow>, b: seq<AttendanceRow>,
                                            dateFrom: Option<string>, dateTo: Option<string>)
    ensures DateWindow(a + b, dateFrom, dateTo) == DateWindow(a, dateFrom, dateTo) + DateWindow(b, dateFrom, dateTo)
  {
    if a == [] {
      assert a + b == b;
    } else {
      assert (a + b)[0] == a[0] && (a + b)[1..] == a[1..] + b;
      DateWindowAppend(a[1..], b, dateFrom, dateTo);
    }
  }

  /** Without bounds every record is kept. */
  lemma {:induction false} DateWindowUnbounded(rows: seq<AttendanceRow>, dateFrom: Option<string>, dateTo: Option<string>)
    requires !Truthy(dateFrom) && !Truthy(dateTo)
    ensures DateWindow(rows, dateFrom, dateTo) == rows
  {
    if rows != [] {
      DateWindowUnbounded(rows[1..], dateFrom, dateTo);
      assert rows == [rows[0]] + rows[1..];
    }
  }

  /** A window that no record of the table falls into is empty. */
  lemma {:induction false} DateWindowNone(rows: seq<AttendanceRow>, dateFrom: Option<string>, dateTo: Option<string>)
    requires forall x :: x in rows ==> !InWindow(x.date, dateFrom, dateTo)
    ensures DateWindow(rows, dateFrom, dateTo) == []
  {
    if rows != [] {
      assert rows[0] in rows;
      assert forall x :: x in rows[1..] ==> x in rows;
      DateWindowNone(rows[1..], dateFrom, dateTo);
    }
  }

  /** A start after the end leaves nothing. */
  lemma DateWindowReversedIsEmpty(rows: seq<AttendanceRow>, dateFrom: string, dateTo: string)
    requires dateTo != "" && !LexLeq(dateFrom, dateTo)
    ensures DateWindow(rows, Some(dateFrom), Some(dateTo)) == []
  {
    forall x | x in rows ensures !InWindow(x.date, Some(dateFrom), Some(dateTo)) {
      if InWindow(x.date, Some(dateFrom), Some(dateTo)) {
        LexLeqTransitive(dateFrom, x.date, dateTo);
        assert false;
      }
    }
    DateWindowNone(rows, Some(dateFrom), Some(dateTo));
  }

  /** Adding an end bound to a start bound only narrows the window. */
  lemma DateWindowBothWithinFrom(rows: seq<AttendanceRow>, dateFrom: string, dateTo: string)
    requires dateFrom != "" && dateTo != ""
    ensures forall x :: x in DateWindow(rows, Some(dateFrom), Some(dateTo)) ==> x in DateWindow(rows, Some(dateFrom), None)
    ensures forall x :: x in DateWindow(rows, Some(dateFrom), Some(dateTo)) ==> x in DateWindow(rows, None, Some(dateTo))
  {
  }

  // ---------------------------------------------------------------------------
  // Enrichment and filters
  // ---------------------------------------------------------------------------

  /** An attendance record with the member's name, department, email and phone added. */
  datatype ReportRecord = ReportRecord(record: AttendanceRow, facultyName: string, department: string,
                                       email: string, phone: string)

  /**
   * One record through the loop of `get_filtered_attendance_data`: dropped when
   * its member is unknown, or when a non-empty faculty or department filter
   * does not match exactly; otherwise kept unchanged with the member's details.
   */
  function KeepRecord(r: AttendanceRow, faculty: seq<FacultyRow>, facultyFilter: Option<string>,
                      departmentFilter: Option<string>): (k: Option<ReportRecord>)
    ensures k.Some? <==> && HasFaculty(faculty, r.facultyId)
                         && (!Truthy(facultyFilter) || r.facultyId == facultyFilter.value)
                         && (!Truthy(departmentFilter)
                             || FindFaculty(faculty, r.facultyId).value.department == departmentFilter.value)
    ensures k.Some? ==> && k.value.record == r
                        && var f := FindFaculty(faculty, r.facultyId).value;
                           k.value == ReportRecord(r, f.name, f.department, f.email, f.phone)
  {
    match FindFaculty(faculty, r.facultyId)
    case None => None
    case Some(f) =>
      if Truthy(facultyFilter) && r.facultyId != facultyFilter.value then None
      else if Truthy(departmentFilter) && f.department != departmentFilter.value then None
      else Some(ReportRecord(r, f.name, f.department, f.email, f.phone))
  }

  /** The kept records, in input order. */
  function Enriched(rows: seq<AttendanceRow>, faculty: seq<FacultyRow>, facultyFilter: Option<string>,
                    departmentFilter: Option<string>): (r: seq<ReportRecord>)
    ensures |r| <= |rows|
  {
    if rows == [] then []
    else
      var rest := Enriched(rows[..|rows| - 1], faculty, facultyFilter, departmentFilter);
      match KeepRecord(rows[|rows| - 1], faculty, facultyFilter, departmentFilter)
      case None => rest
      case Some(e) => rest + [e]
  }

  /** An entry is reported exactly when it is the kept form of one of the records. */
  lemma {:induction false} EnrichedMembership(rows: seq<AttendanceRow>, faculty: seq<FacultyRow>,
                                              facultyFilter: Option<string>, departmentFilter: Option<string>,
                                              e: ReportRecord)
    ensures e in Enriched(rows, faculty, facultyFilter, departmentFilter) <==>
              e.record in rows && KeepRecord(e.record, faculty, facultyFilter, departmentFilter) == Some(e)
  {
    if rows != [] {
      var init := rows[..|rows| - 1];
      EnrichedMembership(init, faculty, facultyFilter, departmentFilter, e);
      assert rows == init + [rows[|rows| - 1]];
    }
  }

  /** Enrichment keeps input order: it distributes over concatenation. */
  lemma {:induction false} EnrichedAppend(a: seq<AttendanceRow>, b: seq<AttendanceRow>, faculty: seq<FacultyRow>,
                                          facultyFilter: Option<string>, departmentFilter: Option<string>)
    ensures Enriched(a + b, faculty, facultyFilter, departmentFilter)
            == Enriched(a, faculty, facultyFilter, departmentFilter) + Enriched(b, faculty, facultyFilter, departmentFilter)
  {
    if b == [] {
      assert a + b == a;
    } else {
      var init := b[..|b| - 1];
      EnrichedAppend(a, init, faculty, facultyFilter, departmentFilter);
      assert (a + b)[..|a + b| - 1] == a + init;
      assert (a + b)[|a + b| - 1] == b[|b| - 1];
    }
  }

  /** `get_filtered_attendance_data` as a value. */
  function ReportData(attendance: seq<AttendanceRow>, faculty: seq<FacultyRow>, dateFrom: Option<string>,
                      dateTo: Option<string>, facultyFilter: Option<string>, departmentFilter: Option<string>)
    : seq<ReportRecord>
  {
    Enriched(DateWindow(attendance, dateFrom, dateTo), faculty, facultyFilter, departmentFilter)
  }

  /**
   * Every reported entry is a record of the table, inside the window, of a
   * known member that passes both filters, carrying that member's details;
   * and every such record is reported.
   */
  lemma ReportDataContents(attendance: seq<AttendanceRow>, faculty: seq<FacultyRow>, dateFrom: Option<string>,
                           dateTo: Option<string>, facultyFilter: Option<string>,
                           departmentFilter: Option<string>, e: ReportRecord)
    ensures e in ReportData(attendance, faculty, dateFrom, dateTo, facultyFilter, departmentFilter) <==>
              && e.record in attendance
              && InWindow(e.record.date, dateFrom, dateTo)
              && KeepRecord(e.record, faculty, facultyFilter, departmentFilter) == Some(e)
  {
    EnrichedMembership(DateWindow(attendance, dateFrom, dateTo), faculty, facultyFilter, departmentFilter, e);
  }

  /** `get_filtered_attendance_data`: the window, then the enrichment loop. */
  method GetFilteredAttendanceData(attendance: seq<AttendanceRow>, faculty: seq<FacultyRow>,
                                   dateFrom: Option<string>, dateTo: Option<string>,
                                   facultyFilter: Option<string>, departmentFilter: Option<string>)
    returns (data: seq<ReportRecord>)
    ensures data == ReportData(attendance, faculty, dateFrom, dateTo, facultyFilter, departmentFilter)
  {
    var rows := DateWindow(attendance, dateFrom, dateTo);
    data := EnrichRecords(rows, faculty, facultyFilter, departmentFilter);
  }

  /** The loop of `get_filtered_attendance_data` over the records inside the window. */
  method EnrichRecords(rows: seq<AttendanceRow>, faculty: seq<FacultyRow>,
                       facultyFilter: Option<string>, departmentFilter: Option<string>)
    returns (data: seq<ReportRecord>)
    ensures data == Enriched(rows, faculty, facultyFilter, departmentFilter)
  {
    data := [];
    for i := 0 to |rows|
      invariant data == Enriched(rows[..i], faculty, facultyFilter, departmentFilter)
    {
      assert rows[..i + 1][..i] == rows[..i];
      var record := rows[i];
      ghost var kept := KeepRecord(record, faculty, facultyFilter, departmentFilter);
      assert Enriched(rows[..i + 1], faculty, facultyFilter, departmentFilter)
             == data + (if kept.Some? then [kept.value] else []);
      var f := FindFaculty(faculty, record.facultyId);
      if f.Some? {
        if Truthy(facultyFilter) && record.facultyId != facultyFilter.value {
          continue;
        }
        if Truthy(departmentFilter) && f.value.department != departmentFilter.value {
          continue;
        }
        data := data + [ReportRecord(record, f.value.name, f.value.department, f.value.email, f.value.phone)];
      }
    }
    assert rows[..|rows|] == rows;
  }

  // ---------------------------------------------------------------------------
  // CSV and PDF content
  // ---------------------------------------------------------------------------

  const CsvHeader: seq<string> := ["Faculty ID", "Faculty Name", "Department", "Email", "Date", "Time", "Status", "Location"]

  /** One CSV row, in the header's column order. */
  function CsvRow(e: ReportRecord): (row: seq<string>)
    ensures |row| == |CsvHeader|
  {
    [e.record.facultyId, e.facultyName, e.department, e.email, e.record.date, e.record.time, e.record.status,
     e.record.location]
  }

  /** The rows `generate_csv_report` writes: the header, then one row per entry. */
  method CsvRows(data: seq<ReportRecord>) returns (rows: seq<seq<string>>)
    ensures |rows| == |data| + 1 && rows[0] == CsvHeader
    ensures forall i :: 0 <= i < |data| ==> rows[i + 1] == CsvRow(data[i])
    ensures forall i :: 0 <= i < |rows| ==> |rows[i]| == 8
  {
    rows := [CsvHeader];
    for i := 0 to |data|
      invariant |rows| == i + 1 && rows[0] == CsvHeader
      invariant forall k :: 0 <= k < i ==> rows[k + 1] == CsvRow(data[k])
      invariant forall k :: 0 <= k < |rows| ==> |rows[k]| == 8
    {
      rows := rows + [CsvRow(data[i])];
    }
  }

  /**
   * A PDF cell: text longer than the limit is cut to the limit and marked
   * with "..."; shorter text is unchanged.
   */
  function Truncate(s: string, limit: nat): (r: string)
    ensures |s| <= limit ==> r == s
    ensures |s| > limit ==> |r| == limit + 3 && r[..limit] == s[..limit] && r[limit..] == "..."
  {
    if |s| > limit then s[..limit] + "..." else s
  }

  /** A cell never exceeds the limit by more than the marker, and always starts like the text. */
  lemma TruncateBounds(s: string, limit: nat)
    ensures |Truncate(s, limit)| <= limit + 3
    ensures var r := Truncate(s, limit); r == s || StartsWith(r, s[..limit])
  {
  }

  const PdfHeader: seq<string> := ["Faculty ID", "Name", "Department", "Date", "Time", "Status"]

  /** One PDF table row: names cut at 20 characters, departments at 15. */
  function PdfRow(e: ReportRecord): (row: seq<string>)
    ensures |row| == |PdfHeader|
  {
    [e.record.facultyId, Truncate(e.facultyName, 20), Truncate(e.department, 15), e.record.date, e.record.time,
     e.record.status]
  }

  /** The table data of `generate_pdf_report`: the header, then one row per entry. */
  method PdfRows(data: seq<ReportRecord>) returns (rows: seq<seq<string>>)
    ensures |rows| == |data| + 1 && rows[0] == PdfHeader
    ensures forall i :: 0 <= i < |data| ==> rows[i + 1] == PdfRow(data[i])
  {
    rows := [PdfHeader];
    for i := 0 to |data|
      invariant |rows| == i + 1 && rows[0] == PdfHeader
      invariant forall k :: 0 <= k < i ==> rows[k + 1] == PdfRow(data[k])
    {
      rows := rows + [PdfRow(data[i])];
    }
  }

  /** The period line of the PDF. */
  function DateRangeLabel(dateFrom: Option<string>, dateTo: Option<string>): string
  {
    if Truthy(dateFrom) && Truthy(dateTo) then "Period: " + dateFrom.value + " to " + dateTo.value
    else if Truthy(dateFrom) then "From: " + dateFrom.value
    else if Truthy(dateTo) then "Until: " + dateTo.value
    else "All Records"
  }

  /**
   * The period names the bounds the window used: the start right after its
   * prefix, the end at the very end, and "All Records" exactly when the
   * window keeps everything.
   */
  lemma DateRangeLabelMatchesWindow(dateFrom: Option<string>, dateTo: Option<string>)
    ensures var period := DateRangeLabel(dateFrom, dateTo);
            && (Truthy(dateFrom) && Truthy(dateTo) ==> OccursAt(period, dateFrom.value, 8))
            && (Truthy(dateFrom) && !Truthy(dateTo) ==> OccursAt(period, dateFrom.value, 6))
            && (Truthy(dateTo) ==> OccursAt(period, dateTo.value, |period| - |dateTo.value|))
            && (period == "All Records" <==> !Truthy(dateFrom) && !Truthy(dateTo))
  {
    var period := DateRangeLabel(dateFrom, dateTo);
    if Truthy(dateFrom) && Truthy(dateTo) {
      assert period[8..8 + |dateFrom.value|] == dateFrom.value;
      assert period[..8] == "Period: " && period[0] != "All Records"[0];
    } else if Truthy(dateFrom) {
      assert period[..6] == "From: " && period[0] != "All Records"[0];
    } else if Truthy(dateTo) {
      assert period[..7] == "Until: " && period[0] != "All Records"[0];
    }
  }

  // ---------------------------------------------------------------------------
  // generate
  // ---------------------------------------------------------------------------

  /** The report form. */
  datatype ReportForm = ReportForm(reportType: Option<string>, formatType: Option<string>,
                                   dateFrom: Option<string>, dateTo: Option<string>,
                                   facultyFilter: Option<string>, departmentFilter: Option<string>)

  /**
   * What `generate` decides: one of three refusals it flashes before
   * redirecting, or a file with its name and table rows.
   */
  datatype GenerateOutcome =
    | SelectionRequired
    | NoData
    | InvalidFormat
    | CsvFile(filename: string, rows: seq<seq<string>>)
    | PdfFile(filename: string, period: string, total: nat, rows: seq<seq<string>>)

  function ReportFilename(reportType: string, timestamp: string, formatType: string): string
  {
    reportType + "_" + timestamp + "." + formatType
  }

  /** The endpoints the reports blueprint registers, with their URLs. */
  const ReportsEndpoints: map<string, string> :=
    map["reports.reports_home" := "/reports/", "reports.view" := "/reports/view",
        "reports.generate" := "/reports/generate"]

  /** As written, `generate` redirects its refusals to `reports.export`. */
  const ExportEndpoint := "reports.export"

  /** Corrected: the export form is the page `reports_home` renders. */
  const CorrectedExportEndpoint := "reports.reports_home"

  /** The HTTP reply of `generate` for an outcome, refusals redirecting to `target`. */
  function GenerateReply(o: GenerateOutcome, target: string): HttpReply
  {
    if o.CsvFile? || o.PdfFile? then SendFile(o.filename) else RedirectTo(target, ReportsEndpoints)
  }

  /** As written, every refusal ends in a 500 reply instead of returning to the export form. */
  lemma GenerateRefusalIsServerError(o: GenerateOutcome)
    requires o == SelectionRequired || o == NoData || o == InvalidFormat
    ensures GenerateReply(o, ExportEndpoint) == ServerError
  {
  }

  /** Corrected, no outcome is a 500: a refusal returns to the export form, a report is sent as its file. */
  lemma CorrectedGenerateReply(o: GenerateOutcome)
    ensures GenerateReply(o, CorrectedExportEndpoint) != ServerError
    ensures o.CsvFile? || o.PdfFile? ==> GenerateReply(o, CorrectedExportEndpoint) == SendFile(o.filename)
    ensures !(o.CsvFile? || o.PdfFile?) ==> GenerateReply(o, CorrectedExportEndpoint) == Redirect("/reports/")
  {
  }

  /**
   * `generate`: a missing report or format type is refused first; then an
   * empty result; only then an unknown format. The file carries one row per
   * reported entry under the header. As written, the redirect of a refusal
   * cannot be built, so every refusal is answered with a 500 error.
   */
  method Generate(attendance: seq<AttendanceRow>, faculty: seq<FacultyRow>, form: ReportForm, timestamp: string)
    returns (o: GenerateOutcome, reply: HttpReply)
    ensures !(Truthy(form.reportType) && Truthy(form.formatType)) <==> o == SelectionRequired
    ensures var data := ReportData(attendance, faculty, form.dateFrom, form.dateTo, form.facultyFilter,
                                   form.departmentFilter);
            && (o == NoData <==> Truthy(form.reportType) && Truthy(form.formatType) && data == [])
            && (o.CsvFile? <==> Truthy(form.reportType) && form.formatType == Some("csv") && data != [])
            && (o.PdfFile? <==> Truthy(form.reportType) && form.formatType == Some("pdf") && data != [])
            && (o.CsvFile? ==> |o.rows| == |data| + 1
                               && forall i :: 0 <= i < |data| ==> o.rows[i + 1] == CsvRow(data[i]))
            && (o.PdfFile? ==> o.total == |data| && |o.rows| == |data| + 1
                               && o.period == DateRangeLabel(form.dateFrom, form.dateTo)
                               && forall i :: 0 <= i < |data| ==> o.rows[i + 1] == PdfRow(data[i]))
    ensures o.CsvFile? || o.PdfFile? ==>
              o.filename == ReportFilename(form.reportType.value, timestamp, form.formatType.value)
    ensures reply == GenerateReply(o, ExportEndpoint)
    ensures reply == ServerError <==> !(o.CsvFile? || o.PdfFile?)
  {
    if !(Truthy(form.reportType) && Truthy(form.formatType)) {
      o := SelectionRequired;
    } else {
      var data := GetFilteredAttendanceData(attendance, faculty, form.dateFrom, form.dateTo, form.facultyFilter,
                                            form.departmentFilter);
      if data == [] {
        o := NoData;
      } else {
        var filename := ReportFilename(form.reportType.value, timestamp, form.formatType.value);
        if form.formatType.value == "csv" {
          var rows := CsvRows(data);
          o := CsvFile(filename, rows);
        } else if form.formatType.value == "pdf" {
          var rows := PdfRows(data);
          o := PdfFile(filename, DateRangeLabel(form.dateFrom, form.dateTo), |data|, rows);
        } else {
          o := InvalidFormat;
        }
      }
    }
    reply := GenerateReply(o, ExportEndpoint);
  }
}
