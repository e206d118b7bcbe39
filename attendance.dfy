/**
 * The attendance routes of routes/attendance.py: marking a faculty member
 * present from a captured photo (`capture`, with an optional claimed id, and
 * `mark`, where the id is required), the filtered and enriched log, and the
 * summary of today.
 */
module Attendance {
  import opened Common
  import opened FaceUtils
  import opened DbHandler
  import opened FaceRecognition

  /** How a marking request ends. */
  datatype Outcome =
    | MissingInput
    | NoFaceRecognized
    | NotMatched
    | AlreadyMarked
    | UnknownFaculty
    | Marked(facultyId: string, facultyName: string, time: string, location: string)

  /** The `success` flag of the JSON answer. */
  predicate Succeeded(o: Outcome)
  {
    o.AlreadyMarked? || o.Marked?
  }

  /** HTTP status of `capture`. */
  function CaptureStatus(o: Outcome): nat
  {
    match o
    case MissingInput => 400
    case NoFaceRecognized => 404
    case NotMatched => 403
    case AlreadyMarked => 200
    case UnknownFaculty => 404
    case Marked(_, _, _, _) => 200
  }

  /** HTTP status of `mark`: every refusal before the lookup is a 400. */
  function MarkStatus(o: Outcome): nat
  {
    match o
    case MissingInput => 400
    case NoFaceRecognized => 400
    case NotMatched => 400
    case AlreadyMarked => 200
    case UnknownFaculty => 404
    case Marked(_, _, _, _) => 200
  }

  /**
   * The id `capture` settles on: the claimed id when it was recognised; with
   * no claim, the only recognised id; otherwise none.
   */
  function MatchClaim(claim: Option<string>, recognized: seq<string>): (m: Option<string>)
    ensures Truthy(claim) ==> (m.Some? <==> claim.value in recognized) && (m.Some? ==> m.value == claim.value)
    ensures !Truthy(claim) ==> (m.Some? <==> |recognized| == 1) && (m.Some? ==> m.value == recognized[0])
  {
    if Truthy(claim) && claim.value in recognized then claim
    else if !Truthy(claim) && |recognized| == 1 then Some(recognized[0])
    else None
  }

  /** The ids with a record on the given day, as the routes snapshot them. */
  function MarkedOn(attendance: seq<AttendanceRow>, day: string): set<string>
  {
    PresentIds(OnDate(attendance, day))
  }

  /** The record a successful request inserts. */
  function NewRecord(o: Outcome, day: string): AttendanceData
    requires o.Marked?
  {
    AttendanceData(o.facultyId, day, o.time, o.location, "Present", None)
  }

  /** The answer `capture` gives for a request against the given tables. */
  function CaptureOutcome(faculty: seq<FacultyRow>, attendance: seq<AttendanceRow>, upload: Option<Upload>,
                          location: Option<string>, claim: Option<string>, backend: Backend, sim: Similarity,
                          day: string, time: string): Outcome
  {
    if NoFile(upload) then MissingInput
    else
      var recognized := Recognized(upload, backend, faculty, sim);
      if recognized == [] then NoFaceRecognized
      else
        var m := MatchClaim(claim, recognized);
        if m.None? || m.value == "" then NotMatched
        else if m.value in MarkedOn(attendance, day) then AlreadyMarked
        else match FindFaculty(faculty, m.value)
          case None => UnknownFaculty
          case Some(row) => Marked(m.value, row.name, time, FormOr(location, "Unknown"))
  }

  /** The answer `mark` gives: the claimed id is required and must be among the recognised ones. */
  function MarkOutcome(faculty: seq<FacultyRow>, attendance: seq<AttendanceRow>, upload: Option<Upload>,
                       location: Option<string>, claim: Option<string>, backend: Backend, sim: Similarity,
                       day: string, time: string): Outcome
  {
    if NoFile(upload) || !Truthy(claim) then MissingInput
    else
      var recognized := Recognized(upload, backend, faculty, sim);
      if recognized == [] then NoFaceRecognized
      else if claim.value !in recognized then NotMatched
      else if claim.value in MarkedOn(attendance, day) then AlreadyMarked
      else match FindFaculty(faculty, claim.value)
        case None => UnknownFaculty
        case Some(row) => Marked(claim.value, row.name, time, FormOr(location, "Unknown"))
  }

  /** At most one record per faculty member and day. */
  ghost predicate OncePerDay(rows: seq<AttendanceRow>)
  {
    forall i, j :: 0 <= i < j < |rows| ==> rows[i].facultyId != rows[j].facultyId || rows[i].date != rows[j].date
  }

  /** Appending a record for an id not yet marked that day keeps one record per day. */
  lemma AppendKeepsOncePerDay(rows: seq<AttendanceRow>, r: AttendanceRow)
    requires OncePerDay(rows)
    requires r.facultyId !in MarkedOn(rows, r.date)
    ensures OncePerDay(rows + [r])
  {
    var all := rows + [r];
    forall i, j | 0 <= i < j < |all| ensures all[i].facultyId != all[j].facultyId || all[i].date != all[j].date {
      if j == |rows| && all[i].date == r.date {
        assert all[i] in OnDate(rows, r.date);
        var t := OnDate(rows, r.date);
        var k :| 0 <= k < |t| && t[k] == all[i];
      }
    }
  }

  /**
   * `capture`: recognise the photo against the faculty table, settle on one
   * id, and insert a Present record unless that id already has one today.
   */
  method Capture(store: Store, upload: Option<Upload>, location: Option<string>, claim: Option<string>,
                 backend: Backend, sim: Similarity, day: string, time: string, now: string)
    returns (o: Outcome)
    requires store.Valid()
    modifies store
    ensures store.Valid()
    ensures o == CaptureOutcome(old(store.faculty), old(store.attendance), upload, location, claim, backend, sim, day, time)
    ensures store.faculty == old(store.faculty) && store.alerts == old(store.alerts)
    ensures store.admins == old(store.admins) && store.chatQueries == old(store.chatQueries)
    ensures !o.Marked? ==> store.attendance == old(store.attendance)
    ensures o.Marked? ==> store.attendance == old(store.attendance) + [AttendanceRow(old(store.nextAttendanceId),
              o.facultyId, day, time, o.location, "Present", now)]
    ensures OncePerDay(old(store.attendance)) ==> OncePerDay(store.attendance)
  {
    if NoFile(upload) {
      return MissingInput;
    }
    var existing := MarkedOn(store.attendance, day);
    var recognized := RecognizeFaces(upload, backend, store.faculty, sim);
    if recognized == [] {
      return NoFaceRecognized;
    }
    var m := MatchClaim(claim, recognized);
    if m.None? || m.value == "" {
      return NotMatched;
    }
    if m.value in existing {
      return AlreadyMarked;
    }
    var row := store.GetFacultyById(m.value);
    if row.None? {
      return UnknownFaculty;
    }
    o := Marked(m.value, row.value.name, time, FormOr(location, "Unknown"));
    ghost var before := store.attendance;
    var _ := store.CreateAttendance(NewRecord(o, day), now);
    if OncePerDay(before) {
      AppendKeepsOncePerDay(before, store.attendance[|before|]);
    }
  }

  /** `mark`: like `capture`, but the faculty id is required and must be recognised in the photo. */
  method Mark(store: Store, upload: Option<Upload>, location: Option<string>, claim: Option<string>,
              backend: Backend, sim: Similarity, day: string, time: string, now: string)
    returns (o: Outcome)
    requires store.Valid()
    modifies store
    ensures store.Valid()
    ensures o == MarkOutcome(old(store.faculty), old(store.attendance), upload, location, claim, backend, sim, day, time)
    ensures store.faculty == old(store.faculty) && store.alerts == old(store.alerts)
    ensures store.admins == old(store.admins) && store.chatQueries == old(store.chatQueries)
    ensures !o.Marked? ==> store.attendance == old(store.attendance)
    ensures o.Marked? ==> store.attendance == old(store.attendance) + [AttendanceRow(old(store.nextAttendanceId),
              o.facultyId, day, time, o.location, "Present", now)]
    ensures OncePerDay(old(store.attendance)) ==> OncePerDay(store.attendance)
  {
    if NoFile(upload) || !Truthy(claim) {
      return MissingInput;
    }
    var recognized := RecognizeFaces(upload, backend, store.faculty, sim);
    if recognized == [] {
      return NoFaceRecognized;
    }
    if claim.value !in recognized {
      return NotMatched;
    }
    var existing := MarkedOn(store.attendance, day);
    if claim.value in existing {
      return AlreadyMarked;
    }
    var row := store.GetFacultyById(claim.value);
    if row.None? {
      return UnknownFaculty;
    }
    o := Marked(claim.value, row.value.name, time, FormOr(location, "Unknown"));
    ghost var before := store.attendance;
    var _ := store.CreateAttendance(NewRecord(o, day), now);
    if OncePerDay(before) {
      AppendKeepsOncePerDay(before, store.attendance[|before|]);
    }
  }

  /**
   * A successful `capture` marks an enrolled member whose photo was
   * recognised and who had no record that day; a claimed id is never
   * swapped for another one.
   */
  lemma CaptureMarksRecognized(faculty: seq<FacultyRow>, attendance: seq<AttendanceRow>, upload: Option<Upload>,
                               location: Option<string>, claim: Option<string>, backend: Backend, sim: Similarity,
                               day: string, time: string)
    requires CaptureOutcome(faculty, attendance, upload, location, claim, backend, sim, day, time).Marked?
    ensures var o := CaptureOutcome(faculty, attendance, upload, location, claim, backend, sim, day, time);
            && o.facultyId in Recognized(upload, backend, faculty, sim)
            && o.facultyId !in MarkedOn(attendance, day)
            && FindFaculty(faculty, o.facultyId).Some?
            && FindFaculty(faculty, o.facultyId).value.name == o.facultyName
            && (Truthy(claim) ==> o.facultyId == claim.value)
            && (!Truthy(claim) ==> |Recognized(upload, backend, faculty, sim)| == 1)
  {
  }

  /** Without a claim, a photo in which several members are recognised is refused with 403. */
  lemma CaptureRefusesAmbiguousPhoto(faculty: seq<FacultyRow>, attendance: seq<AttendanceRow>, upload: Option<Upload>,
                                     location: Option<string>, claim: Option<string>, backend: Backend, sim: Similarity,
                                     day: string, time: string)
    requires !NoFile(upload) && !Truthy(claim) && |Recognized(upload, backend, faculty, sim)| >= 2
    ensures CaptureOutcome(faculty, attendance, upload, location, claim, backend, sim, day, time) == NotMatched
    ensures CaptureStatus(NotMatched) == 403
  {
  }

  /**
   * The 404 'Faculty not found' answer of `capture` cannot happen: every
   * recognised id comes from the same faculty table.
   */
  lemma CaptureNeverUnknownFaculty(faculty: seq<FacultyRow>, attendance: seq<AttendanceRow>, upload: Option<Upload>,
                                   location: Option<string>, claim: Option<string>, backend: Backend, sim: Similarity,
                                   day: string, time: string)
    ensures CaptureOutcome(faculty, attendance, upload, location, claim, backend, sim, day, time) != UnknownFaculty
  {
    if !NoFile(upload) {
      var recognized := Recognized(upload, backend, faculty, sim);
      var m := MatchClaim(claim, recognized);
      if recognized != [] && m.Some? {
        assert m.value in recognized;
        RecognizedAreEnrolled(upload, backend, faculty, sim, m.value);
      }
    }
  }

  /** The same holds for `mark`: its 404 'Invalid Faculty ID' is unreachable. */
  lemma MarkNeverUnknownFaculty(faculty: seq<FacultyRow>, attendance: seq<AttendanceRow>, upload: Option<Upload>,
                                location: Option<string>, claim: Option<string>, backend: Backend, sim: Similarity,
                                day: string, time: string)
    ensures MarkOutcome(faculty, attendance, upload, location, claim, backend, sim, day, time) != UnknownFaculty
  {
    if !NoFile(upload) && Truthy(claim) && claim.value in Recognized(upload, backend, faculty, sim) {
      RecognizedAreEnrolled(upload, backend, faculty, sim, claim.value);
    }
  }

  /** `mark` only ever marks the id it was given, and only when the photo shows that member. */
  lemma MarkMarksClaimed(faculty: seq<FacultyRow>, attendance: seq<AttendanceRow>, upload: Option<Upload>,
                         location: Option<string>, claim: Option<string>, backend: Backend, sim: Similarity,
                         day: string, time: string)
    requires MarkOutcome(faculty, attendance, upload, location, claim, backend, sim, day, time).Marked?
    ensures var o := MarkOutcome(faculty, attendance, upload, location, claim, backend, sim, day, time);
            && claim == Some(o.facultyId) && o.facultyId != ""
            && o.facultyId in Recognized(upload, backend, faculty, sim)
            && o.facultyId !in MarkedOn(attendance, day)
            && o.location == FormOr(location, "Unknown")
  {
  }

  // ---------------------------------------------------------------------------
  // Logs and today's summary
  // ---------------------------------------------------------------------------

  /** A record with the member's name and department added. */
  datatype LogEntry = LogEntry(record: AttendanceRow, facultyName: string, department: string)

  /** The sort key `f"{date} {time}"`. */
  function LogKey(e: LogEntry): string
  {
    e.record.date + " " + e.record.time
  }

  /** A record passes the date, faculty and status filters that were given (non-empty). */
  predicate PassesFilters(r: AttendanceRow, date: Option<string>, facultyId: Option<string>, status: Option<string>)
  {
    && (Truthy(date) ==> r.date == date.value)
    && (Truthy(facultyId) ==> r.facultyId == facultyId.value)
    && (Truthy(status) ==> r.status == status.value)
  }

  /** The records that pass the filters, in table order. */
  function Filtered(rows: seq<AttendanceRow>, date: Option<string>, facultyId: Option<string>, status: Option<string>)
    : (r: seq<AttendanceRow>)
    ensures forall x :: x in r <==> x in rows && PassesFilters(x, date, facultyId, status)
  {
    if rows == [] then []
    else
      (if PassesFilters(rows[0], date, facultyId, status) then [rows[0]] else [])
        + Filtered(rows[1..], date, facultyId, status)
  }

  /** Records of members no longer in the faculty table are dropped. */
  function Enrich(rows: seq<AttendanceRow>, faculty: seq<FacultyRow>): (r: seq<LogEntry>)
    ensures forall e :: e in r <==> e.record in rows && FindFaculty(faculty, e.record.facultyId).Some?
                                     && e.facultyName == FindFaculty(faculty, e.record.facultyId).value.name
                                     && e.department == FindFaculty(faculty, e.record.facultyId).value.department
  {
    if rows == [] then []
    else
      var f := FindFaculty(faculty, rows[0].facultyId);
      (if f.Some? then [LogEntry(rows[0], f.value.name, f.value.department)] else []) + Enrich(rows[1..], faculty)
  }

  /** The entries `logs` renders: filtered, enriched, newest first. */
  function Logs(attendance: seq<AttendanceRow>, faculty: seq<FacultyRow>, date: Option<string>,
                facultyId: Option<string>, status: Option<string>): seq<LogEntry>
  {
    SortDesc(Enrich(Filtered(attendance, date, facultyId, status), faculty), LogKey)
  }

  /**
   * The log lists exactly the records that pass the filters and belong to a
   * known member, each with that member's name and department, newest first.
   */
  lemma LogsContents(attendance: seq<AttendanceRow>, faculty: seq<FacultyRow>, date: Option<string>,
                     facultyId: Option<string>, status: Option<string>)
    ensures var logs := Logs(attendance, faculty, date, facultyId, status);
            && SortedDesc(logs, LogKey)
            && forall e :: e in logs <==>
                 && e.record in attendance && PassesFilters(e.record, date, facultyId, status)
                 && FindFaculty(faculty, e.record.facultyId).Some?
                 && e.facultyName == FindFaculty(faculty, e.record.facultyId).value.name
                 && e.department == FindFaculty(faculty, e.record.facultyId).value.department
  {
    var enriched := Enrich(Filtered(attendance, date, facultyId, status), faculty);
    SortDescSorted(enriched, LogKey);
    forall e ensures e in Logs(attendance, faculty, date, facultyId, status) <==> e in enriched {
      assert multiset(Logs(attendance, faculty, date, facultyId, status)) == multiset(enriched);
      assert e in multiset(enriched) <==> e in enriched;
    }
  }

  /** The figures of `api_today_summary`. */
  datatype Summary = Summary(totalFaculty: nat, present: nat, absent: int, date: string)

  function TodaySummary(store: Store, today: string): (s: Summary)
    reads store
    ensures s.totalFaculty - s.present == s.absent
    ensures (s.totalFaculty, s.present, s.absent) == store.GetAttendanceStats(today)
  {
    var records := store.GetAttendanceByDate(today);
    Summary(|store.faculty|, |records|, |store.faculty| - |records|, today)
  }
}
