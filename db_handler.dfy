/**
 * The SQLite tables of utils/db_handler.py as an in-memory store. Each table
 * is a sequence in insertion (rowid) order, which is the order `SELECT *`
 * lists it in; primary keys become uniqueness invariants and the booleans
 * the source derives from `cursor.rowcount` become explicit results.
 */
module DbHandler {
  import opened Common

  /** A row of the `faculty` table; an empty blob stands for NULL or b''. */
  datatype FacultyRow = FacultyRow(
    facultyId: string, name: string, department: string, email: string, phone: string,
    passwordHash: string, faceEmbedding: seq<byte>, registeredOn: string)

  /** A row of the `attendance` table; `id` is the AUTOINCREMENT key. */
  datatype AttendanceRow = AttendanceRow(
    id: nat, facultyId: string, date: string, time: string, location: string,
    status: string, recordedOn: string)

  /** The dictionary the routes pass to `create_attendance`. */
  datatype AttendanceData = AttendanceData(
    facultyId: string, date: string, time: string, location: string, status: string,
    recordedOn: Option<string>)

  datatype AdminRow = AdminRow(adminId: string, username: string, passwordHash: string, email: string)

  /** A row of the `absentee_alerts` table. */
  datatype AlertRow = AlertRow(
    alertId: string, facultyId: string, date: string, message: string, status: string,
    sentTime: string)

  /**
   * A row of `get_absentee_alerts`: the join selects the faculty name as
   * `faculty`, department, phone and the alert's date, status and sent time.
   * `facultyId` is None because the query does not select that column.
   */
  datatype AlertView = AlertView(
    faculty: string, department: string, phone: string, date: string, status: string,
    sentTime: string, facultyId: Option<string>)

  /** A row of `chatbot_queries`. */
  datatype ChatQuery = ChatQuery(id: string, question: string, response: string, timestamp: string)

  /** One `key: value` entry of the dictionary handed to `update_faculty`. */
  datatype Update =
    | SetName(name: string)
    | SetDepartment(department: string)
    | SetEmail(email: string)
    | SetPhone(phone: string)
    | SetPasswordHash(passwordHash: string)
    | SetFaceEmbedding(blob: seq<byte>)
    | SetRegisteredOn(registeredOn: string)

  /** A statement parameter. */
  datatype Param = Text(text: string) | Blob(bytes: seq<byte>)

  /** The columns of the faculty table. */
  datatype Col = FacultyIdCol | NameCol | DepartmentCol | EmailCol | PhoneCol | PasswordHashCol
               | FaceEmbeddingCol | RegisteredOnCol

  /** The column's name in SQL text. */
  function ColName(c: Col): string
  {
    match c
    case FacultyIdCol => "faculty_id"
    case NameCol => "name"
    case DepartmentCol => "department"
    case EmailCol => "email"
    case PhoneCol => "phone"
    case PasswordHashCol => "password_hash"
    case FaceEmbeddingCol => "face_embedding"
    case RegisteredOnCol => "registered_on"
  }

  /** The column an update entry names. */
  function Key(u: Update): Col
  {
    match u
    case SetName(_) => NameCol
    case SetDepartment(_) => DepartmentCol
    case SetEmail(_) => EmailCol
    case SetPhone(_) => PhoneCol
    case SetPasswordHash(_) => PasswordHashCol
    case SetFaceEmbedding(_) => FaceEmbeddingCol
    case SetRegisteredOn(_) => RegisteredOnCol
  }

  function ParamOf(u: Update): Param
  {
    match u
    case SetName(v) => Text(v)
    case SetDepartment(v) => Text(v)
    case SetEmail(v) => Text(v)
    case SetPhone(v) => Text(v)
    case SetPasswordHash(v) => Text(v)
    case SetFaceEmbedding(b) => Blob(b)
    case SetRegisteredOn(v) => Text(v)
  }

  /** The `key = ?` part of the SET clause for one entry. */
  function Assignment(u: Update): string
  {
    ColName(Key(u)) + " = ?"
  }

  /** A Python dict cannot hold a key twice. */
  predicate DistinctKeys(updates: seq<Update>)
  {
    forall i, j :: 0 <= i < j < |updates| ==> Key(updates[i]) != Key(updates[j])
  }

  function ApplyUpdate(row: FacultyRow, u: Update): FacultyRow
  {
    match u
    case SetName(v) => row.(name := v)
    case SetDepartment(v) => row.(department := v)
    case SetEmail(v) => row.(email := v)
    case SetPhone(v) => row.(phone := v)
    case SetPasswordHash(v) => row.(passwordHash := v)
    case SetFaceEmbedding(b) => row.(faceEmbedding := b)
    case SetRegisteredOn(v) => row.(registeredOn := v)
  }

  /** The row after `SET k1 = v1, k2 = v2, ...`; the key is never changed. */
  function ApplyUpdates(row: FacultyRow, updates: seq<Update>): (r: FacultyRow)
    ensures r.facultyId == row.facultyId
    decreases |updates|
  {
    if updates == [] then row else ApplyUpdates(ApplyUpdate(row, updates[0]), updates[1..])
  }

  /** The value a row holds in a column. */
  function Column(row: FacultyRow, c: Col): Param
  {
    match c
    case FacultyIdCol => Text(row.facultyId)
    case NameCol => Text(row.name)
    case DepartmentCol => Text(row.department)
    case EmailCol => Text(row.email)
    case PhoneCol => Text(row.phone)
    case PasswordHashCol => Text(row.passwordHash)
    case FaceEmbeddingCol => Blob(row.faceEmbedding)
    case RegisteredOnCol => Text(row.registeredOn)
  }

  /** One entry writes its own column and keeps every other one. */
  lemma ApplyUpdateColumn(row: FacultyRow, u: Update, key: Col)
    ensures Column(ApplyUpdate(row, u), key) == if key == Key(u) then ParamOf(u) else Column(row, key)
  {
  }

  /** A column no entry names keeps its value. */
  lemma {:induction false} ApplyUpdatesKeeps(row: FacultyRow, updates: seq<Update>, key: Col)
    requires forall i :: 0 <= i < |updates| ==> Key(updates[i]) != key
    ensures Column(ApplyUpdates(row, updates), key) == Column(row, key)
    decreases |updates|
  {
    if updates != [] {
      ApplyUpdateColumn(row, updates[0], key);
      ApplyUpdatesKeeps(ApplyUpdate(row, updates[0]), updates[1..], key);
    }
  }

  /** With distinct keys, each entry's value is what its column holds afterwards. */
  lemma {:induction false} ApplyUpdatesSets(row: FacultyRow, updates: seq<Update>, k: nat)
    requires DistinctKeys(updates) && k < |updates|
    ensures Column(ApplyUpdates(row, updates), Key(updates[k])) == ParamOf(updates[k])
    decreases |updates|
  {
    var next := ApplyUpdate(row, updates[0]);
    ApplyUpdateColumn(row, updates[0], Key(updates[k]));
    if k == 0 {
      ApplyUpdatesKeeps(next, updates[1..], Key(updates[0]));
    } else {
      ApplyUpdatesSets(next, updates[1..], k - 1);
    }
  }

  // ---------------------------------------------------------------------------
  // Pure views of the tables
  // ---------------------------------------------------------------------------

  /** The PRIMARY KEY on faculty_id. */
  ghost predicate UniqueFacultyIds(rows: seq<FacultyRow>)
  {
    forall i, j :: 0 <= i < j < |rows| ==> rows[i].facultyId != rows[j].facultyId
  }

  predicate HasFaculty(rows: seq<FacultyRow>, id: string)
  {
    exists k :: 0 <= k < |rows| && rows[k].facultyId == id
  }

  /** `SELECT * FROM faculty WHERE faculty_id = ?` then `fetchone()`. */
  function FindFaculty(rows: seq<FacultyRow>, id: string): (r: Option<FacultyRow>)
    ensures r.None? <==> !HasFaculty(rows, id)
    ensures r.Some? ==> r.value in rows && r.value.facultyId == id
  {
    if rows == [] then None
    else if rows[0].facultyId == id then Some(rows[0])
    else
      var r := FindFaculty(rows[1..], id);
      assert HasFaculty(rows[1..], id) ==> HasFaculty(rows, id) by {
        if HasFaculty(rows[1..], id) {
          var k :| 0 <= k < |rows[1..]| && rows[1..][k].facultyId == id;
          assert rows[k + 1].facultyId == id;
        }
      }
      assert HasFaculty(rows, id) ==> HasFaculty(rows[1..], id) by {
        if HasFaculty(rows, id) {
          var k :| 0 <= k < |rows| && rows[k].facultyId == id;
          assert rows[1..][k - 1].facultyId == id;
        }
      }
      r
  }

  /** The rows left by `DELETE FROM faculty WHERE faculty_id = ?`, in order. */
  function RemoveFaculty(rows: seq<FacultyRow>, id: string): (r: seq<FacultyRow>)
    ensures forall row :: row in r <==> row in rows && row.facultyId != id
    ensures |r| <= |rows|
  {
    if rows == [] then []
    else if rows[0].facultyId == id then RemoveFaculty(rows[1..], id)
    else [rows[0]] + RemoveFaculty(rows[1..], id)
  }

  /** With unique keys, deleting an existing id removes exactly one row. */
  lemma {:induction false} RemoveFacultyCount(rows: seq<FacultyRow>, id: string)
    requires UniqueFacultyIds(rows)
    ensures |RemoveFaculty(rows, id)| == |rows| - (if HasFaculty(rows, id) then 1 else 0)
  {
    if rows != [] {
      RemoveFacultyCount(rows[1..], id);
      if rows[0].facultyId == id {
        forall k | 0 <= k < |rows[1..]| ensures rows[1..][k].facultyId != id {
          assert rows[1..][k] == rows[k + 1];
        }
        assert RemoveFaculty(rows[1..], id) == rows[1..] by {
          NoMatchKeepsAll(rows[1..], id);
        }
      } else {
        assert HasFaculty(rows, id) <==> HasFaculty(rows[1..], id) by {
          if HasFaculty(rows, id) {
            var k :| 0 <= k < |rows| && rows[k].facultyId == id;
            assert rows[1..][k - 1].facultyId == id;
          }
          if HasFaculty(rows[1..], id) {
            var k :| 0 <= k < |rows[1..]| && rows[1..][k].facultyId == id;
            assert rows[k + 1].facultyId == id;
          }
        }
      }
    }
  }

  lemma {:induction false} NoMatchKeepsAll(rows: seq<FacultyRow>, id: string)
    requires !HasFaculty(rows, id)
    ensures RemoveFaculty(rows, id) == rows
  {
    if rows != [] {
      assert rows[0].facultyId != id;
      forall k | 0 <= k < |rows[1..]| ensures rows[1..][k].facultyId != id {
        assert rows[1..][k] == rows[k + 1];
      }
      NoMatchKeepsAll(rows[1..], id);
    }
  }

  /** `UPDATE faculty SET ... WHERE faculty_id = ?` on the table. */
  function UpdateRows(rows: seq<FacultyRow>, id: string, updates: seq<Update>): (r: seq<FacultyRow>)
    ensures |r| == |rows|
    ensures forall k :: 0 <= k < |rows| ==>
              r[k] == if rows[k].facultyId == id then ApplyUpdates(rows[k], updates) else rows[k]
  {
    seq(|rows|, k requires 0 <= k < |rows| =>
      if rows[k].facultyId == id then ApplyUpdates(rows[k], updates) else rows[k])
  }

  /** `SELECT * FROM attendance WHERE date = ?`: the records of that date, in table order. */
  function OnDate(rows: seq<AttendanceRow>, date: string): (r: seq<AttendanceRow>)
    ensures |r| <= |rows|
    ensures forall rec :: rec in r <==> rec in rows && rec.date == date
  {
    if rows == [] then []
    else if rows[0].date == date then [rows[0]] + OnDate(rows[1..], date)
    else OnDate(rows[1..], date)
  }

  /** OnDate distributes over concatenation: each record is judged on its own. */
  lemma {:induction false} OnDateAppend(a: seq<AttendanceRow>, b: seq<AttendanceRow>, date: string)
    ensures OnDate(a + b, date) == OnDate(a, date) + OnDate(b, date)
  {
    if a != [] {
      assert (a + b)[0] == a[0] && (a + b)[1..] == a[1..] + b;
      OnDateAppend(a[1..], b, date);
      if a[0].date == date {
        assert OnDate(a, date) == [a[0]] + OnDate(a[1..], date);
      }
    } else {
      assert a + b == b;
    }
  }

  /** The faculty ids that have a record among the given rows. */
  function PresentIds(rows: seq<AttendanceRow>): (r: set<string>)
    ensures forall id :: id in r <==> exists k :: 0 <= k < |rows| && rows[k].facultyId == id
  {
    set k | 0 <= k < |rows| :: rows[k].facultyId
  }

  /** The joined row of one alert, or None when its faculty row is gone. */
  function JoinAlert(a: AlertRow, faculty: seq<FacultyRow>): Option<AlertView>
  {
    match FindFaculty(faculty, a.facultyId)
    case None => None
    case Some(f) => Some(AlertView(f.name, f.department, f.phone, a.date, a.status, a.sentTime, None))
  }

  /** `absentee_alerts JOIN faculty`, in alert table order. */
  function JoinAlerts(alerts: seq<AlertRow>, faculty: seq<FacultyRow>): (r: seq<AlertView>)
    ensures |r| <= |alerts|
    ensures forall v :: v in r ==> v.facultyId.None?
  {
    if alerts == [] then []
    else
      var v := JoinAlert(alerts[0], faculty);
      (if v.Some? then [v.value] else []) + JoinAlerts(alerts[1..], faculty)
  }

  function AlertDate(v: AlertView): string
  {
    v.date
  }

  // ---------------------------------------------------------------------------
  // The store
  // ---------------------------------------------------------------------------

  const DefaultAdmin := AdminRow("ADMIN001", "admin", "", "admin@faculty-system.com")

  predicate HasAdminNamed(admins: seq<AdminRow>, username: string)
  {
    exists k :: 0 <= k < |admins| && admins[k].username == username
  }

  predicate HasAdminId(admins: seq<AdminRow>, adminId: string)
  {
    exists k :: 0 <= k < |admins| && admins[k].adminId == adminId
  }

  predicate HasAlertId(alerts: seq<AlertRow>, alertId: string)
  {
    exists k :: 0 <= k < |alerts| && alerts[k].alertId == alertId
  }

  /** The keys `create_absentee_alert` reads from its dictionary. */
  const AlertKeys: seq<string> := ["alert_id", "faculty_id", "date", "message", "status", "sent_time"]

  class Store {
    var faculty: seq<FacultyRow>
    var attendance: seq<AttendanceRow>
    /** The AUTOINCREMENT counter of the attendance table. */
    var nextAttendanceId: nat
    var admins: seq<AdminRow>
    var alerts: seq<AlertRow>
    var chatQueries: seq<ChatQuery>

    /** Primary keys and the UNIQUE username, and fresh attendance ids. */
    ghost predicate Valid()
      reads this
    {
      && UniqueFacultyIds(faculty)
      && (forall i, j :: 0 <= i < j < |admins| ==>
            admins[i].adminId != admins[j].adminId && admins[i].username != admins[j].username)
      && (forall i, j :: 0 <= i < j < |alerts| ==> alerts[i].alertId != alerts[j].alertId)
      && (forall k :: 0 <= k < |attendance| ==> attendance[k].id < nextAttendanceId)
    }

    /** A database file whose tables have just been created. */
    constructor Empty()
      ensures Valid()
      ensures faculty == [] && attendance == [] && admins == [] && alerts == [] && chatQueries == []
    {
      faculty, attendance, nextAttendanceId, admins, alerts, chatQueries := [], [], 1, [], [], [];
    }

    /**
     * `initialize_data_files`: the CREATE TABLE IF NOT EXISTS statements
     * change nothing here; the default admin is inserted only when no
     * admin is called 'admin'. Its admin_id is a primary key, so when
     * another admin already holds 'ADMIN001' the insert raises.
     */
    method InitializeDataFiles(adminHash: string) returns (r: Result<()>)
      requires Valid()
      modifies this
      ensures Valid()
      ensures faculty == old(faculty) && attendance == old(attendance) && alerts == old(alerts)
      ensures nextAttendanceId == old(nextAttendanceId) && chatQueries == old(chatQueries)
      ensures HasAdminNamed(old(admins), "admin") ==> r == Ok(()) && admins == old(admins)
      ensures !HasAdminNamed(old(admins), "admin") && HasAdminId(old(admins), "ADMIN001") ==>
                r.Raised? && admins == old(admins)
      ensures !HasAdminNamed(old(admins), "admin") && !HasAdminId(old(admins), "ADMIN001") ==>
                r == Ok(()) && admins == old(admins) + [DefaultAdmin.(passwordHash := adminHash)]
      ensures r.Ok? ==> HasAdminNamed(admins, "admin")
    {
      if HasAdminNamed(admins, "admin") {
        return Ok(());
      }
      if HasAdminId(admins, "ADMIN001") {
        return Raised("UNIQUE constraint failed: admins.admin_id");
      }
      admins := admins + [DefaultAdmin.(passwordHash := adminHash)];
      assert admins[|admins| - 1].username == "admin";
      return Ok(());
    }

    /** `get_faculty_by_id` */
    function GetFacultyById(id: string): (r: Option<FacultyRow>)
      reads this
      ensures r.None? <==> !HasFaculty(faculty, id)
      ensures r.Some? ==> r.value in faculty && r.value.facultyId == id
    {
      FindFaculty(faculty, id)
    }

    /**
     * `create_faculty`: inserts the row; a second row with the same
     * faculty_id violates the primary key and the call raises, leaving the
     * table as it was.
     */
    method CreateFaculty(row: FacultyRow) returns (r: Result<bool>)
      requires Valid()
      modifies this
      ensures Valid()
      ensures attendance == old(attendance) && admins == old(admins) && alerts == old(alerts)
      ensures nextAttendanceId == old(nextAttendanceId) && chatQueries == old(chatQueries)
      ensures HasFaculty(old(faculty), row.facultyId) <==> r.Raised?
      ensures r.Raised? ==> faculty == old(faculty)
      ensures r.Ok? ==> r.value && faculty == old(faculty) + [row]
    {
      if HasFaculty(faculty, row.facultyId) {
        return Raised("UNIQUE constraint failed: faculty.faculty_id");
      }
      faculty := faculty + [row];
      return Ok(true);
    }

    /**
     * `update_faculty`: builds `SET k = ?` for every key and runs the
     * statement; True iff a row has that faculty_id. An empty dictionary
     * makes the statement `SET  WHERE`, a syntax error that raises.
     */
    method UpdateFaculty(id: string, updates: seq<Update>) returns (r: Result<bool>)
      requires Valid() && DistinctKeys(updates)
      modifies this
      ensures Valid()
      ensures attendance == old(attendance) && admins == old(admins) && alerts == old(alerts)
      ensures nextAttendanceId == old(nextAttendanceId) && chatQueries == old(chatQueries)
      ensures updates == [] ==> r.Raised? && faculty == old(faculty)
      ensures updates != [] ==> r == Ok(HasFaculty(old(faculty), id))
                                && faculty == UpdateRows(old(faculty), id, updates)
    {
      var fields, values := BuildUpdateStatement(id, updates);
      if fields == [] {
        return Raised("near \"WHERE\": syntax error");
      }
      var found := HasFaculty(faculty, id);
      faculty := UpdateRows(faculty, id, updates);
      return Ok(found);
    }

    /** `delete_faculty`: True iff a row was removed; the other rows stay, in order. */
    method DeleteFaculty(id: string) returns (removed: bool)
      requires Valid()
      modifies this
      ensures Valid()
      ensures attendance == old(attendance) && admins == old(admins) && alerts == old(alerts)
      ensures nextAttendanceId == old(nextAttendanceId) && chatQueries == old(chatQueries)
      ensures removed <==> HasFaculty(old(faculty), id)
      ensures faculty == RemoveFaculty(old(faculty), id)
      ensures |faculty| == |old(faculty)| - (if removed then 1 else 0)
    {
      removed := HasFaculty(faculty, id);
      RemoveFacultyCount(faculty, id);
      RemoveKeepsUnique(faculty, id);
      faculty := RemoveFaculty(faculty, id);
    }

    /**
     * `create_attendance`: appends a record under the next AUTOINCREMENT id;
     * there is no uniqueness on (faculty_id, date), so a second record for
     * the same day is appended too. recorded_on defaults to the current time.
     */
    method CreateAttendance(data: AttendanceData, now: string) returns (ok: bool)
      requires Valid()
      modifies this
      ensures Valid()
      ensures faculty == old(faculty) && admins == old(admins) && alerts == old(alerts)
      ensures chatQueries == old(chatQueries)
      ensures ok
      ensures attendance == old(attendance) + [AttendanceRow(old(nextAttendanceId), data.facultyId,
                data.date, data.time, data.location, data.status,
                if data.recordedOn.Some? then data.recordedOn.value else now)]
      ensures nextAttendanceId == old(nextAttendanceId) + 1
    {
      var recordedOn := if data.recordedOn.Some? then data.recordedOn.value else now;
      attendance := attendance + [AttendanceRow(nextAttendanceId, data.facultyId, data.date,
                                                data.time, data.location, data.status, recordedOn)];
      nextAttendanceId := nextAttendanceId + 1;
      ok := true;
    }

    /** `get_attendance_by_date` */
    function GetAttendanceByDate(date: string): (r: seq<AttendanceRow>)
      reads this
      ensures forall rec :: rec in r <==> rec in attendance && rec.date == date
    {
      OnDate(attendance, date)
    }

    /**
     * `get_attendance_stats`: present counts today's records, not distinct
     * faculty, so absent is negative when there are more records than faculty.
     */
    function GetAttendanceStats(today: string): (s: (int, int, int))
      reads this
      ensures s.0 == |faculty| && s.1 == |OnDate(attendance, today)| && s.2 == s.0 - s.1
    {
      var total := |faculty|;
      var present := |OnDate(attendance, today)|;
      (total, present, total - present)
    }

    /**
     * `insert_absentee_alert`: a new row under a fresh uuid; returns the id,
     * or None when the insert fails.
     */
    method InsertAbsenteeAlert(alertId: string, facultyId: string, date: string, message: string,
                               status: string, sentTime: string)
      returns (r: Option<string>)
      requires Valid()
      modifies this
      ensures Valid()
      ensures faculty == old(faculty) && attendance == old(attendance) && admins == old(admins)
      ensures nextAttendanceId == old(nextAttendanceId) && chatQueries == old(chatQueries)
      ensures r.None? <==> HasAlertId(old(alerts), alertId)
      ensures r.None? ==> alerts == old(alerts)
      ensures r.Some? ==> r.value == alertId
                          && alerts == old(alerts) + [AlertRow(alertId, facultyId, date, message, status, sentTime)]
    {
      if HasAlertId(alerts, alertId) {
        return None;
      }
      alerts := alerts + [AlertRow(alertId, facultyId, date, message, status, sentTime)];
      return Some(alertId);
    }

    /**
     * `create_absentee_alert`: reads six keys from its dictionary; a missing
     * key (KeyError) or a duplicate alert_id is caught and gives False with
     * nothing written.
     */
    method CreateAbsenteeAlert(data: map<string, string>) returns (ok: bool)
      requires Valid()
      modifies this
      ensures Valid()
      ensures faculty == old(faculty) && attendance == old(attendance) && admins == old(admins)
      ensures nextAttendanceId == old(nextAttendanceId) && chatQueries == old(chatQueries)
      ensures ok <==> (forall k :: k in AlertKeys ==> k in data) && !HasAlertId(old(alerts), data["alert_id"])
      ensures !ok ==> alerts == old(alerts)
      ensures ok ==> alerts == old(alerts) + [AlertRow(data["alert_id"], data["faculty_id"], data["date"],
                                                       data["message"], data["status"], data["sent_time"])]
    {
      if !(forall k :: k in AlertKeys ==> k in data) {
        return false;
      }
      if HasAlertId(alerts, data["alert_id"]) {
        return false;
      }
      alerts := alerts + [AlertRow(data["alert_id"], data["faculty_id"], data["date"],
                                   data["message"], data["status"], data["sent_time"])];
      return true;
    }

    /**
     * `get_absentee_alerts`: each alert joined with its faculty row, alerts of
     * deleted members dropped, newest date first. The rows carry the name,
     * department and phone but not the faculty_id.
     */
    function GetAbsenteeAlerts(): (r: seq<AlertView>)
      reads this
      ensures multiset(r) == multiset(JoinAlerts(alerts, faculty))
      ensures |r| <= |alerts|
      ensures forall v :: v in r ==> v.facultyId.None?
      ensures SortedDesc(r, AlertDate)
    {
      var joined := JoinAlerts(alerts, faculty);
      SortDescSorted(joined, AlertDate);
      var r := SortDesc(joined, AlertDate);
      assert forall v :: v in r ==> v in multiset(r);
      r
    }

    /** `create_chatbot_query` */
    method CreateChatbotQuery(id: string, question: string, response: string, timestamp: string)
      requires Valid()
      modifies this
      ensures Valid()
      ensures faculty == old(faculty) && attendance == old(attendance) && admins == old(admins)
      ensures nextAttendanceId == old(nextAttendanceId) && alerts == old(alerts)
      ensures chatQueries == old(chatQueries) + [ChatQuery(id, question, response, timestamp)]
    {
      chatQueries := chatQueries + [ChatQuery(id, question, response, timestamp)];
    }
  }

  lemma {:induction false} RemoveKeepsUnique(rows: seq<FacultyRow>, id: string)
    requires UniqueFacultyIds(rows)
    ensures UniqueFacultyIds(RemoveFaculty(rows, id))
  {
    if rows != [] {
      RemoveKeepsUnique(rows[1..], id);
      var rest := RemoveFaculty(rows[1..], id);
      if rows[0].facultyId != id {
        forall j | 0 <= j < |rest| ensures rows[0].facultyId != rest[j].facultyId {
          assert rest[j] in rows[1..];
          var k :| 0 <= k < |rows[1..]| && rows[1..][k] == rest[j];
          assert rows[k + 1] == rest[j];
        }
        var r := [rows[0]] + rest;
        forall i, j | 0 <= i < j < |r| ensures r[i].facultyId != r[j].facultyId {
          if i == 0 {
            assert r[j] == rest[j - 1];
          } else {
            assert r[i] == rest[i - 1] && r[j] == rest[j - 1];
          }
        }
      }
    }
  }

  /**
   * The statement parts `update_faculty` builds: one `key = ?` per entry in
   * dictionary order, the values in the same order and faculty_id last.
   */
  method BuildUpdateStatement(id: string, updates: seq<Update>) returns (fields: seq<string>, values: seq<Param>)
    ensures |fields| == |updates| && |values| == |updates| + 1
    ensures forall i :: 0 <= i < |updates| ==> fields[i] == Assignment(updates[i])
    ensures forall i :: 0 <= i < |updates| ==> values[i] == ParamOf(updates[i])
    ensures values[|updates|] == Text(id)
  {
    fields, values := CollectClauses(updates, Assignment, ParamOf);
    values := values + [Text(id)];
  }

  /** The loop over the dictionary's items: one clause and one value per entry, in order. */
  method CollectClauses<F, V>(updates: seq<Update>, clause: Update -> F, value: Update -> V)
    returns (fields: seq<F>, values: seq<V>)
    ensures |fields| == |updates| && |values| == |updates|
    ensures forall i :: 0 <= i < |updates| ==> fields[i] == clause(updates[i]) && values[i] == value(updates[i])
  {
    fields, values := [], [];
    for i := 0 to |updates|
      invariant |fields| == i && |values| == i
      invariant forall k :: 0 <= k < i ==> fields[k] == clause(updates[k]) && values[k] == value(updates[k])
    {
      fields := fields + [clause(updates[i])];
      values := values + [value(updates[i])];
    }
  }
}
