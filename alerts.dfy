/**
 * Absentee alerts of routes/alerts.py: who is absent on a date, the single
 * SMS alert, the batch of simulated alerts and the alert history. The SMS
 * gateway, the alert log files and the uuid generator are parameters.
 */
module Alerts {
  import opened Common
  import opened DbHandler
  import opened Attendance

  // ---------------------------------------------------------------------------
  // get_absent_faculty
  // ---------------------------------------------------------------------------

  /** The members without a record on the date, in faculty table order. */
  function AbsentFaculty(faculty: seq<FacultyRow>, present: set<string>): (r: seq<FacultyRow>)
    ensures forall f :: f in r <==> f in faculty && f.facultyId !in present
    ensures |r| <= |faculty|
  {
    if faculty == [] then []
    else (if faculty[0].facultyId !in present then [faculty[0]] else []) + AbsentFaculty(faculty[1..], present)
  }

  /** `get_absent_faculty(target_date)` */
  function GetAbsentFaculty(faculty: seq<FacultyRow>, attendance: seq<AttendanceRow>, day: string): seq<FacultyRow>
  {
    AbsentFaculty(faculty, MarkedOn(attendance, day))
  }

  /** The list keeps table order: the absentees of two parts are those of each part, concatenated. */
  lemma {:induction false} AbsentFacultyAppend(a: seq<FacultyRow>, b: seq<FacultyRow>, present: set<string>)
    ensures AbsentFaculty(a + b, present) == AbsentFaculty(a, present) + AbsentFaculty(b, present)
  {
    if a == [] {
      assert a + b == b;
    } else {
      assert (a + b)[0] == a[0] && (a + b)[1..] == a[1..] + b;
      AbsentFacultyAppend(a[1..], b, present);
    }
  }

  /** The members whose id is in the set, in table order. */
  function PresentFaculty(faculty: seq<FacultyRow>, present: set<string>): (r: seq<FacultyRow>)
    ensures forall f :: f in r <==> f in faculty && f.facultyId in present
  {
    if faculty == [] then []
    else (if faculty[0].facultyId in present then [faculty[0]] else []) + PresentFaculty(faculty[1..], present)
  }

  /** Every member is either absent or present. */
  lemma {:induction false} AbsentPresentPartition(faculty: seq<FacultyRow>, present: set<string>)
    ensures |AbsentFaculty(faculty, present)| + |PresentFaculty(faculty, present)| == |faculty|
  {
    if faculty != [] {
      AbsentPresentPartition(faculty[1..], present);
    }
  }

  /** The ids of a list of faculty rows. */
  function IdSet(rows: seq<FacultyRow>): set<string>
  {
    set k | 0 <= k < |rows| :: rows[k].facultyId
  }

  /** Distinct ids among today's records: as many ids as records. */
  lemma {:induction false} PresentIdsCard(rows: seq<AttendanceRow>)
    requires DistinctIds(rows)
    ensures |PresentIds(rows)| == |rows|
  {
    if rows != [] {
      var init := rows[..|rows| - 1];
      var last := rows[|rows| - 1].facultyId;
      assert forall k :: 0 <= k < |init| ==> init[k] == rows[k];
      assert DistinctIds(init);
      PresentIdsCard(init);
      assert last !in PresentIds(init);
      assert PresentIds(rows) == PresentIds(init) + {last} by {
        forall x | x in PresentIds(rows) ensures x in PresentIds(init) + {last} {
          var k :| 0 <= k < |rows| && rows[k].facultyId == x;
          if k < |init| {
            assert init[k].facultyId == x;
          }
        }
      }
    }
  }

  /** No two records name the same member. */
  ghost predicate DistinctIds(rows: seq<AttendanceRow>)
  {
    forall i, j :: 0 <= i < j < |rows| ==> rows[i].facultyId != rows[j].facultyId
  }

  /** The ids of a table are its first id and the ids of the rest. */
  lemma IdSetCons(faculty: seq<FacultyRow>)
    requires faculty != []
    ensures IdSet(faculty) == {faculty[0].facultyId} + IdSet(faculty[1..])
  {
    var tail := faculty[1..];
    forall x | x in IdSet(faculty) ensures x in {faculty[0].facultyId} + IdSet(tail) {
      var k :| 0 <= k < |faculty| && faculty[k].facultyId == x;
      if k > 0 {
        assert tail[k - 1].facultyId == x;
      }
    }
    forall x | x in IdSet(tail) ensures x in IdSet(faculty) {
      var k :| 0 <= k < |tail| && tail[k].facultyId == x;
      assert faculty[k + 1].facultyId == x;
    }
  }

  /** Unique ids stay unique in the rest of the table, and the first id is not among them. */
  lemma UniqueTail(faculty: seq<FacultyRow>)
    requires faculty != [] && UniqueFacultyIds(faculty)
    ensures UniqueFacultyIds(faculty[1..])
    ensures faculty[0].facultyId !in IdSet(faculty[1..])
  {
    var tail := faculty[1..];
    forall i, j | 0 <= i < j < |tail| ensures tail[i].facultyId != tail[j].facultyId {
      assert tail[i] == faculty[i + 1] && tail[j] == faculty[j + 1];
    }
    forall k | 0 <= k < |tail| ensures tail[k].facultyId != faculty[0].facultyId {
      assert tail[k] == faculty[k + 1];
    }
  }

  /** With unique ids, one member is present per present id of the table. */
  lemma {:induction false} PresentFacultyCount(faculty: seq<FacultyRow>, present: set<string>)
    requires UniqueFacultyIds(faculty)
    ensures |PresentFaculty(faculty, present)| == |present * IdSet(faculty)|
  {
    if faculty == [] {
      assert present * IdSet(faculty) == {};
    } else {
      var tail := faculty[1..];
      var id := faculty[0].facultyId;
      IdSetCons(faculty);
      UniqueTail(faculty);
      PresentFacultyCount(tail, present);
      if id in present {
        assert present * IdSet(faculty) == {id} + present * IdSet(tail);
        assert id !in present * IdSet(tail);
        assert |{id} + present * IdSet(tail)| == 1 + |present * IdSet(tail)|;
      } else {
        assert present * IdSet(faculty) == present * IdSet(tail);
      }
    }
  }

  /**
   * When every member has at most one record a day and every record belongs
   * to a member, the absentee list is exactly as long as the absent figure
   * of `get_attendance_stats`.
   */
  lemma AbsentCountMatchesStats(faculty: seq<FacultyRow>, attendance: seq<AttendanceRow>, day: string)
    requires UniqueFacultyIds(faculty)
    requires OncePerDay(attendance)
    requires forall r :: r in attendance ==> HasFaculty(faculty, r.facultyId)
    ensures |GetAbsentFaculty(faculty, attendance, day)| == |faculty| - |OnDate(attendance, day)|
  {
    var today := OnDate(attendance, day);
    var present := PresentIds(today);
    OnDateDistinct(attendance, day);
    PresentIdsCard(today);
    AbsentPresentPartition(faculty, present);
    PresentFacultyCount(faculty, present);
    assert present <= IdSet(faculty) by {
      forall x | x in present ensures x in IdSet(faculty) {
        var k :| 0 <= k < |today| && today[k].facultyId == x;
        assert today[k] in attendance;
        var m :| 0 <= m < |faculty| && faculty[m].facultyId == x;
      }
    }
    assert present * IdSet(faculty) == present;
  }

  /** With one record per member a day, the records of one day name distinct members. */
  lemma {:induction false} OnDateDistinct(attendance: seq<AttendanceRow>, day: string)
    requires OncePerDay(attendance)
    ensures DistinctIds(OnDate(attendance, day))
  {
    if attendance != [] {
      var tail := attendance[1..];
      forall i, j | 0 <= i < j < |tail| ensures tail[i].facultyId != tail[j].facultyId || tail[i].date != tail[j].date {
        assert tail[i] == attendance[i + 1] && tail[j] == attendance[j + 1];
      }
      OnDateDistinct(tail, day);
      var rest := OnDate(tail, day);
      if attendance[0].date == day {
        var t := [attendance[0]] + rest;
        assert OnDate(attendance, day) == t;
        forall j | 0 <= j < |rest| ensures rest[j].facultyId != attendance[0].facultyId {
          var x := rest[j];
          assert x in rest;
          assert x in tail && x.date == day;
          var m :| 0 <= m < |tail| && tail[m] == x;
          assert attendance[m + 1] == x;
        }
        forall i, j | 0 <= i < j < |t| ensures t[i].facultyId != t[j].facultyId {
          assert t[j] == rest[j - 1];
          if i > 0 {
            assert t[i] == rest[i - 1];
          }
        }
      }
    }
  }

  /**
   * With two records of the same member on one day, the absent figure of
   * the statistics drops below zero while the absentee list is empty.
   */
  lemma DuplicateRecordsSkewStats(f: FacultyRow, r1: AttendanceRow, r2: AttendanceRow)
    requires r1.facultyId == f.facultyId && r2.facultyId == f.facultyId && r1.date == r2.date
    ensures |[f]| - |OnDate([r1, r2], r1.date)| == -1
    ensures GetAbsentFaculty([f], [r1, r2], r1.date) == []
  {
    assert OnDate([r1, r2], r1.date) == [r1, r2] by {
      assert [r1, r2][1..] == [r2];
    }
    assert f.facultyId in MarkedOn([r1, r2], r1.date) by {
      assert OnDate([r1, r2], r1.date)[0] == r1;
    }
  }

  // ---------------------------------------------------------------------------
  // send_sms_alert
  // ---------------------------------------------------------------------------

  /** What the SMS gateway did with the message. */
  datatype Delivery = Delivered(sid: string) | NotDelivered(error: string)

  /** The JSON fields of the request. */
  datatype SmsRequest = SmsRequest(name: Option<string>, phone: Option<string>, date: Option<string>,
                                   facultyId: Option<string>)

  /** The JSON reply: status code, message and, on delivery, the gateway's message sid. */
  datatype SmsReply = SmsReply(status: nat, message: string, sid: Option<string>)

  /** The message text sent to the member. */
  function SmsBody(name: string, date: string): string
  {
    "Dear " + name + ", you were marked absent on " + date + ". Please contact administration."
  }

  /** The alert status recorded for a delivery. */
  function DeliveryStatus(d: Delivery): string
  {
    match d
    case Delivered(_) => "Sent"
    case NotDelivered(e) => "Failed: " + e
  }

  /**
   * `send_sms_alert`: missing fields give 400 and nothing is recorded;
   * otherwise the alert is recorded whether or not the SMS went out, with
   * status "Sent" or "Failed: " and the error.
   */
  method SendSmsAlert(store: Store, req: SmsRequest, delivery: Delivery, alertId: string, sentTime: string)
    returns (reply: SmsReply)
    requires store.Valid()
    modifies store
    ensures store.Valid()
    ensures store.faculty == old(store.faculty) && store.attendance == old(store.attendance)
    ensures store.admins == old(store.admins) && store.chatQueries == old(store.chatQueries)
    ensures store.nextAttendanceId == old(store.nextAttendanceId)
    ensures !(Truthy(req.name) && Truthy(req.phone) && Truthy(req.date) && Truthy(req.facultyId)) ==>
              reply == SmsReply(400, "Missing required fields", None) && store.alerts == old(store.alerts)
    ensures Truthy(req.name) && Truthy(req.phone) && Truthy(req.date) && Truthy(req.facultyId) ==>
              && reply.status == (if delivery.Delivered? then 200 else 500)
              && (reply.sid.Some? <==> delivery.Delivered?)
              && store.alerts == old(store.alerts)
                 + (if HasAlertId(old(store.alerts), alertId) then []
                    else [AlertRow(alertId, req.facultyId.value, req.date.value, SmsBody(req.name.value, req.date.value),
                                   DeliveryStatus(delivery), sentTime)])
  {
    if !(Truthy(req.name) && Truthy(req.phone) && Truthy(req.date) && Truthy(req.facultyId)) {
      return SmsReply(400, "Missing required fields", None);
    }
    var body := SmsBody(req.name.value, req.date.value);
    var _ := store.InsertAbsenteeAlert(alertId, req.facultyId.value, req.date.value, body,
                                       DeliveryStatus(delivery), sentTime);
    match delivery {
      case Delivered(sid) =>
        reply := SmsReply(200, "SMS sent to " + req.name.value + " at " + req.phone.value, Some(sid));
      case NotDelivered(e) =>
        reply := SmsReply(500, "Failed to send SMS: " + e, None);
    }
  }

  /** The message names the member and the date in the fixed wording. */
  lemma SmsBodyNamesMemberAndDate(name: string, date: string)
    ensures StartsWith(SmsBody(name, date), "Dear " + name + ", you were marked absent on " + date)
    ensures |SmsBody(name, date)| == |name| + |date| + 65
  {
  }

  // ---------------------------------------------------------------------------
  // send_absentee_alerts
  // ---------------------------------------------------------------------------

  /** The number of members whose simulated alert succeeded. */
  function SentCount(absent: seq<FacultyRow>, simulate: FacultyRow -> bool): nat
  {
    if absent == [] then 0
    else SentCount(absent[..|absent| - 1], simulate) + (if simulate(absent[|absent| - 1]) then 1 else 0)
  }

  /** The names of the members whose simulated alert failed, in order. */
  function FailedNames(absent: seq<FacultyRow>, simulate: FacultyRow -> bool): seq<string>
  {
    if absent == [] then []
    else
      var last := absent[|absent| - 1];
      FailedNames(absent[..|absent| - 1], simulate) + (if simulate(last) then [] else [last.name])
  }

  /** Every absentee is counted once, as sent or as failed. */
  lemma {:induction false} SentFailedPartition(absent: seq<FacultyRow>, simulate: FacultyRow -> bool)
    ensures SentCount(absent, simulate) + |FailedNames(absent, simulate)| == |absent|
  {
    if absent != [] {
      SentFailedPartition(absent[..|absent| - 1], simulate);
    }
  }

  datatype BatchOutcome =
    | NoAbsentees(date: string)
    | Attempted(date: string, sent: nat, failed: nat, failedNames: seq<string>)

  /** The dictionary the batch hands to `create_absentee_alert`. */
  function BatchAlertData(alertId: string, facultyId: string, date: string): map<string, string>
  {
    map["alert_id" := alertId, "faculty_id" := facultyId, "date" := date, "message_sent" := "True"]
  }

  /** That dictionary lacks message, status and sent_time, so the insert always fails. */
  lemma BatchAlertDataIncomplete(alertId: string, facultyId: string, date: string)
    ensures "message" !in BatchAlertData(alertId, facultyId, date)
    ensures !(forall k :: k in AlertKeys ==> k in BatchAlertData(alertId, facultyId, date))
  {
    assert AlertKeys[3] == "message";
  }

  /** The endpoints the alerts blueprint registers, with their URLs. */
  const AlertsEndpoints: map<string, string> :=
    map["alerts.alert_home" := "/alerts/", "alerts.send_sms_alert" := "/alerts/send_sms",
        "alerts.send_absentee_alerts" := "/alerts/send-absentee-alerts",
        "alerts.api_get_absent_faculty" := "/alerts/api/get-absent-faculty",
        "alerts.history" := "/alerts/history"]

  /** As written, `send_absentee_alerts` redirects to `alerts.send`. */
  const SendEndpoint := "alerts.send"

  /** Corrected: the redirect goes to the blueprint's home page. */
  const CorrectedSendEndpoint := "alerts.alert_home"

  /** As written, the batch's redirect cannot be built, whatever the outcome. */
  lemma BatchRedirectIsServerError()
    ensures RedirectTo(SendEndpoint, AlertsEndpoints) == ServerError
  {
  }

  /** Corrected, the batch ends on the alerts home page. */
  lemma CorrectedBatchRedirect()
    ensures RedirectTo(CorrectedSendEndpoint, AlertsEndpoints) == Redirect("/alerts/")
  {
  }

  /**
   * `send_absentee_alerts`: the target date defaults to today; with nobody
   * absent nothing happens; otherwise every absentee is counted as sent or
   * failed. The alert rows it tries to write lack keys, so the alerts table
   * is left as it was. As written, the closing redirect cannot be built, so
   * the request is answered with a 500 error after the alerts went out.
   */
  method SendAbsenteeAlerts(store: Store, targetDate: Option<string>, today: string,
                            simulate: FacultyRow -> bool, uuid: nat -> string)
    returns (o: BatchOutcome, reply: HttpReply)
    requires store.Valid()
    modifies store
    ensures store.Valid()
    ensures store.faculty == old(store.faculty) && store.attendance == old(store.attendance)
    ensures store.admins == old(store.admins) && store.chatQueries == old(store.chatQueries)
    ensures store.alerts == old(store.alerts)
    ensures var day := if Truthy(targetDate) then targetDate.value else today;
            var absent := GetAbsentFaculty(old(store.faculty), old(store.attendance), day);
            && (absent == [] ==> o == NoAbsentees(day))
            && (absent != [] ==> o == Attempted(day, SentCount(absent, simulate), |FailedNames(absent, simulate)|,
                                                FailedNames(absent, simulate)))
    ensures reply == RedirectTo(SendEndpoint, AlertsEndpoints) && reply == ServerError
  {
    reply := RedirectTo(SendEndpoint, AlertsEndpoints);
    var day := if Truthy(targetDate) then targetDate.value else today;
    var absent := GetAbsentFaculty(store.faculty, store.attendance, day);
    if absent == [] {
      o := NoAbsentees(day);
      return;
    }
    var sent, failed := 0, 0;
    var failedLogs: seq<string> := [];
    for i := 0 to |absent|
      invariant store.Valid()
      invariant store.faculty == old(store.faculty) && store.attendance == old(store.attendance)
      invariant store.admins == old(store.admins) && store.chatQueries == old(store.chatQueries)
      invariant store.alerts == old(store.alerts)
      invariant sent == SentCount(absent[..i], simulate)
      invariant failedLogs == FailedNames(absent[..i], simulate) && failed == |failedLogs|
    {
      assert absent[..i + 1][..i] == absent[..i];
      var f := absent[i];
      if simulate(f) {
        BatchAlertDataIncomplete(uuid(i), f.facultyId, day);
        var _ := store.CreateAbsenteeAlert(BatchAlertData(uuid(i), f.facultyId, day));
        sent := sent + 1;
      } else {
        failedLogs := failedLogs + [f.name];
        failed := failed + 1;
      }
    }
    assert absent[..|absent|] == absent;
    o := Attempted(day, sent, failed, failedLogs);
  }

  // ---------------------------------------------------------------------------
  // history
  // ---------------------------------------------------------------------------

  /** An alert with the member's name, department and email added. */
  datatype HistoryEntry = HistoryEntry(alert: AlertView, facultyName: string, department: string, email: string)

  function EntryDate(e: HistoryEntry): string
  {
    e.alert.date
  }

  /** e is an alert of the list whose member is known, with that member's details. */
  predicate Enriches(e: HistoryEntry, alerts: seq<AlertView>, faculty: seq<FacultyRow>)
    requires forall v :: v in alerts ==> v.facultyId.Some?
  {
    && e.alert in alerts
    && FindFaculty(faculty, e.alert.facultyId.value).Some?
    && var f := FindFaculty(faculty, e.alert.facultyId.value).value;
       e.facultyName == f.name && e.department == f.department && e.email == f.email
  }

  /** The alerts whose member is known, enriched, in the given order. */
  function Enriched(alerts: seq<AlertView>, faculty: seq<FacultyRow>): (r: seq<HistoryEntry>)
    requires forall v :: v in alerts ==> v.facultyId.Some?
    ensures forall e :: e in r <==> Enriches(e, alerts, faculty)
  {
    if alerts == [] then []
    else
      var rest := Enriched(alerts[..|alerts| - 1], faculty);
      var last := alerts[|alerts| - 1];
      assert forall v :: v in alerts[..|alerts| - 1] ==> v in alerts;
      match FindFaculty(faculty, last.facultyId.value)
      case None => rest
      case Some(f) => rest + [HistoryEntry(last, f.name, f.department, f.email)]
  }

  /** Some alert row has no faculty_id key. */
  predicate LacksFacultyId(alerts: seq<AlertView>)
  {
    exists k :: 0 <= k < |alerts| && alerts[k].facultyId.None?
  }

  /** What `history` produces: KeyError at the first row without faculty_id, else the sorted enriched list. */
  function HistoryOf(alerts: seq<AlertView>, faculty: seq<FacultyRow>): Result<seq<HistoryEntry>>
  {
    if LacksFacultyId(alerts) then Raised("KeyError: 'faculty_id'")
    else Ok(SortDesc(Enriched(alerts, faculty), EntryDate))
  }

  /** `history`: the enrichment loop, then the sort by date, newest first. */
  method History(alerts: seq<AlertView>, faculty: seq<FacultyRow>) returns (r: Result<seq<HistoryEntry>>)
    ensures r == HistoryOf(alerts, faculty)
  {
    var enriched: seq<HistoryEntry> := [];
    for i := 0 to |alerts|
      invariant forall k :: 0 <= k < i ==> alerts[k].facultyId.Some?
      invariant enriched == Enriched(alerts[..i], faculty)
    {
      assert alerts[..i + 1][..i] == alerts[..i];
      var alert := alerts[i];
      if alert.facultyId.None? {
        return Raised("KeyError: 'faculty_id'");
      }
      var f := FindFaculty(faculty, alert.facultyId.value);
      if f.Some? {
        enriched := enriched + [HistoryEntry(alert, f.value.name, f.value.department, f.value.email)];
      }
    }
    assert alerts[..|alerts|] == alerts;
    r := Ok(SortDesc(enriched, EntryDate));
  }

  /** When every row carries its faculty_id, the history lists the known members' alerts, newest first. */
  lemma HistoryContents(alerts: seq<AlertView>, faculty: seq<FacultyRow>)
    requires forall v :: v in alerts ==> v.facultyId.Some?
    ensures HistoryOf(alerts, faculty).Ok?
    ensures SortedDesc(HistoryOf(alerts, faculty).value, EntryDate)
    ensures forall e :: e in HistoryOf(alerts, faculty).value <==> Enriches(e, alerts, faculty)
  {
    var enriched := Enriched(alerts, faculty);
    SortDescSorted(enriched, EntryDate);
    forall e ensures e in SortDesc(enriched, EntryDate) <==> e in enriched {
      assert e in multiset(SortDesc(enriched, EntryDate)) <==> e in multiset(enriched);
    }
  }

  /**
   * The rows `get_absentee_alerts` returns never carry faculty_id, so
   * `history` raises as soon as any alert of a known member is stored.
   */
  lemma HistoryOfStoredAlertsRaises(alerts: seq<AlertRow>, faculty: seq<FacultyRow>, views: seq<AlertView>)
    requires multiset(views) == multiset(JoinAlerts(alerts, faculty))
    ensures HistoryOf(views, faculty).Raised? <==> JoinAlerts(alerts, faculty) != []
  {
    var joined := JoinAlerts(alerts, faculty);
    if joined != [] {
      assert joined[0] in multiset(views);
      var k :| 0 <= k < |views| && views[k] == joined[0];
    } else {
      assert |views| == |multiset(views)|;
    }
  }
}
