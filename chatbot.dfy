/**
 * The rule-based assistant of routes/chatbot.py: the empty-question check of
 * `ask` and the intent dispatch of `classic_chatbot_response`. The names and
 * counts its SQL queries return are computed from the tables, except the
 * grouped monthly and yearly counts, which are inputs.
 */
module Chatbot {
  import opened Common
  import opened DbHandler
  import opened Dashboard
  import opened Alerts

  // ---------------------------------------------------------------------------
  // The requested date
  // ---------------------------------------------------------------------------

  /** `\d{4}-\d{2}-\d{2}` matches s at index i. */
  predicate DatePatternAt(s: string, i: int)
  {
    && 0 <= i && i + 10 <= |s|
    && IsDigit(s[i]) && IsDigit(s[i + 1]) && IsDigit(s[i + 2]) && IsDigit(s[i + 3]) && s[i + 4] == '-'
    && IsDigit(s[i + 5]) && IsDigit(s[i + 6]) && s[i + 7] == '-' && IsDigit(s[i + 8]) && IsDigit(s[i + 9])
  }

  /** `re.search`: the leftmost index from `start` on where the pattern matches. */
  function SearchDate(s: string, start: nat): (r: Option<nat>)
    ensures r.Some? ==> start <= r.value && DatePatternAt(s, r.value)
    ensures r.Some? ==> forall j :: start <= j < r.value ==> !DatePatternAt(s, j)
    ensures r.None? ==> forall j :: start <= j ==> !DatePatternAt(s, j)
    decreases |s| - start
  {
    if start + 10 > |s| then None
    else if DatePatternAt(s, start) then Some(start)
    else SearchDate(s, start + 1)
  }

  /** `requested_date`: the first date written in the question, else today. */
  function RequestedDate(s: string, today: Date): (r: string)
    ensures SearchDate(s, 0).None? ==> r == Iso(today)
    ensures SearchDate(s, 0).Some? ==> |r| == 10 && OccursAt(s, r, SearchDate(s, 0).value)
  {
    match SearchDate(s, 0)
    case None => Iso(today)
    case Some(i) => s[i..i + 10]
  }

  /** A question that names a date asks about the leftmost one. */
  lemma RequestedDateIsLeftmost(s: string, today: Date, i: nat)
    requires DatePatternAt(s, i)
    ensures exists k :: && 0 <= k <= i && DatePatternAt(s, k) && RequestedDate(s, today) == s[k..k + 10]
                        && forall j :: 0 <= j < k ==> !DatePatternAt(s, j)
  {
    var r := SearchDate(s, 0);
    assert r.Some?;
    assert RequestedDate(s, today) == s[r.value..r.value + 10];
  }

  // ---------------------------------------------------------------------------
  // Intents
  // ---------------------------------------------------------------------------

  datatype Intent = Greet | RegisterHelp | ListFaculty | AttendanceOn | MonthlyReport | YearlyReport | AbsentOn
                  | TotalReport | NoIntent

  /** The branch `classic_chatbot_response` takes on the lowercased question. */
  function Classify(s: string): Intent
  {
    var hasDate := SearchDate(s, 0).Some?;
    if s in ["hi", "hello", "hey", "hai"] then Greet
    else if Contains(s, "register") && Contains(s, "faculty") then RegisterHelp
    else if Contains(s, "list") && Contains(s, "faculty") then ListFaculty
    else if Contains(s, "attendance") && (Contains(s, "today") || hasDate) then AttendanceOn
    else if Contains(s, "monthly report") || Contains(s, "this month") then MonthlyReport
    else if Contains(s, "yearly report") || Contains(s, "this year") then YearlyReport
    else if Contains(s, "absent") && (Contains(s, "today") || hasDate) then AbsentOn
    else if Contains(s, "report") then TotalReport
    else NoIntent
  }

  /**
   * Earlier rules win: a question about absentees that also asks for
   * attendance on a day gets the attendance list, and a monthly or yearly
   * report request never falls through to the total count.
   */
  lemma IntentPrecedence(s: string)
    ensures Classify(s) == AbsentOn ==> !(Contains(s, "attendance") && (Contains(s, "today") || SearchDate(s, 0).Some?))
    ensures Classify(s) == TotalReport ==> !Contains(s, "monthly report") && !Contains(s, "yearly report")
    ensures Classify(s) == NoIntent ==> !Contains(s, "report")
    ensures Classify(s) == Greet <==> s in ["hi", "hello", "hey", "hai"]
  {
  }

  /** "report" occurs inside "monthly report", so the bare report rule sees every report request. */
  lemma ReportWordInReportRequests(s: string)
    requires Contains(s, "monthly report") || Contains(s, "yearly report")
    ensures Contains(s, "report")
  {
    ContainsAt(s, "monthly report");
    ContainsAt(s, "yearly report");
    ContainsAt(s, "report");
    if Contains(s, "monthly report") {
      var i :| OccursAt(s, "monthly report", i);
      assert s[i + 8..i + 14] == "monthly report"[8..14];
      assert OccursAt(s, "report", i + 8);
    } else {
      var i :| OccursAt(s, "yearly report", i);
      assert s[i + 7..i + 13] == "yearly report"[7..13];
      assert OccursAt(s, "report", i + 7);
    }
  }

  // ---------------------------------------------------------------------------
  // Query results
  // ---------------------------------------------------------------------------

  /** `SELECT name FROM faculty` */
  function FacultyNames(faculty: seq<FacultyRow>): (r: seq<string>)
    ensures |r| == |faculty| && forall k :: 0 <= k < |r| ==> r[k] == faculty[k].name
  {
    seq(|faculty|, k requires 0 <= k < |faculty| => faculty[k].name)
  }

  /** The names of the members with a record on the date, in table order. */
  function PresentNames(faculty: seq<FacultyRow>, attendance: seq<AttendanceRow>, date: string): seq<string>
  {
    FacultyNames(PresentFaculty(faculty, PresentIds(OnDate(attendance, date))))
  }

  /** `all_faculty - present` of the absent rule: a difference of name sets. */
  function AbsentNames(faculty: seq<FacultyRow>, attendance: seq<AttendanceRow>, date: string): set<string>
  {
    (set k | 0 <= k < |faculty| :: faculty[k].name)
    - (set n | n in PresentNames(faculty, attendance, date))
  }

  /** A name is present exactly when some present member carries it. */
  lemma PresentNamesMembers(faculty: seq<FacultyRow>, attendance: seq<AttendanceRow>, date: string)
    ensures forall n :: n in PresentNames(faculty, attendance, date) <==>
              exists g :: g in PresentFaculty(faculty, PresentIds(OnDate(attendance, date))) && g.name == n
  {
    var pf := PresentFaculty(faculty, PresentIds(OnDate(attendance, date)));
    forall n ensures n in PresentNames(faculty, attendance, date) <==> exists g :: g in pf && g.name == n {
      if n in PresentNames(faculty, attendance, date) {
        var k :| 0 <= k < |pf| && FacultyNames(pf)[k] == n;
        assert pf[k] in pf;
      }
      if exists g :: g in pf && g.name == n {
        var g :| g in pf && g.name == n;
        var k :| 0 <= k < |pf| && pf[k] == g;
        assert FacultyNames(pf)[k] == n;
      }
    }
  }

  /** Every name the absent rule reports belongs to a member on the absentee list of the alerts page. */
  lemma AbsentNamesAgreeWithAlerts(faculty: seq<FacultyRow>, attendance: seq<AttendanceRow>, date: string)
    ensures forall n :: n in AbsentNames(faculty, attendance, date) ==>
              exists f :: f in GetAbsentFaculty(faculty, attendance, date) && f.name == n
  {
    var pf := PresentFaculty(faculty, PresentIds(OnDate(attendance, date)));
    PresentNamesMembers(faculty, attendance, date);
    forall n | n in AbsentNames(faculty, attendance, date)
      ensures exists f :: f in GetAbsentFaculty(faculty, attendance, date) && f.name == n
    {
      var k :| 0 <= k < |faculty| && faculty[k].name == n;
      assert faculty[k] !in pf;
      assert faculty[k] in GetAbsentFaculty(faculty, attendance, date);
    }
  }

  /** With distinct names, every member on the absentee list is named by the absent rule. */
  lemma DistinctNamesReportEveryAbsentee(faculty: seq<FacultyRow>, attendance: seq<AttendanceRow>, date: string)
    requires forall i, j :: 0 <= i < j < |faculty| ==> faculty[i].name != faculty[j].name
    ensures forall f :: f in GetAbsentFaculty(faculty, attendance, date) ==> f.name in AbsentNames(faculty, attendance, date)
  {
    var pf := PresentFaculty(faculty, PresentIds(OnDate(attendance, date)));
    PresentNamesMembers(faculty, attendance, date);
    forall f | f in GetAbsentFaculty(faculty, attendance, date)
      ensures f.name in AbsentNames(faculty, attendance, date)
    {
      var k :| 0 <= k < |faculty| && faculty[k] == f;
      forall g | g in pf ensures g.name != f.name {
        var m :| 0 <= m < |faculty| && faculty[m] == g;
        assert m != k;
      }
    }
  }

  /** Two members sharing a name, one of them present: the absent rule names nobody. */
  lemma SharedNameHidesAbsentee(a: FacultyRow, b: FacultyRow, r: AttendanceRow)
    requires a.name == b.name && a.facultyId != b.facultyId
    requires r.facultyId == a.facultyId
    ensures b in GetAbsentFaculty([a, b], [r], r.date)
    ensures AbsentNames([a, b], [r], r.date) == {}
  {
    var present := PresentIds(OnDate([r], r.date));
    assert OnDate([r], r.date) == [r];
    assert a.facultyId in present;
    assert a in PresentFaculty([a, b], present);
    assert a.name in PresentNames([a, b], [r], r.date) by {
      var pf := PresentFaculty([a, b], present);
      var k :| 0 <= k < |pf| && pf[k] == a;
      assert FacultyNames(pf)[k] == a.name;
    }
    assert b.facultyId !in present;
  }

  // ---------------------------------------------------------------------------
  // Replies
  // ---------------------------------------------------------------------------

  const Apology := "Sorry, " + "I didn't understand that. Try asking about attendance or reports."
  const RegisterHint := "To " + "register a new faculty, go to the registration form in the dashboard."
  const Greeting := "\U{1F44B} " + "Hello! How can I assist you with the Faculty Attendance System?"

  /** `strftime('%B')` */
  function MonthName(month: nat): string
    requires 1 <= month <= 12
  {
    ["January", "February", "March", "April", "May", "June", "July", "August", "September", "October",
     "November", "December"][month - 1]
  }

  /** The grouped counts of a monthly or yearly report, one "name: n days" line each. */
  function ReportLines(rows: seq<(string, nat)>): seq<string>
  {
    seq(|rows|, k requires 0 <= k < |rows| => rows[k].0 + ": " + NatToString(rows[k].1) + " days")
  }

  /** The grouped counts the monthly and yearly queries return. */
  datatype GroupedCounts = GroupedCounts(monthly: seq<(string, nat)>, yearly: seq<(string, nat)>)

  /** The reply of the list rule. */
  function ListReply(faculty: seq<FacultyRow>): (r: string)
    ensures |r| > 0 && r[0] != 'S'
  {
    var names := FacultyNames(faculty);
    var head := "Registered Faculty: ";
    if names != [] then assert (head + Join(names, ", "))[0] == head[0]; head + Join(names, ", ")
    else "No faculty registered yet."
  }

  /** The reply of the attendance rule: who has a record on the date. */
  function AttendanceReply(faculty: seq<FacultyRow>, attendance: seq<AttendanceRow>, date: string): (r: string)
    ensures |r| > 0 && r[0] != 'S'
  {
    var present := PresentNames(faculty, attendance, date);
    var head := "\U{1F3AF} Attendance on " + date + ": ";
    if present != [] then assert (head + Join(present, ", "))[0] == head[0]; head + Join(present, ", ")
    else "No attendance recorded for " + date + "."
  }

  /** The reply of the monthly rule. */
  function MonthlyReply(today: Date, rows: seq<(string, nat)>): (r: string)
    requires ValidDate(today)
    ensures |r| > 0 && r[0] != 'S'
  {
    var head := "\U{1F4C5} Monthly Report (" + MonthName(today.month) + " " + YearText(today.year) + "):\n";
    if rows != [] then assert (head + Join(ReportLines(rows), "\n"))[0] == head[0]; head + Join(ReportLines(rows), "\n")
    else "No attendance records for this month."
  }

  /** The reply of the yearly rule. */
  function YearlyReply(today: Date, rows: seq<(string, nat)>): (r: string)
    ensures |r| > 0 && r[0] != 'S'
  {
    var head := "\U{1F4C6} Yearly Report (" + YearText(today.year) + "):\n";
    if rows != [] then assert (head + Join(ReportLines(rows), "\n"))[0] == head[0]; head + Join(ReportLines(rows), "\n")
    else "No attendance records for this year."
  }

  /** The opening of the absent rule's reply. */
  function AbsentHead(date: string): string
  {
    "\U{1F6AB} Absent on " + date + ": "
  }

  /** The reply of the absent rule. */
  function AbsentReply(faculty: seq<FacultyRow>, attendance: seq<AttendanceRow>, date: string,
                       setOrder: set<string> -> seq<string>): (r: string)
    ensures |r| > 0 && r[0] != 'S'
  {
    var absent := AbsentNames(faculty, attendance, date);
    var head := AbsentHead(date);
    if absent != {} then assert (head + Join(setOrder(absent), ", "))[0] == head[0]; head + Join(setOrder(absent), ", ")
    else "\U{2705} All faculty were present on " + date + "."
  }

  /**
   * Whatever order the set of absent names is iterated in, the reply lists
   * every name of `all_faculty - present` after its opening, and only those;
   * with nobody absent it says that all were present.
   */
  lemma AbsentReplyListsAbsentees(faculty: seq<FacultyRow>, attendance: seq<AttendanceRow>, date: string,
                                  setOrder: set<string> -> seq<string>)
    requires forall x :: x in setOrder(AbsentNames(faculty, attendance, date)) <==> x in AbsentNames(faculty, attendance, date)
    ensures var absent := AbsentNames(faculty, attendance, date);
            var r := AbsentReply(faculty, attendance, date, setOrder);
            (absent == {} <==> r == "\U{2705} All faculty were present on " + date + ".")
            && (absent != {} ==> r == AbsentHead(date) + Join(setOrder(absent), ", "))
            && (forall n :: n in absent ==> exists i :: |AbsentHead(date)| <= i && OccursAt(r, n, i))
  {
    var absent := AbsentNames(faculty, attendance, date);
    var r := AbsentReply(faculty, attendance, date, setOrder);
    var head := AbsentHead(date);
    if absent != {} {
      var listed := setOrder(absent);
      assert r == head + Join(listed, ", ");
      assert r[0] == head[0];
      forall n | n in absent
        ensures exists i :: |head| <= i && OccursAt(r, n, i)
      {
        var k :| 0 <= k < |listed| && listed[k] == n;
        JoinContainsParts(listed, ", ", k);
        var i :| OccursAt(Join(listed, ", "), n, i);
        assert r[|head| + i..|head| + i + |n|] == Join(listed, ", ")[i..i + |n|];
        assert OccursAt(r, n, |head| + i);
      }
    }
  }

  /**
   * The reply the rule for `intent` gives, `date` being the requested day.
   * `setOrder` is the order in which Python iterates the set of absent names.
   */
  function Answer(intent: Intent, faculty: seq<FacultyRow>, attendance: seq<AttendanceRow>, date: string,
                  today: Date, grouped: GroupedCounts, setOrder: set<string> -> seq<string>): string
    requires ValidDate(today)
  {
    match intent
    case Greet => Greeting
    case RegisterHelp => RegisterHint
    case ListFaculty => ListReply(faculty)
    case AttendanceOn => AttendanceReply(faculty, attendance, date)
    case MonthlyReport => MonthlyReply(today, grouped.monthly)
    case YearlyReport => YearlyReply(today, grouped.yearly)
    case AbsentOn => AbsentReply(faculty, attendance, date, setOrder)
    case TotalReport => "\U{1F4CA} Total attendance records: " + NatToString(|attendance|)
    case NoIntent => Apology
  }

  /**
   * `classic_chatbot_response` on the stripped question: the reply of the
   * first rule that applies to the lowercased text.
   */
  function Respond(question: string, faculty: seq<FacultyRow>, attendance: seq<AttendanceRow>, today: Date,
                   grouped: GroupedCounts, setOrder: set<string> -> seq<string>): string
    requires ValidDate(today)
  {
    var s := ToLower(question);
    Answer(Classify(s), faculty, attendance, RequestedDate(s, today), today, grouped, setOrder)
  }

  /** Every rule's reply starts differently from the apology. */
  lemma AnswerIsApologyOnlyWithoutIntent(intent: Intent, faculty: seq<FacultyRow>, attendance: seq<AttendanceRow>,
                                         date: string, today: Date, grouped: GroupedCounts,
                                         setOrder: set<string> -> seq<string>)
    requires ValidDate(today)
    ensures Answer(intent, faculty, attendance, date, today, grouped, setOrder) == Apology <==> intent == NoIntent
  {
    var r := Answer(intent, faculty, attendance, date, today, grouped, setOrder);
    match intent
    case Greet => assert r[0] != 'S';
    case RegisterHelp => assert r[0] != 'S';
    case TotalReport =>
      var head := "\U{1F4CA} Total attendance records: ";
      assert r == head + NatToString(|attendance|);
      assert r[0] == head[0];
    case _ =>
  }

  /** The apology is given exactly when no rule applies. */
  lemma ApologyOnlyWithoutIntent(question: string, faculty: seq<FacultyRow>, attendance: seq<AttendanceRow>,
                                 today: Date, grouped: GroupedCounts, setOrder: set<string> -> seq<string>)
    requires ValidDate(today)
    ensures Respond(question, faculty, attendance, today, grouped, setOrder) == Apology
            <==> Classify(ToLower(question)) == NoIntent
  {
    var s := ToLower(question);
    AnswerIsApologyOnlyWithoutIntent(Classify(s), faculty, attendance, RequestedDate(s, today), today, grouped, setOrder);
  }

  // ---------------------------------------------------------------------------
  // ask
  // ---------------------------------------------------------------------------

  datatype AskReply = Refused(message: string) | Answered(response: string, timestamp: string)

  /**
   * `ask`: a question that is empty once stripped is refused and nothing is
   * stored; otherwise the reply is computed and the exchange is stored under
   * the stripped question.
   */
  method Ask(store: Store, question: Option<string>, queryId: string, now: string, today: Date,
             grouped: GroupedCounts, setOrder: set<string> -> seq<string>)
    returns (reply: AskReply)
    requires store.Valid() && ValidDate(today)
    modifies store
    ensures store.Valid()
    ensures store.faculty == old(store.faculty) && store.attendance == old(store.attendance)
    ensures store.admins == old(store.admins) && store.alerts == old(store.alerts)
    ensures store.nextAttendanceId == old(store.nextAttendanceId)
    ensures var q := Strip(FormOr(question, ""));
            && (q == "" ==> reply == Refused("Please enter a question") && store.chatQueries == old(store.chatQueries))
            && (q != "" ==>
                  var response := Respond(q, old(store.faculty), old(store.attendance), today, grouped, setOrder);
                  && reply == Answered(response, now)
                  && store.chatQueries == old(store.chatQueries) + [ChatQuery(queryId, q, response, now)])
  {
    var q := Strip(FormOr(question, ""));
    if q == "" {
      return Refused("Please enter a question");
    }
    var response := Respond(q, store.faculty, store.attendance, today, grouped, setOrder);
    store.CreateChatbotQuery(queryId, q, response, now);
    reply := Answered(response, now);
  }

  /** A question is refused like a missing one exactly when it is made of blanks only. */
  lemma BlankQuestionRefused(question: string)
    ensures Strip(FormOr(Some(question), "")) == "" <==> forall i :: 0 <= i < |question| ==> IsSpace(question[i])
  {
    var left := StripLeft(question);
    if left != [] {
      assert !IsSpace(question[|question| - |left|]);
    }
  }
}
