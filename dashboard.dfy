/**
 * The admin dashboard of routes/dashboard.py: today's counts, the ten most
 * recent records, and the weekly, monthly, department and trend statistics.
 * The clock is the `today` parameter; Python's `date` arithmetic is modelled
 * on year/month/day triples of the proleptic Gregorian calendar.
 */
module Dashboard {
  import opened Common
  import opened DbHandler

  // ---------------------------------------------------------------------------
  // Calendar
  // ---------------------------------------------------------------------------

  datatype Date = Date(year: int, month: nat, day: nat)

  predicate IsLeap(year: int)
  {
    year % 4 == 0 && (year % 100 != 0 || year % 400 == 0)
  }

  /** `calendar.monthrange(year, month)[1]` */
  function DaysInMonth(year: int, month: nat): (n: nat)
    requires 1 <= month <= 12
    ensures 28 <= n <= 31
  {
    if month == 2 then (if IsLeap(year) then 29 else 28)
    else if month == 4 || month == 6 || month == 9 || month == 11 then 30
    else 31
  }

  predicate ValidDate(d: Date)
  {
    1 <= d.month <= 12 && 1 <= d.day <= DaysInMonth(d.year, d.month)
  }

  /** Python's `<` on dates: for valid dates the ordinal order is the (year, month, day) order. */
  predicate Before(a: Date, b: Date)
  {
    a.year < b.year || (a.year == b.year && (a.month < b.month || (a.month == b.month && a.day < b.day)))
  }

  /** `d + timedelta(days=1)` */
  function Next(d: Date): (r: Date)
    requires ValidDate(d)
    ensures ValidDate(r) && Before(d, r)
  {
    if d.day < DaysInMonth(d.year, d.month) then Date(d.year, d.month, d.day + 1)
    else if d.month < 12 then Date(d.year, d.month + 1, 1)
    else Date(d.year + 1, 1, 1)
  }

  /** `d - timedelta(days=1)` */
  function Prev(d: Date): (r: Date)
    requires ValidDate(d)
    ensures ValidDate(r) && Before(r, d)
  {
    if d.day > 1 then Date(d.year, d.month, d.day - 1)
    else if d.month > 1 then Date(d.year, d.month - 1, DaysInMonth(d.year, d.month - 1))
    else Date(d.year - 1, 12, 31)
  }

  /** One day forward undoes one day back. */
  lemma NextPrev(d: Date)
    requires ValidDate(d)
    ensures Next(Prev(d)) == d
  {
  }

  /** `d - timedelta(days=n)` */
  function PrevN(d: Date, n: nat): (r: Date)
    requires ValidDate(d)
    ensures ValidDate(r)
    ensures n > 0 ==> Before(r, d)
  {
    if n == 0 then d
    else
      var p := PrevN(d, n - 1);
      BeforeTransitive(Prev(p), p, d);
      Prev(p)
  }

  lemma BeforeTransitive(a: Date, b: Date, c: Date)
    requires Before(a, b) && (Before(b, c) || b == c)
    ensures Before(a, c)
  {
  }

  /** Stepping forward from n + 1 days back lands on n days back. */
  lemma NextPrevN(d: Date, n: nat)
    requires ValidDate(d)
    ensures Next(PrevN(d, n + 1)) == PrevN(d, n)
  {
    NextPrev(PrevN(d, n));
  }

  /** One step of a loop walking from n days back towards d. */
  lemma StepTowards(d: Date, back: nat)
    requires ValidDate(d)
    ensures back > 0 ==> Next(PrevN(d, back)) == PrevN(d, back - 1) && !Before(d, PrevN(d, back - 1))
    ensures back == 0 ==> Next(PrevN(d, back)) == Next(d) && Before(d, Next(d))
  {
    if back > 0 {
      NextPrevN(d, back - 1);
    }
  }

  /** The n days ending with d, oldest first. */
  function DaysEnding(d: Date, n: nat): (r: seq<Date>)
    requires ValidDate(d)
    ensures |r| == n
    ensures forall k :: 0 <= k < n ==> r[k] == PrevN(d, n - 1 - k)
  {
    seq(n, k requires 0 <= k < n => PrevN(d, n - 1 - k))
  }

  /** The days of DaysEnding are consecutive and end with d. */
  lemma DaysEndingConsecutive(d: Date, n: nat)
    requires ValidDate(d) && n > 0
    ensures DaysEnding(d, n)[n - 1] == d
    ensures forall k :: 0 <= k < n - 1 ==> Next(DaysEnding(d, n)[k]) == DaysEnding(d, n)[k + 1]
  {
    forall k | 0 <= k < n - 1 ensures Next(DaysEnding(d, n)[k]) == DaysEnding(d, n)[k + 1] {
      NextPrevN(d, n - 2 - k);
    }
  }

  // ---------------------------------------------------------------------------
  // Date text
  // ---------------------------------------------------------------------------

  /** A year under `%Y`, padded to four digits. */
  function YearText(year: int): string
  {
    if year >= 0 then ZeroPad(NatToString(year), 4) else "-" + ZeroPad(NatToString(-year), 4)
  }

  /** `strftime('%Y-%m')` */
  function MonthText(year: int, month: nat): string
  {
    YearText(year) + "-" + ZeroPad(NatToString(month), 2)
  }

  /** `strftime('%Y-%m-%d')` */
  function Iso(d: Date): string
  {
    MonthText(d.year, d.month) + "-" + ZeroPad(NatToString(d.day), 2)
  }

  /** Every day's text starts with its month's text. */
  lemma IsoStartsWithMonth(d: Date)
    ensures StartsWith(Iso(d), MonthText(d.year, d.month))
  {
    var m := MonthText(d.year, d.month);
    assert Iso(d)[..|m|] == m;
  }

  /** `strftime('%a')` in the C locale (Sakamoto's day-of-week rule, 0 = Sunday). */
  function DayName(d: Date): string
    requires ValidDate(d)
  {
    var offsets := [0, 3, 2, 5, 0, 3, 5, 1, 4, 6, 2, 4];
    var y := if d.month < 3 then d.year - 1 else d.year;
    var w := (y + y / 4 - y / 100 + y / 400 + offsets[d.month - 1] + d.day) % 7;
    ["Sun", "Mon", "Tue", "Wed", "Thu", "Fri", "Sat"][w]
  }

  // ---------------------------------------------------------------------------
  // Counting records
  // ---------------------------------------------------------------------------

  /**
   * The percentage of present members before rounding: 0 when there are no
   * members rather than a division by zero.
   */
  function Percentage(present: int, total: int): (p: real)
    ensures total <= 0 ==> p == 0.0
    ensures total > 0 && 0 <= present <= total ==> 0.0 <= p <= 100.0
  {
    if total > 0 then present as real / total as real * 100.0 else 0.0
  }

  /** The number of records on a date. */
  function CountOn(rows: seq<AttendanceRow>, date: string): nat
  {
    |OnDate(rows, date)|
  }

  /** No record of the table is on the date, so the day's list is empty. */
  lemma {:induction false} OnDateNone(rows: seq<AttendanceRow>, date: string)
    requires forall r :: r in rows ==> r.date != date
    ensures OnDate(rows, date) == []
  {
    if rows != [] {
      assert rows[0] in rows;
      assert forall r :: r in rows[1..] ==> r in rows;
      OnDateNone(rows[1..], date);
    }
  }

  /** A map from each date that has records to its number of records. */
  ghost predicate CountsByDate(rows: seq<AttendanceRow>, counts: map<string, nat>)
  {
    && (forall d :: d in counts <==> exists r :: r in rows && r.date == d)
    && (forall d :: d in counts ==> counts[d] == CountOn(rows, d))
  }

  /** `counts[date] += 1` on a `defaultdict(int)`. */
  function Increment(counts: map<string, nat>, date: string): map<string, nat>
  {
    if date in counts then counts[date := counts[date] + 1] else counts[date := 1]
  }

  /** Counting one more record keeps the map in step with the table. */
  lemma CountsByDateAppend(rows: seq<AttendanceRow>, r: AttendanceRow, counts: map<string, nat>)
    requires CountsByDate(rows, counts)
    ensures CountsByDate(rows + [r], Increment(counts, r.date))
  {
    var after := Increment(counts, r.date);
    forall d ensures d in after <==> exists x :: x in rows + [r] && x.date == d {
      if d in counts {
        var x :| x in rows && x.date == d;
        assert x in rows + [r];
      }
      if exists x :: x in rows + [r] && x.date == d {
        var x :| x in rows + [r] && x.date == d;
        assert x in rows || x == r;
      }
    }
    forall d | d in after ensures after[d] == CountOn(rows + [r], d) {
      OnDateAppend(rows, [r], d);
      if d == r.date {
        if r.date !in counts {
          OnDateNone(rows, d);
        }
        assert OnDate([r], d) == [r] + OnDate([], d);
      } else {
        assert OnDate([r], d) == OnDate([], d);
      }
    }
  }

  /** The `defaultdict(int)` of records per date, built record by record. */
  method CountByDate(rows: seq<AttendanceRow>) returns (counts: map<string, nat>)
    ensures CountsByDate(rows, counts)
  {
    counts := map[];
    for i := 0 to |rows|
      invariant CountsByDate(rows[..i], counts)
    {
      CountsByDateAppend(rows[..i], rows[i], counts);
      assert rows[..i + 1] == rows[..i] + [rows[i]];
      var date := rows[i].date;
      if date in counts {
        counts := counts[date := counts[date] + 1];
      } else {
        counts := counts[date := 1];
      }
    }
    assert rows[..|rows|] == rows;
  }

  /** `counts.get(date, 0)` is the number of records on the date, also for a date with none. */
  lemma CountsGet(rows: seq<AttendanceRow>, counts: map<string, nat>, date: string)
    requires CountsByDate(rows, counts)
    ensures (if date in counts then counts[date] else 0) == CountOn(rows, date)
  {
    if date !in counts {
      OnDateNone(rows, date);
    }
  }

  /** The records whose date starts with the month's text. */
  function InMonth(rows: seq<AttendanceRow>, month: string): (r: seq<AttendanceRow>)
    ensures forall x :: x in r <==> x in rows && StartsWith(x.date, month)
  {
    if rows == [] then []
    else (if StartsWith(rows[0].date, month) then [rows[0]] else []) + InMonth(rows[1..], month)
  }

  /** Narrowing to the month loses no record of a day of that month. */
  lemma {:induction false} InMonthKeepsDay(rows: seq<AttendanceRow>, month: string, date: string)
    requires StartsWith(date, month)
    ensures OnDate(InMonth(rows, month), date) == OnDate(rows, date)
  {
    if rows != [] {
      InMonthKeepsDay(rows[1..], month, date);
      var head := if StartsWith(rows[0].date, month) then [rows[0]] else [];
      OnDateAppend(head, InMonth(rows[1..], month), date);
      if rows[0].date == date {
        assert head == [rows[0]];
        assert OnDate(head, date) == [rows[0]] + OnDate([], date);
      } else if head != [] {
        assert OnDate(head, date) == OnDate(head[1..], date);
      }
    }
  }

  // ---------------------------------------------------------------------------
  // Weekly and trend statistics
  // ---------------------------------------------------------------------------

  /** One entry of the weekly statistics. */
  datatype DayStat = DayStat(date: string, dayName: string, present: nat, absent: int, percentage: real)

  function DayStatOf(d: Date, attendance: seq<AttendanceRow>, totalFaculty: nat): DayStat
    requires ValidDate(d)
  {
    var present := CountOn(attendance, Iso(d));
    DayStat(Iso(d), DayName(d), present, totalFaculty - present, Percentage(present, totalFaculty))
  }

  /**
   * `api_weekly_stats`: the loop from six days back to today. It yields one
   * entry per day of DaysEnding(today, 7), oldest first.
   */
  method WeeklyStats(attendance: seq<AttendanceRow>, totalFaculty: nat, today: Date) returns (data: seq<DayStat>)
    requires ValidDate(today)
    ensures |data| == 7
    ensures forall k :: 0 <= k < 7 ==> data[k] == DayStatOf(DaysEnding(today, 7)[k], attendance, totalFaculty)
  {
    var current := PrevN(today, 6);
    ghost var back: int := 6;
    data := [];
    while !Before(today, current)
      invariant ValidDate(current)
      invariant -1 <= back <= 6
      invariant back >= 0 ==> current == PrevN(today, back)
      invariant back == -1 ==> current == Next(today)
      invariant Before(today, current) <==> back == -1
      invariant |data| == 6 - back
      invariant forall k :: 0 <= k < |data| ==> data[k] == DayStatOf(PrevN(today, 6 - k), attendance, totalFaculty)
      decreases back + 1
    {
      data := data + [DayStatOf(current, attendance, totalFaculty)];
      StepTowards(today, back);
      current := Next(current);
      back := back - 1;
    }
  }

  /** One entry of the trend statistics. */
  datatype TrendStat = TrendStat(date: string, present: nat, percentage: real)

  function TrendStatOf(d: Date, attendance: seq<AttendanceRow>, totalFaculty: nat): TrendStat
  {
    var present := CountOn(attendance, Iso(d));
    TrendStat(Iso(d), present, Percentage(present, totalFaculty))
  }

  /**
   * `api_attendance_trends`: records counted per date, then the loop from 29
   * days back to today. It yields one entry per day of DaysEnding(today, 30).
   */
  method AttendanceTrends(attendance: seq<AttendanceRow>, totalFaculty: nat, today: Date)
    returns (data: seq<TrendStat>)
    requires ValidDate(today)
    ensures |data| == 30
    ensures forall k :: 0 <= k < 30 ==> data[k] == TrendStatOf(DaysEnding(today, 30)[k], attendance, totalFaculty)
  {
    var daily := CountByDate(attendance);
    var current := PrevN(today, 29);
    ghost var back: int := 29;
    data := [];
    while !Before(today, current)
      invariant ValidDate(current)
      invariant -1 <= back <= 29
      invariant back >= 0 ==> current == PrevN(today, back)
      invariant back == -1 ==> current == Next(today)
      invariant Before(today, current) <==> back == -1
      invariant |data| == 29 - back
      invariant forall k :: 0 <= k < |data| ==> data[k] == TrendStatOf(PrevN(today, 29 - k), attendance, totalFaculty)
      decreases back + 1
    {
      var entry := TrendEntry(attendance, daily, current, totalFaculty);
      data := data + [entry];
      StepTowards(today, back);
      current := Next(current);
      back := back - 1;
    }
  }

  /** One pass of the trend loop: the day's count read from the per-date counts. */
  method TrendEntry(attendance: seq<AttendanceRow>, daily: map<string, nat>, current: Date, totalFaculty: nat)
    returns (entry: TrendStat)
    requires CountsByDate(attendance, daily)
    ensures entry == TrendStatOf(current, attendance, totalFaculty)
  {
    var dateText := Iso(current);
    CountsGet(attendance, daily, dateText);
    var present := if dateText in daily then daily[dateText] else 0;
    entry := TrendStat(dateText, present, Percentage(present, totalFaculty));
  }

  // ---------------------------------------------------------------------------
  // Monthly statistics
  // ---------------------------------------------------------------------------

  /** One entry of the monthly statistics. */
  datatype MonthDay = MonthDay(date: string, day: nat, present: nat, absent: int, percentage: real)

  function MonthDayOf(d: Date, attendance: seq<AttendanceRow>, totalFaculty: nat): MonthDay
  {
    var present := CountOn(attendance, Iso(d));
    MonthDay(Iso(d), d.day, present, totalFaculty - present, Percentage(present, totalFaculty))
  }

  /**
   * `api_monthly_stats`: the month's records counted per date, then one entry
   * for each day of the month up to today, in day order.
   */
  method MonthlyStats(attendance: seq<AttendanceRow>, totalFaculty: nat, today: Date) returns (data: seq<MonthDay>)
    requires ValidDate(today)
    ensures |data| == today.day
    ensures forall k :: 0 <= k < |data| ==>
              data[k] == MonthDayOf(Date(today.year, today.month, k + 1), attendance, totalFaculty)
  {
    var month := MonthText(today.year, today.month);
    var monthRows := InMonth(attendance, month);
    var daily := CountByDate(monthRows);
    var days := DaysInMonth(today.year, today.month);
    data := [];
    for day := 1 to days + 1
      invariant |data| == if day - 1 < today.day then day - 1 else today.day
      invariant forall k :: 0 <= k < |data| ==>
                  data[k] == MonthDayOf(Date(today.year, today.month, k + 1), attendance, totalFaculty)
    {
      var check := Date(today.year, today.month, day);
      if !Before(today, check) {
        var entry := MonthEntry(attendance, month, monthRows, daily, check, totalFaculty);
        data := data + [entry];
      }
    }
  }

  /** One pass of the monthly loop: the day's count read from the month's per-date counts. */
  method MonthEntry(attendance: seq<AttendanceRow>, month: string, monthRows: seq<AttendanceRow>,
                    daily: map<string, nat>, check: Date, totalFaculty: nat)
    returns (entry: MonthDay)
    requires month == MonthText(check.year, check.month) && monthRows == InMonth(attendance, month)
    requires CountsByDate(monthRows, daily)
    ensures entry == MonthDayOf(check, attendance, totalFaculty)
  {
    var dateText := Iso(check);
    CountsGet(monthRows, daily, dateText);
    IsoStartsWithMonth(check);
    InMonthKeepsDay(attendance, month, dateText);
    var present := if dateText in daily then daily[dateText] else 0;
    entry := MonthDay(dateText, check.day, present, totalFaculty - present, Percentage(present, totalFaculty));
  }

  // ---------------------------------------------------------------------------
  // Department statistics
  // ---------------------------------------------------------------------------

  /** A department's counters, in the order departments first appear. */
  datatype DeptCount = DeptCount(department: string, total: nat, present: nat)

  /** `dept_stats[dept]['total'] += 1` and, for a present member, `['present'] += 1`. */
  function Bump(stats: seq<DeptCount>, dept: string, isPresent: bool): (r: seq<DeptCount>)
    ensures |r| == |stats| || |r| == |stats| + 1
  {
    var inc: nat := if isPresent then 1 else 0;
    if stats == [] then [DeptCount(dept, 1, inc)]
    else if stats[0].department == dept then
      [DeptCount(dept, stats[0].total + 1, stats[0].present + inc)] + stats[1..]
    else [stats[0]] + Bump(stats[1..], dept, isPresent)
  }

  /** The counters after the loop over the faculty table. */
  function DeptCounts(faculty: seq<FacultyRow>, present: set<string>): seq<DeptCount>
  {
    if faculty == [] then []
    else
      var last := faculty[|faculty| - 1];
      Bump(DeptCounts(faculty[..|faculty| - 1], present), last.department, last.facultyId in present)
  }

  function SumTotals(stats: seq<DeptCount>): nat
  {
    if stats == [] then 0 else stats[0].total + SumTotals(stats[1..])
  }

  /** Members of the department, and of those the present ones. */
  function MembersOf(faculty: seq<FacultyRow>, dept: string): nat
  {
    if faculty == [] then 0
    else MembersOf(faculty[..|faculty| - 1], dept) + (if faculty[|faculty| - 1].department == dept then 1 else 0)
  }

  function PresentMembersOf(faculty: seq<FacultyRow>, dept: string, present: set<string>): nat
  {
    if faculty == [] then 0
    else
      var last := faculty[|faculty| - 1];
      PresentMembersOf(faculty[..|faculty| - 1], dept, present)
      + (if last.department == dept && last.facultyId in present then 1 else 0)
  }

  /** The counters of a department, zero when it has none. */
  function CountOf(stats: seq<DeptCount>, dept: string): DeptCount
  {
    if stats == [] then DeptCount(dept, 0, 0)
    else if stats[0].department == dept then stats[0]
    else CountOf(stats[1..], dept)
  }

  /** The departments of a list of counters. */
  function Departments(stats: seq<DeptCount>): set<string>
  {
    if stats == [] then {} else {stats[0].department} + Departments(stats[1..])
  }

  /** No department has two counters. */
  predicate DistinctDepartments(stats: seq<DeptCount>)
  {
    stats == [] || (stats[0].department !in Departments(stats[1..]) && DistinctDepartments(stats[1..]))
  }

  /** Well-formed counters: distinct departments, each with a member, present never above total. */
  predicate WellFormed(stats: seq<DeptCount>)
  {
    && DistinctDepartments(stats)
    && (forall c :: c in stats ==> 1 <= c.total && c.present <= c.total)
  }

  lemma {:induction false} BumpSum(stats: seq<DeptCount>, dept: string, isPresent: bool)
    ensures SumTotals(Bump(stats, dept, isPresent)) == SumTotals(stats) + 1
  {
    if stats != [] && stats[0].department != dept {
      BumpSum(stats[1..], dept, isPresent);
    } else if stats != [] {
      assert Bump(stats, dept, isPresent)[1..] == stats[1..];
    }
  }

  lemma {:induction false} BumpCountOf(stats: seq<DeptCount>, dept: string, isPresent: bool, other: string)
    ensures CountOf(Bump(stats, dept, isPresent), other).total
            == CountOf(stats, other).total + (if other == dept then 1 else 0)
    ensures CountOf(Bump(stats, dept, isPresent), other).present
            == CountOf(stats, other).present + (if other == dept && isPresent then 1 else 0)
  {
    if stats != [] && stats[0].department != dept {
      BumpCountOf(stats[1..], dept, isPresent, other);
    } else if stats != [] {
      assert Bump(stats, dept, isPresent)[1..] == stats[1..];
    }
  }

  /** Counting a member adds its department to the departments seen. */
  lemma {:induction false} BumpDepartments(stats: seq<DeptCount>, dept: string, isPresent: bool)
    ensures Departments(Bump(stats, dept, isPresent)) == Departments(stats) + {dept}
  {
    if stats != [] && stats[0].department != dept {
      BumpDepartments(stats[1..], dept, isPresent);
    } else if stats != [] {
      assert Bump(stats, dept, isPresent)[1..] == stats[1..];
    }
  }

  lemma {:induction false} BumpWellFormed(stats: seq<DeptCount>, dept: string, isPresent: bool)
    requires WellFormed(stats)
    ensures WellFormed(Bump(stats, dept, isPresent))
  {
    var r := Bump(stats, dept, isPresent);
    if stats != [] && stats[0].department != dept {
      var tail := stats[1..];
      assert forall c :: c in tail ==> c in stats;
      BumpWellFormed(tail, dept, isPresent);
      BumpDepartments(tail, dept, isPresent);
      assert r == [stats[0]] + Bump(tail, dept, isPresent);
      assert r[1..] == Bump(tail, dept, isPresent);
    } else if stats != [] {
      assert r[1..] == stats[1..];
      assert forall c :: c in r[1..] ==> c in stats;
    }
  }

  /**
   * The counters of `api_department_stats` are well formed, their totals add
   * up to the faculty count, and each department's counters count exactly its
   * members and its present members.
   */
  lemma {:induction false} DeptCountsMeaning(faculty: seq<FacultyRow>, present: set<string>)
    ensures WellFormed(DeptCounts(faculty, present))
    ensures SumTotals(DeptCounts(faculty, present)) == |faculty|
    ensures forall dept :: CountOf(DeptCounts(faculty, present), dept).total == MembersOf(faculty, dept)
    ensures forall dept :: CountOf(DeptCounts(faculty, present), dept).present == PresentMembersOf(faculty, dept, present)
  {
    if faculty != [] {
      var init := faculty[..|faculty| - 1];
      var last := faculty[|faculty| - 1];
      var before := DeptCounts(init, present);
      DeptCountsMeaning(init, present);
      BumpWellFormed(before, last.department, last.facultyId in present);
      BumpSum(before, last.department, last.facultyId in present);
      forall dept ensures CountOf(DeptCounts(faculty, present), dept).total == MembersOf(faculty, dept)
                  && CountOf(DeptCounts(faculty, present), dept).present == PresentMembersOf(faculty, dept, present)
      {
        BumpCountOf(before, last.department, last.facultyId in present, dept);
      }
    }
  }

  /** One entry of `api_department_stats`. */
  datatype DeptStat = DeptStat(department: string, total: nat, present: nat, absent: int, percentage: real)

  function DeptStatOf(c: DeptCount): DeptStat
  {
    DeptStat(c.department, c.total, c.present, c.total - c.present, Percentage(c.present, c.total))
  }

  /** The department counting loop shared by `api_department_stats` and `admin_dashboard`. */
  method CountDepartments(faculty: seq<FacultyRow>, present: set<string>) returns (counts: seq<DeptCount>)
    ensures counts == DeptCounts(faculty, present)
  {
    counts := [];
    for i := 0 to |faculty|
      invariant counts == DeptCounts(faculty[..i], present)
    {
      assert faculty[..i + 1][..i] == faculty[..i];
      counts := Bump(counts, faculty[i].department, faculty[i].facultyId in present);
    }
    assert faculty[..|faculty|] == faculty;
  }

  /** `api_department_stats`: the counting loop, then one entry per department. */
  method DepartmentStats(faculty: seq<FacultyRow>, attendance: seq<AttendanceRow>, today: string)
    returns (data: seq<DeptStat>)
    ensures var counts := DeptCounts(faculty, PresentIds(OnDate(attendance, today)));
            |data| == |counts| && forall k :: 0 <= k < |data| ==> data[k] == DeptStatOf(counts[k])
  {
    var todayRows := OnDate(attendance, today);
    var counts := CountDepartments(faculty, PresentIds(todayRows));
    data := [];
    for k := 0 to |counts|
      invariant |data| == k && forall j :: 0 <= j < k ==> data[j] == DeptStatOf(counts[j])
    {
      data := data + [DeptStatOf(counts[k])];
    }
  }

  /** In the department entries present never exceeds total, and absent is what remains. */
  lemma DepartmentStatsBounds(faculty: seq<FacultyRow>, present: set<string>, k: nat)
    requires k < |DeptCounts(faculty, present)|
    ensures var s := DeptStatOf(DeptCounts(faculty, present)[k]);
            0 <= s.present <= s.total && s.absent == s.total - s.present && 0 <= s.absent
            && 0.0 <= s.percentage <= 100.0
  {
    DeptCountsMeaning(faculty, present);
  }

  // ---------------------------------------------------------------------------
  // admin_dashboard
  // ---------------------------------------------------------------------------

  /** The sort key of the recent list. */
  function RecordKey(r: AttendanceRow): string
  {
    r.date + " " + r.time
  }

  /** A recent record, with the member's name and department when the member is known. */
  datatype RecentEntry = RecentEntry(record: AttendanceRow, facultyName: Option<string>, department: Option<string>)

  datatype DashboardStats = DashboardStats(totalFaculty: nat, presentToday: nat, absentToday: int, percentage: real,
                                           departments: seq<DeptCount>, monthRecords: nat)

  /** The ten newest records by "date time", newest first. */
  function Recent(attendance: seq<AttendanceRow>): (r: seq<AttendanceRow>)
    ensures |r| == if |attendance| < 10 then |attendance| else 10
    ensures multiset(r) <= multiset(attendance)
  {
    var sorted := SortDesc(attendance, RecordKey);
    var r := Take(sorted, 10);
    assert sorted == r + sorted[|r|..];
    r
  }

  /** The recent list is newest first, and no record left out is newer than one shown. */
  lemma RecentAreNewest(attendance: seq<AttendanceRow>)
    ensures SortedDesc(Recent(attendance), RecordKey)
    ensures var sorted := SortDesc(attendance, RecordKey);
            forall i, j :: 0 <= i < |Recent(attendance)| <= j < |sorted| ==>
              LexLeq(RecordKey(sorted[j]), RecordKey(Recent(attendance)[i]))
  {
    SortDescSorted(attendance, RecordKey);
  }

  function Annotate(r: AttendanceRow, faculty: seq<FacultyRow>): (e: RecentEntry)
    ensures e.record == r
    ensures e.facultyName.Some? <==> HasFaculty(faculty, r.facultyId)
    ensures e.facultyName.Some? ==> e.facultyName.value == FindFaculty(faculty, r.facultyId).value.name
                                    && e.department == Some(FindFaculty(faculty, r.facultyId).value.department)
    ensures e.facultyName.None? ==> e.department.None?
  {
    match FindFaculty(faculty, r.facultyId)
    case None => RecentEntry(r, None, None)
    case Some(f) => RecentEntry(r, Some(f.name), Some(f.department))
  }

  /** The annotation loop of `admin_dashboard`, one entry per record, in order. */
  method AnnotateAll(rows: seq<AttendanceRow>, faculty: seq<FacultyRow>) returns (recent: seq<RecentEntry>)
    ensures |recent| == |rows| && forall k :: 0 <= k < |rows| ==> recent[k] == Annotate(rows[k], faculty)
  {
    recent := [];
    for i := 0 to |rows|
      invariant |recent| == i && forall k :: 0 <= k < i ==> recent[k] == Annotate(rows[k], faculty)
    {
      recent := recent + [Annotate(rows[i], faculty)];
    }
  }

  /**
   * `admin_dashboard`: the day's counts, the ten newest records annotated with
   * their member, the department head counts and the records of the month.
   */
  method AdminDashboard(store: Store, today: Date) returns (stats: DashboardStats, recent: seq<RecentEntry>)
    requires ValidDate(today)
    ensures stats.totalFaculty == |store.faculty|
    ensures stats.presentToday == CountOn(store.attendance, Iso(today))
    ensures stats.absentToday == stats.totalFaculty - stats.presentToday
    ensures stats.percentage == Percentage(stats.presentToday, stats.totalFaculty)
    ensures stats.departments == DeptCounts(store.faculty, {})
    ensures stats.monthRecords == |InMonth(store.attendance, MonthText(today.year, today.month))|
    ensures |recent| == |Recent(store.attendance)|
    ensures forall k :: 0 <= k < |recent| ==> recent[k] == Annotate(Recent(store.attendance)[k], store.faculty)
  {
    var faculty, attendance := store.faculty, store.attendance;
    var total := |faculty|;
    var presentToday := |store.GetAttendanceByDate(Iso(today))|;
    recent := AnnotateAll(Recent(attendance), faculty);
    var departments := CountDepartments(faculty, {});
    var monthRows := InMonth(attendance, MonthText(today.year, today.month));
    stats := DashboardStats(total, presentToday, total - presentToday, Percentage(presentToday, total),
                            departments, |monthRows|);
  }
}
