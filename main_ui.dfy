/**
 * Helpers shared by every page: date formatting, the no-file case of upload
 * validation, the toast icon lookup and the table search filter.
 */
module MainUi {
  import opened Common

  // ---------------------------------------------------------------------------
  // utils.formatDate
  // ---------------------------------------------------------------------------

  /**
   * The local-time fields a JavaScript `Date` reports: `month` is
   * `getMonth()`, counted from 0.
   */
  datatype JsDate = JsDate(year: int, month: nat, day: nat, hours: nat, minutes: nat, seconds: nat)

  /** The ranges the getters of a valid `Date` keep to. */
  predicate ValidJsDate(d: JsDate)
  {
    d.month < 12 && 1 <= d.day <= 31 && d.hours < 24 && d.minutes < 60 && d.seconds < 60
  }

  /** `String(n).padStart(2, '0')` */
  function Pad2(n: nat): string
  {
    ZeroPad(NatToString(n), 2)
  }

  /** Below 10, the padded field is a zero then the digit. */
  lemma Pad2OneDigit(n: nat)
    requires n < 10
    ensures Pad2(n) == ['0', DigitChar(n)]
  {
    assert NatToString(n) == [DigitChar(n)];
    assert ZeroPad([DigitChar(n)], 2) == ZeroPad("0" + [DigitChar(n)], 2);
  }

  /** From 10 to 99, the padded field is the number's own two digits. */
  lemma Pad2TwoDigits(n: nat)
    requires 10 <= n < 100
    ensures Pad2(n) == [DigitChar(n / 10), DigitChar(n % 10)]
  {
    var q := n / 10;
    assert q < 10;
    assert NatToString(q) == [DigitChar(q)];
    assert NatToString(n) == [DigitChar(q)] + [DigitChar(n % 10)];
  }

  /** The value of a two-digit field. */
  function TwoDigits(s: string): int
    requires |s| == 2
  {
    (s[0] as int - '0' as int) * 10 + (s[1] as int - '0' as int)
  }

  /** A padded field reads back as the number it was made from. */
  lemma Pad2RoundTrip(n: nat)
    requires n < 100
    ensures |Pad2(n)| == 2
    ensures TwoDigits(Pad2(n)) == n
  {
    var q, u := n / 10, n % 10;
    assert n == q * 10 + u;
    if n < 10 {
      Pad2OneDigit(n);
    } else {
      Pad2TwoDigits(n);
    }
    assert Pad2(n) == [DigitChar(q), DigitChar(u)];
    assert DigitChar(q) as int - '0' as int == q;
    assert DigitChar(u) as int - '0' as int == u;
  }

  /** `${year}`: no padding, a minus sign for years before 0. */
  function YearText(year: int): (r: string)
    ensures |r| > 0
  {
    if year < 0 then "-" + NatToString(-year) else NatToString(year)
  }

  /** The 'YYYY-MM-DD' case; the month is `getMonth() + 1`. */
  function IsoDate(d: JsDate): string
  {
    YearText(d.year) + "-" + Pad2(d.month + 1) + "-" + Pad2(d.day)
  }

  /** The 'DD/MM/YYYY' case. */
  function DayFirstDate(d: JsDate): string
  {
    Pad2(d.day) + "/" + Pad2(d.month + 1) + "/" + YearText(d.year)
  }

  /** The 'YYYY-MM-DD HH:mm:ss' case. */
  function DateTime(d: JsDate): string
  {
    IsoDate(d) + " " + Clock(d) + ":" + Pad2(d.seconds)
  }

  /** The 'HH:mm' case. */
  function Clock(d: JsDate): string
  {
    Pad2(d.hours) + ":" + Pad2(d.minutes)
  }

  /**
   * `formatDate` for the four formats it knows; any other format falls to
   * `toLocaleDateString`, whose text depends on the browser's locale (None).
   */
  function FormatDate(d: JsDate, format: string): (r: Option<string>)
    ensures r.Some? <==> format in {"YYYY-MM-DD", "DD/MM/YYYY", "YYYY-MM-DD HH:mm:ss", "HH:mm"}
  {
    if format == "YYYY-MM-DD" then Some(IsoDate(d))
    else if format == "DD/MM/YYYY" then Some(DayFirstDate(d))
    else if format == "YYYY-MM-DD HH:mm:ss" then Some(DateTime(d))
    else if format == "HH:mm" then Some(Clock(d))
    else None
  }

  /** Where the parts of `a + sep + b` sit, for a one-character separator. */
  lemma PartsAround(a: string, sep: string, b: string)
    requires |sep| == 1
    ensures var r := a + sep + b;
            && |r| == |a| + 1 + |b|
            && r[..|a|] == a && r[|a|] == sep[0] && r[|a| + 1..] == b
  {
    var r := a + sep + b;
    assert r[..|a|] == a;
    assert r[|a| + 1..] == b;
  }

  /** Where the parts of `y + sep + m + sep + dd` sit, for a two-character middle part. */
  lemma ThreeFields(y: string, sep: string, m: string, dd: string)
    requires |sep| == 1 && |m| == 2
    ensures var r := y + sep + m + sep + dd;
            var n := |y|;
            && |r| == n + 4 + |dd|
            && r[..n] == y && r[n] == sep[0] && r[n + 3] == sep[0]
            && r[n + 1..n + 3] == m && r[n + 4..] == dd
  {
    var r, n, head := y + sep + m + sep + dd, |y|, y + sep + m;
    PartsAround(head, sep, dd);
    PartsAround(y, sep, m);
    assert r[..n] == r[..n + 3][..n];
    assert r[n + 1..n + 3] == r[..n + 3][n + 1..];
  }

  /**
   * The ISO form is the year, then the calendar month (`getMonth()` + 1)
   * and the day as two-digit fields.
   */
  lemma IsoDateFields(d: JsDate)
    requires ValidJsDate(d)
    ensures var r := IsoDate(d);
            var n := |YearText(d.year)|;
            && |r| == n + 6
            && r[..n] == YearText(d.year) && r[n] == '-' && r[n + 3] == '-'
            && TwoDigits(r[n + 1..n + 3]) == d.month + 1
            && TwoDigits(r[n + 4..]) == d.day
  {
    var y, m, dd := YearText(d.year), Pad2(d.month + 1), Pad2(d.day);
    Pad2RoundTrip(d.month + 1);
    Pad2RoundTrip(d.day);
    var r, n := IsoDate(d), |y|;
    assert r == y + "-" + m + "-" + dd;
    ThreeFields(y, "-", m, dd);
    assert r[n + 1..n + 3] == m;
    assert r[n + 4..] == dd;
  }

  /** The day-first form holds the same day and month, swapped around. */
  lemma DayFirstFields(d: JsDate)
    requires ValidJsDate(d)
    ensures var r := DayFirstDate(d);
            && r[2] == '/' && r[5] == '/'
            && TwoDigits(r[..2]) == d.day
            && TwoDigits(r[3..5]) == d.month + 1
            && r[6..] == YearText(d.year)
  {
    var y, m, dd := YearText(d.year), Pad2(d.month + 1), Pad2(d.day);
    Pad2RoundTrip(d.month + 1);
    Pad2RoundTrip(d.day);
    var r := DayFirstDate(d);
    assert r == dd + "/" + m + "/" + y;
    ThreeFields(dd, "/", m, y);
    assert r[..2] == dd;
    assert r[3..5] == m;
  }

  /** The clock form is always five characters, `hh:mm`. */
  lemma ClockFields(d: JsDate)
    requires ValidJsDate(d)
    ensures var r := Clock(d);
            && |r| == 5 && r[2] == ':'
            && TwoDigits(r[..2]) == d.hours
            && TwoDigits(r[3..]) == d.minutes
  {
    Pad2RoundTrip(d.hours);
    Pad2RoundTrip(d.minutes);
    PartsAround(Pad2(d.hours), ":", Pad2(d.minutes));
  }

  /** The date-and-time form starts with the ISO date and ends with the clock and seconds. */
  lemma DateTimeExtendsIso(d: JsDate)
    requires ValidJsDate(d)
    ensures var r := DateTime(d);
            && StartsWith(r, IsoDate(d) + " " + Clock(d))
            && |r| == |IsoDate(d)| + 9
            && TwoDigits(r[|r| - 2..]) == d.seconds
  {
    Pad2RoundTrip(d.hours);
    Pad2RoundTrip(d.minutes);
    Pad2RoundTrip(d.seconds);
    var head, sec := IsoDate(d) + " " + Clock(d), Pad2(d.seconds);
    var r := DateTime(d);
    assert r == head + ":" + sec;
    PartsAround(head, ":", sec);
    assert r[|r| - 2..] == sec;
  }

  // ---------------------------------------------------------------------------
  // utils.validateFile
  // ---------------------------------------------------------------------------

  /** A browser `File`: its MIME type and size in bytes. */
  datatype FileInfo = FileInfo(mimeType: string, size: nat)

  const NoFileError := "No file selected"

  /**
   * `validateFile`: with no file the one error is returned. With a file
   * the type check reads `this.config.allowedImageTypes`, and `this` (the
   * `utils` object) has no `config`, so the call throws a TypeError.
   */
  method ValidateFile(file: Option<FileInfo>) returns (r: Result<seq<string>>)
    ensures r.Ok? <==> file.None?
    ensures file.None? ==> r.value == [NoFileError]
  {
    var errors: seq<string> := [];
    if file.None? {
      errors := errors + [NoFileError];
      return Ok(errors);
    }
    return Raised("TypeError: Cannot read properties of undefined (reading 'allowedImageTypes')");
  }

  // ---------------------------------------------------------------------------
  // ui.getToastIcon
  // ---------------------------------------------------------------------------

  /** The icon table of `getToastIcon`. */
  const ToastIcons: map<string, string> := map[
    "success" := "check-circle",
    "danger" := "exclamation-triangle",
    "warning" := "exclamation-triangle",
    "info" := "info-circle",
    "primary" := "info-circle"
  ]

  /** `icons[type] || 'info-circle'` */
  function GetToastIcon(toastType: string): (r: string)
    ensures r in {"check-circle", "exclamation-triangle", "info-circle"}
    ensures r == "check-circle" <==> toastType == "success"
    ensures r == "exclamation-triangle" <==> toastType in {"danger", "warning"}
    ensures toastType !in ToastIcons ==> r == "info-circle"
  {
    assert "check-circle"[0] == 'c' && "exclamation-triangle"[0] == 'e' && "info-circle"[0] == 'i';
    if toastType in ToastIcons && ToastIcons[toastType] != "" then ToastIcons[toastType] else "info-circle"
  }

  // ---------------------------------------------------------------------------
  // handleSearch
  // ---------------------------------------------------------------------------

  /** Whether a row with text `text` stays visible for the search `term`. */
  predicate Matches(text: string, term: string)
  {
    Contains(ToLower(text), ToLower(term))
  }

  /**
   * `handleSearch`: `texts` are the target elements' `textContent`, and
   * `shown[i]` is whether element i keeps its display ('') rather than
   * being hidden ('none').
   */
  method HandleSearch(term: string, texts: seq<string>, shown: array<bool>)
    requires shown.Length == |texts|
    modifies shown
    ensures forall i :: 0 <= i < |texts| ==> (shown[i] <==> Matches(texts[i], term))
  {
    var searchTerm := ToLower(term);
    for i := 0 to |texts|
      invariant forall j :: 0 <= j < i ==> (shown[j] <==> Matches(texts[j], term))
    {
      var text := ToLower(texts[i]);
      if Contains(text, searchTerm) {
        shown[i] := true;
      } else {
        shown[i] := false;
      }
    }
  }

  /** Every text contains the empty text. */
  lemma {:induction false} ContainsEmpty(s: string)
    ensures Contains(s, "")
  {
    assert StartsWith(s, "");
  }

  /** An empty search shows every element. */
  lemma EmptySearchShowsAll(texts: seq<string>)
    ensures forall i :: 0 <= i < |texts| ==> Matches(texts[i], "")
  {
    forall i | 0 <= i < |texts|
      ensures Matches(texts[i], "")
    {
      ContainsEmpty(ToLower(texts[i]));
    }
  }

  /** Lowercasing works character by character, so it distributes over concatenation. */
  lemma LowerAppend(a: string, b: string)
    ensures ToLower(a + b) == ToLower(a) + ToLower(b)
  {
    assert forall i :: 0 <= i < |a + b| ==> ToLower(a + b)[i] == (ToLower(a) + ToLower(b))[i];
  }

  /** Typing more of a term never brings a hidden element back. */
  lemma LongerTermHidesMore(text: string, term: string, more: string)
    requires Matches(text, term + more)
    ensures Matches(text, term)
  {
    var s, t, u := ToLower(text), ToLower(term), ToLower(more);
    LowerAppend(term, more);
    ContainsAt(s, t + u);
    var i :| OccursAt(s, t + u, i);
    assert s[i..i + |t|] == s[i..i + |t + u|][..|t|];
    assert (t + u)[..|t|] == t;
    assert OccursAt(s, t, i);
    ContainsAt(s, t);
  }

  /** The search ignores case: a term and its lowercase form show the same elements. */
  lemma SearchIgnoresCase(text: string, term: string)
    ensures Matches(text, term) <==> Matches(text, ToLower(term))
  {
    assert ToLower(ToLower(term)) == ToLower(term);
  }
}
