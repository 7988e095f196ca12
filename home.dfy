/** The schedule wizard page (`Home`): the 12-hour to 24-hour clock
    conversion, the request body it posts to the generator (filled-in breaks
    converted, courses written as "SUBJECT-NUMBER", preferences passed through)
    and the four-step counter that drives the page. */
module Home {
  import opened Results
  import opened JsText

  /** What the page throws: reading `toString` of `undefined`. */
  datatype ScriptError = TypeError

  // ---------------------------------------------------------------------------
  // convertTo24Hour
  // ---------------------------------------------------------------------------

  /** The hour after the AM/PM correction: a PM hour below 12 moves on by 12,
      12 AM becomes 0, and every other hour or suffix is left alone. */
  function DayHour(hour: nat, period: string): (h: nat)
    ensures h % 12 == hour % 12
    ensures period == "PM" ==> h >= 12
    ensures period == "AM" && hour <= 12 ==> h < 12
    ensures period != "AM" && period != "PM" ==> h == hour
  {
    if period == "PM" && hour < 12 then hour + 12
    else if period == "AM" && hour == 12 then 0
    else hour
  }

  /** The correction on a JavaScript number: NaN and a missing suffix
      (`undefined`) compare unequal to everything, so they pass through. */
  function Adjust(hours: JsNumber, period: Option<string>): (r: JsNumber)
    ensures r.NaN? <==> hours.NaN?
    ensures period.None? ==> r == hours
    ensures r.Num? ==> r.n % 12 == hours.n % 12
  {
    if hours.Num? && period.Some? then Num(DayHour(hours.n, period.value)) else hours
  }

  function Pad2(s: string): string {
    PadStart(s, 2, '0')
  }

  /** The "HH:MM:00" text the page produces for a whole hour and minute. */
  function Clock(hour: nat, minute: nat): string {
    Pad2(NatToString(hour)) + ":" + Pad2(NatToString(minute)) + ":00"
  }

  /** convertTo24Hour: the text before the first space is split at ':' into
      hours and minutes, the text after it (if any) is the period. Without a
      ':' the minutes are `undefined` and printing them throws. */
  function ConvertTo24Hour(time: string): (r: Result<string, ScriptError>)
    ensures r.Err? <==> ':' !in Split(time, ' ')[0]
  {
    var pieces := Split(time, ' ');
    var period := if |pieces| > 1 then Some(pieces[1]) else None;
    var fields := Split(pieces[0], ':');
    SplitPieces(pieces[0], ':');
    var hours := Adjust(ToNumber(fields[0]), period);
    if |fields| < 2 then Err(TypeError)
    else
      var hh := Pad2(NumberToString(hours));
      var mm := Pad2(NumberToString(ToNumber(fields[1])));
      Ok(hh + ":" + mm + ":00")
  }

  /** Once the text is known to split into a time part and a period, and the
      time part into hours and minutes, the conversion prints the corrected
      hour and the minute, each padded to two digits. */
  lemma ConvertPieces(time: string, hs: string, ms: string, period: string)
    requires IsDigits(hs) && IsDigits(ms)
    requires |Split(time, ' ')| == 2 && Split(time, ' ')[1] == period
    requires Split(Split(time, ' ')[0], ':') == [hs, ms]
    ensures ConvertTo24Hour(time) == Ok(Clock(DayHour(ParseDigits(hs), period), ParseDigits(ms)))
  {
    var pieces := Split(time, ' ');
    var fields := Split(pieces[0], ':');
    assert fields[0] == hs && fields[1] == ms && |fields| == 2;
    assert ToNumber(hs) == Num(ParseDigits(hs));
    assert ToNumber(ms) == Num(ParseDigits(ms));
    var hours := Adjust(ToNumber(fields[0]), Some(period));
    assert hours == Num(DayHour(ParseDigits(hs), period));
    assert NumberToString(hours) == NatToString(DayHour(ParseDigits(hs), period));
  }

  /** "H:M P" with decimal hours and minutes and a one-word period splits
      into exactly those pieces. */
  lemma ClockTextPieces(time: string, hs: string, ms: string, period: string)
    requires IsDigits(hs) && IsDigits(ms) && ' ' !in period
    requires time == hs + ":" + ms + " " + period
    ensures Split(time, ' ') == [hs + ":" + ms, period]
    ensures Split(hs + ":" + ms, ':') == [hs, ms]
  {
    var timePart := hs + ":" + ms;
    assert ' ' !in timePart by {
      assert forall i :: 0 <= i < |timePart| ==> timePart[i] == ':' || IsDigit(timePart[i]);
    }
    assert time == timePart + [' '] + period;
    SplitAfterPiece(timePart, period, ' ');
    SplitWithoutSeparator(period, ' ');
    assert timePart == hs + [':'] + ms;
    assert ':' !in hs;
    SplitAfterPiece(hs, ms, ':');
    assert ':' !in ms;
    SplitWithoutSeparator(ms, ':');
  }

  /** On "H:M P" with decimal hours and minutes and a one-word period, the
      conversion prints the corrected hour and the minute, each padded to
      two digits. */
  lemma ConvertClockText(time: string, hs: string, ms: string, period: string)
    requires IsDigits(hs) && IsDigits(ms) && ' ' !in period
    requires time == hs + ":" + ms + " " + period
    ensures ConvertTo24Hour(time) == Ok(Clock(DayHour(ParseDigits(hs), period), ParseDigits(ms)))
  {
    ClockTextPieces(time, hs, ms, period);
    ConvertPieces(time, hs, ms, period);
  }

  /** A reading on a 12-hour clock. */
  datatype TwelveHourTime = TwelveHourTime(hour: nat, minute: nat, period: string)

  predicate ValidTwelveHour(t: TwelveHourTime) {
    1 <= t.hour <= 12 && t.minute < 60 && (t.period == "AM" || t.period == "PM")
  }

  /** A reading written as "HH:MM AM". */
  function Format12(t: TwelveHourTime): string {
    Pad2(NatToString(t.hour)) + ":" + Pad2(NatToString(t.minute)) + " " + t.period
  }

  /** The hour after correction of a valid reading is an hour of the day,
      before noon exactly for AM. */
  lemma DayHourRange(t: TwelveHourTime)
    requires ValidTwelveHour(t)
    ensures DayHour(t.hour, t.period) < 24
    ensures DayHour(t.hour, t.period) < 12 <==> t.period == "AM"
  {
  }

  /** The 12-hour reading of an hour and minute of the day. */
  function TwelveHourOf(hour: nat, minute: nat): (t: TwelveHourTime)
    requires hour < 24 && minute < 60
    ensures ValidTwelveHour(t) && t.minute == minute
    ensures DayHour(t.hour, t.period) == hour
  {
    TwelveHourTime(if hour % 12 == 0 then 12 else hour % 12, minute, if hour < 12 then "AM" else "PM")
  }

  /** Correcting a valid reading and reading it back gives the reading, so no
      two valid readings give the same hour. */
  lemma TwelveHourOfDayHour(t: TwelveHourTime)
    requires ValidTwelveHour(t)
    ensures TwelveHourOf(DayHour(t.hour, t.period), t.minute) == t
  {
  }

  /** A two-digit-or-shorter number padded to two digits reads back as itself. */
  lemma PaddedNumeral(n: nat)
    requires n < 100
    ensures |Pad2(NatToString(n))| == 2 && IsDigits(Pad2(NatToString(n)))
    ensures ParseDigits(Pad2(NatToString(n))) == n
  {
    PadStartShape(NatToString(n), 2, '0');
    ZeroPaddingKeepsValue(NatToString(n), 2);
    ParsePrinted(n);
  }

  /** The 24-hour text has a fixed layout from which hour and minute are read back. */
  lemma ClockFields(hour: nat, minute: nat)
    requires hour < 100 && minute < 100
    ensures |Clock(hour, minute)| == 8
    ensures Clock(hour, minute)[2] == ':' && Clock(hour, minute)[5..] == ":00"
    ensures IsDigits(Clock(hour, minute)[..2]) && ParseDigits(Clock(hour, minute)[..2]) == hour
    ensures IsDigits(Clock(hour, minute)[3..5]) && ParseDigits(Clock(hour, minute)[3..5]) == minute
  {
    var hh, mm := Pad2(NatToString(hour)), Pad2(NatToString(minute));
    assert |hh| == 2 && IsDigits(hh) && ParseDigits(hh) == hour by {
      PaddedNumeral(hour);
    }
    assert |mm| == 2 && IsDigits(mm) && ParseDigits(mm) == minute by {
      PaddedNumeral(minute);
    }
    assert Clock(hour, minute) == hh + ":" + mm + ":00";
    ClockLayout(hh, mm);
  }

  lemma ClockLayout(hh: string, mm: string)
    requires |hh| == 2 && |mm| == 2
    ensures var c := hh + ":" + mm + ":00";
      |c| == 8 && c[..2] == hh && c[2] == ':' && c[3..5] == mm && c[5..] == ":00"
  {
  }

  /** A valid reading converts to its hour of the day and its minute. */
  lemma ConvertValidReading(t: TwelveHourTime)
    requires ValidTwelveHour(t)
    ensures ConvertTo24Hour(Format12(t)) == Ok(Clock(DayHour(t.hour, t.period), t.minute))
    ensures DayHour(t.hour, t.period) < 24
  {
    var hh, mm := Pad2(NatToString(t.hour)), Pad2(NatToString(t.minute));
    assert IsDigits(hh) && ParseDigits(hh) == t.hour by {
      PaddedNumeral(t.hour);
    }
    assert IsDigits(mm) && ParseDigits(mm) == t.minute by {
      PaddedNumeral(t.minute);
    }
    assert ' ' !in t.period;
    ConvertClockText(Format12(t), hh, mm, t.period);
  }

  /** Distinct valid readings convert to distinct texts. */
  lemma ConvertInjective(t1: TwelveHourTime, t2: TwelveHourTime)
    requires ValidTwelveHour(t1) && ValidTwelveHour(t2)
    requires ConvertTo24Hour(Format12(t1)) == ConvertTo24Hour(Format12(t2))
    ensures t1 == t2
  {
    ConvertValidReading(t1);
    ConvertValidReading(t2);
    var h1, h2 := DayHour(t1.hour, t1.period), DayHour(t2.hour, t2.period);
    ClockFields(h1, t1.minute);
    ClockFields(h2, t2.minute);
    assert h1 == h2 && t1.minute == t2.minute;
    TwelveHourOfDayHour(t1);
    TwelveHourOfDayHour(t2);
  }

  /** Every hour and minute of the day is the conversion of some valid reading. */
  lemma ConvertOnto(hour: nat, minute: nat)
    requires hour < 24 && minute < 60
    ensures ConvertTo24Hour(Format12(TwelveHourOf(hour, minute))) == Ok(Clock(hour, minute))
  {
    ConvertValidReading(TwelveHourOf(hour, minute));
  }

  // ---------------------------------------------------------------------------
  // formattedBreaks
  // ---------------------------------------------------------------------------

  datatype BreakPeriod = BreakPeriod(startTime: string, endTime: string)

  /** A break as sent to the generator: `begin_time` and `end_time`. */
  datatype FormattedBreak = FormattedBreak(beginTime: string, endTime: string)

  /** Both times entered: a non-empty string is truthy, the empty one is not. */
  predicate Filled(b: BreakPeriod): (r: bool)
    ensures r ==> |b.startTime| >= 1 && |b.endTime| >= 1
    ensures !r ==> b.startTime == "" || b.endTime == ""
  {
    b.startTime != [] && b.endTime != []
  }

  /** The filter step: the filled-in breaks, in their order. */
  function FilledBreaks(breaks: seq<BreakPeriod>): (r: seq<BreakPeriod>)
    ensures |r| <= |breaks|
    ensures forall b :: b in r <==> b in breaks && Filled(b)
    decreases |breaks|
  {
    if breaks == [] then []
    else
      var rest := FilledBreaks(breaks[1..]);
      assert forall b :: b in breaks <==> b == breaks[0] || b in breaks[1..] by {
        assert breaks == [breaks[0]] + breaks[1..];
      }
      if Filled(breaks[0]) then [breaks[0]] + rest else rest
  }

  /** Filtering a concatenation filters each part in place, so the kept
      breaks stay in their input order. */
  lemma {:induction false} FilledBreaksAppend(a: seq<BreakPeriod>, b: seq<BreakPeriod>)
    ensures FilledBreaks(a + b) == FilledBreaks(a) + FilledBreaks(b)
    decreases |a|
  {
    if a == [] {
      assert a + b == b;
    } else {
      assert (a + b)[0] == a[0] && (a + b)[1..] == a[1..] + b;
      FilledBreaksAppend(a[1..], b);
    }
  }

  /** Filtering twice keeps the same breaks as filtering once. */
  lemma {:induction false} FilledBreaksIdempotent(breaks: seq<BreakPeriod>)
    ensures FilledBreaks(FilledBreaks(breaks)) == FilledBreaks(breaks)
    decreases |breaks|
  {
    if breaks != [] {
      FilledBreaksIdempotent(breaks[1..]);
      var rest := FilledBreaks(breaks[1..]);
      if Filled(breaks[0]) {
        assert ([breaks[0]] + rest)[1..] == rest;
      }
    }
  }

  /** The map step on one break: start time first, then end time. */
  function FormatBreak(b: BreakPeriod): (r: Result<FormattedBreak, ScriptError>)
    ensures r.Err? <==> ':' !in Split(b.startTime, ' ')[0] || ':' !in Split(b.endTime, ' ')[0]
    ensures r.Ok? ==> Ok(r.value.beginTime) == ConvertTo24Hour(b.startTime)
                      && Ok(r.value.endTime) == ConvertTo24Hour(b.endTime)
  {
    match ConvertTo24Hour(b.startTime)
    case Err(e) => Err(e)
    case Ok(begin) =>
      match ConvertTo24Hour(b.endTime)
      case Err(e) => Err(e)
      case Ok(end) => Ok(FormattedBreak(begin, end))
  }

  /** The map step, one break at a time. */
  function Conversions(filled: seq<BreakPeriod>): seq<Result<FormattedBreak, ScriptError>> {
    seq(|filled|, i requires 0 <= i < |filled| => FormatBreak(filled[i]))
  }

  /** formattedBreaks: the filled-in breaks, each with both times converted;
      the first break that throws stops the whole list. */
  function FormattedBreaks(breaks: seq<BreakPeriod>): (r: Result<seq<FormattedBreak>, ScriptError>)
    ensures r.Ok? <==> forall b :: b in breaks && Filled(b) ==> FormatBreak(b).Ok?
    ensures r.Ok? ==> |r.value| == |FilledBreaks(breaks)|
    ensures r.Ok? ==> forall i :: 0 <= i < |r.value| ==> FormatBreak(FilledBreaks(breaks)[i]) == Ok(r.value[i])
  {
    var filled := FilledBreaks(breaks);
    var rs := Conversions(filled);
    assert (forall i :: 0 <= i < |rs| ==> rs[i].Ok?)
       <==> (forall b :: b in breaks && Filled(b) ==> FormatBreak(b).Ok?) by {
      if forall i :: 0 <= i < |rs| ==> rs[i].Ok? {
        forall b | b in breaks && Filled(b)
          ensures FormatBreak(b).Ok?
        {
          var i :| 0 <= i < |filled| && filled[i] == b;
          assert rs[i] == FormatBreak(b);
        }
      }
      if forall b :: b in breaks && Filled(b) ==> FormatBreak(b).Ok? {
        forall i | 0 <= i < |rs|
          ensures rs[i].Ok?
        {
          assert filled[i] in filled;
        }
      }
    }
    Collect(rs)
  }

  /** Breaks whose times are valid readings all convert, one entry per break. */
  lemma {:induction false} ValidBreaksConvert(readings: seq<(TwelveHourTime, TwelveHourTime)>)
    requires forall i :: 0 <= i < |readings| ==> ValidTwelveHour(readings[i].0) && ValidTwelveHour(readings[i].1)
    ensures FormattedBreaks(BreaksOf(readings)).Ok?
    ensures FormattedBreaks(BreaksOf(readings)).value
         == seq(|readings|, i requires 0 <= i < |readings| =>
                FormattedBreak(Clock(DayHour(readings[i].0.hour, readings[i].0.period), readings[i].0.minute),
                               Clock(DayHour(readings[i].1.hour, readings[i].1.period), readings[i].1.minute)))
    decreases |readings|
  {
    var breaks := BreaksOf(readings);
    assert forall i :: 0 <= i < |breaks| ==> Filled(breaks[i]);
    AllFilledKept(breaks);
    forall i | 0 <= i < |readings|
      ensures FormatBreak(breaks[i])
           == Ok(FormattedBreak(Clock(DayHour(readings[i].0.hour, readings[i].0.period), readings[i].0.minute),
                                Clock(DayHour(readings[i].1.hour, readings[i].1.period), readings[i].1.minute)))
    {
      ConvertValidReading(readings[i].0);
      ConvertValidReading(readings[i].1);
    }
  }

  /** The break rows a user would fill in from a list of readings. */
  function BreaksOf(readings: seq<(TwelveHourTime, TwelveHourTime)>): (r: seq<BreakPeriod>)
    ensures |r| == |readings|
    ensures forall i :: 0 <= i < |r| ==> r[i] == BreakPeriod(Format12(readings[i].0), Format12(readings[i].1))
  {
    seq(|readings|, i requires 0 <= i < |readings| => BreakPeriod(Format12(readings[i].0), Format12(readings[i].1)))
  }

  /** A list of filled-in breaks passes the filter unchanged. */
  lemma {:induction false} AllFilledKept(breaks: seq<BreakPeriod>)
    requires forall i :: 0 <= i < |breaks| ==> Filled(breaks[i])
    ensures FilledBreaks(breaks) == breaks
    decreases |breaks|
  {
    if breaks != [] {
      AllFilledKept(breaks[1..]);
      assert [breaks[0]] + breaks[1..] == breaks;
    }
  }

  // ---------------------------------------------------------------------------
  // payload.courses
  // ---------------------------------------------------------------------------

  datatype Course = Course(subject: string, courseNumber: string)

  /** `${subject}-${courseNumber}` */
  function CourseId(c: Course): (id: string)
    ensures |id| == |c.subject| + 1 + |c.courseNumber|
    ensures id[..|c.subject|] == c.subject && id[|c.subject|] == '-'
    ensures id[|c.subject| + 1..] == c.courseNumber
  {
    c.subject + "-" + c.courseNumber
  }

  /** payload.courses: one identifier per course, in the same order. */
  function CourseIds(courses: seq<Course>): (ids: seq<string>)
    ensures |ids| == |courses|
    ensures forall i :: 0 <= i < |courses| ==> ids[i] == CourseId(courses[i])
    decreases |courses|
  {
    if courses == [] then []
    else
      var rest := CourseIds(courses[1..]);
      assert forall i :: 1 <= i < |courses| ==> courses[i] == courses[1..][i - 1];
      [CourseId(courses[0])] + rest
  }

  /** Reading an identifier back: subject up to the first '-', number after it. */
  function ParseCourseId(id: string): Option<Course> {
    var parts := Split(id, '-');
    if |parts| < 2 then None else Some(Course(parts[0], Join(parts[1..], '-')))
  }

  /** An identifier names its course again when the subject holds no '-'. */
  lemma CourseIdRoundTrip(c: Course)
    requires '-' !in c.subject
    ensures ParseCourseId(CourseId(c)) == Some(c)
  {
    assert CourseId(c) == c.subject + ['-'] + c.courseNumber;
    SplitAfterPiece(c.subject, c.courseNumber, '-');
    var parts := Split(CourseId(c), '-');
    assert parts[1..] == Split(c.courseNumber, '-');
    JoinSplit(c.courseNumber, '-');
  }

  /** With '-'-free subjects the course list is recovered from the identifiers,
      so distinct course lists send distinct identifier lists. */
  lemma CourseIdsRecoverCourses(courses: seq<Course>)
    requires forall i :: 0 <= i < |courses| ==> '-' !in courses[i].subject
    ensures forall i :: 0 <= i < |courses| ==> ParseCourseId(CourseIds(courses)[i]) == Some(courses[i])
  {
    forall i | 0 <= i < |courses|
      ensures ParseCourseId(CourseIds(courses)[i]) == Some(courses[i])
    {
      CourseIdRoundTrip(courses[i]);
    }
  }

  // ---------------------------------------------------------------------------
  // The request body
  // ---------------------------------------------------------------------------

  /** Day and time weights are floating-point values the page only forwards. */
  datatype Preferences = Preferences(days: seq<string>, timesOfDay: string, dayWeight: real, timeWeight: real)

  datatype Payload = Payload(courses: seq<string>, breaks: seq<FormattedBreak>,
                             preferredDays: seq<string>, preferredTime: string,
                             dayWeight: real, timeWeight: real)

  /** The body handleGenerateSchedules posts; a break that throws while being
      converted stops it before anything is sent. */
  function BuildPayload(courses: seq<Course>, breaks: seq<BreakPeriod>, preferences: Preferences)
    : (r: Result<Payload, ScriptError>)
    ensures r.Ok? <==> forall b :: b in breaks && Filled(b) ==> FormatBreak(b).Ok?
    ensures r.Ok? ==> |r.value.courses| == |courses| && |r.value.breaks| <= |breaks|
    ensures r.Ok? ==> r.value.courses == CourseIds(courses)
    ensures r.Ok? ==> Ok(r.value.breaks) == FormattedBreaks(breaks)
    ensures r.Ok? ==> r.value.preferredDays == preferences.days && r.value.preferredTime == preferences.timesOfDay
    ensures r.Ok? ==> r.value.dayWeight == preferences.dayWeight && r.value.timeWeight == preferences.timeWeight
  {
    match FormattedBreaks(breaks)
    case Err(e) => Err(e)
    case Ok(formatted) =>
      Ok(Payload(CourseIds(courses), formatted, preferences.days, preferences.timesOfDay,
                 preferences.dayWeight, preferences.timeWeight))
  }

  // ---------------------------------------------------------------------------
  // The step counter
  // ---------------------------------------------------------------------------

  /** A decoded JSON response. */
  datatype Json =
    | JNull
    | JBool(b: bool)
    | JNumber(x: real)
    | JString(s: string)
    | JArray(items: seq<Json>)
    | JObject(members: seq<(string, Json)>)

  /** `Array.isArray(data) ? data : []` */
  function StoredSchedules(data: Json): (r: seq<Json>)
    ensures data.JArray? ==> r == data.items
    ensures r == [] <==> !data.JArray? || data.items == []
  {
    if data.JArray? then data.items else []
  }

  /** The page state: the step (1 courses, 2 breaks, 3 preferences,
      4 generated schedules) and what the user entered. */
  class Wizard {
    var step: int
    var courses: seq<Course>
    var breaks: seq<BreakPeriod>
    var preferences: Preferences
    var schedules: seq<Json>

    /** The buttons keep the step between 1 and 4. */
    predicate Valid()
      reads this
    {
      1 <= step <= 4
    }

    /** The navigation buttons are shown before the last step. */
    predicate ShowsNavigation()
      reads this
    {
      step < 4
    }

    /** "Previous" is shown from the second step on, with the navigation. */
    predicate ShowsPrevious()
      reads this
    {
      ShowsNavigation() && step > 1
    }

    /** The main button generates at step 3 and moves on otherwise. */
    predicate PrimaryGenerates()
      reads this
    {
      step == 3
    }

    constructor()
      ensures Valid() && step == 1
      ensures courses == [Course("", "")] && breaks == [BreakPeriod("", "")]
      ensures preferences == Preferences([], "", 0.5, 0.5) && schedules == []
    {
      step := 1;
      courses := [Course("", "")];
      breaks := [BreakPeriod("", "")];
      preferences := Preferences([], "", 0.5, 0.5);
      schedules := [];
    }

    method HandleNext()
      modifies this
      ensures step == old(step) + 1
      ensures courses == old(courses) && breaks == old(breaks)
      ensures preferences == old(preferences) && schedules == old(schedules)
    {
      step := step + 1;
    }

    method HandlePrevious()
      modifies this
      ensures step == old(step) - 1
      ensures courses == old(courses) && breaks == old(breaks)
      ensures preferences == old(preferences) && schedules == old(schedules)
    {
      step := step - 1;
    }

    /** setCourses, from the course input section. */
    method SetCourses(value: seq<Course>)
      modifies this
      ensures courses == value
      ensures step == old(step) && breaks == old(breaks)
      ensures preferences == old(preferences) && schedules == old(schedules)
    {
      courses := value;
    }

    /** setBreaks, from the breaks input section. */
    method SetBreaks(value: seq<BreakPeriod>)
      modifies this
      ensures breaks == value
      ensures step == old(step) && courses == old(courses)
      ensures preferences == old(preferences) && schedules == old(schedules)
    {
      breaks := value;
    }

    /** setPreferences, from the preferences input section. */
    method SetPreferences(value: Preferences)
      modifies this
      ensures preferences == value
      ensures step == old(step) && courses == old(courses)
      ensures breaks == old(breaks) && schedules == old(schedules)
    {
      preferences := value;
    }

    /** A click on "Previous", which is only on screen at steps 2 and 3. */
    method ClickPrevious()
      requires Valid() && ShowsPrevious()
      modifies this
      ensures Valid() && step == old(step) - 1
      ensures courses == old(courses) && breaks == old(breaks)
      ensures preferences == old(preferences) && schedules == old(schedules)
    {
      HandlePrevious();
    }

    /** A click on the main button, which is on screen at steps 1 to 3. At
        step 3 it builds and sends the request; `response` is what the
        request produced (None when it failed) and, once it arrives, the
        schedules are stored and the page moves to step 4. Returns the body
        that was sent. */
    method ClickPrimary(response: Option<Json>) returns (sent: Option<Payload>)
      requires Valid() && ShowsNavigation()
      modifies this
      ensures Valid()
      ensures courses == old(courses) && breaks == old(breaks) && preferences == old(preferences)
      ensures old(step) != 3 ==> step == old(step) + 1 && sent == None && schedules == old(schedules)
      ensures old(step) == 3 ==>
                sent == (var p := BuildPayload(courses, breaks, preferences); if p.Ok? then Some(p.value) else None)
      ensures old(step) == 3 ==> (step == 4 <==> sent.Some? && response.Some?)
      ensures old(step) == 3 && step != 4 ==> step == 3 && schedules == old(schedules)
      ensures step == 4 ==> old(step) == 3 && schedules == StoredSchedules(response.value)
    {
      sent := None;
      if step == 3 {
        var payload := BuildPayload(courses, breaks, preferences);
        if payload.Ok? {
          sent := Some(payload.value);
          if response.Some? {
            schedules := StoredSchedules(response.value);
            step := step + 1;
          }
        }
      } else {
        HandleNext();
      }
    }
  }

  /** Starting from a fresh page, steps 1 and 2 move on with the main button
      and step 3 only moves on once the request has produced a response. */
  method WalkThrough(courses: seq<Course>, breaks: seq<BreakPeriod>, preferences: Preferences, response: Json)
    returns (w: Wizard, sent: Option<Payload>)
    ensures w.step == (if BuildPayload(courses, breaks, preferences).Ok? then 4 else 3)
    ensures sent.Some? <==> BuildPayload(courses, breaks, preferences).Ok?
    ensures w.step == 4 ==> w.schedules == StoredSchedules(response)
  {
    w := new Wizard();
    w.SetCourses(courses);
    var ignored := w.ClickPrimary(None);
    w.SetBreaks(breaks);
    ignored := w.ClickPrimary(None);
    w.SetPreferences(preferences);
    sent := w.ClickPrimary(Some(response));
  }
}
