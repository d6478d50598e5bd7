// The calendar helpers: resolving a Hungarian weekday name to a date in the
// current week, and the two predicates that decide how a course appears in
// the timetable (shown at all, and highlighted as chosen).
//
// Dates are day numbers counted from 1970-01-01, a Thursday; the time of day
// (the helper anchors every date at local noon) is not represented.

module TimetableUtils {
  import opened Model

  /** The ISO day number the helper's table gives each weekday name;
      Sunday is listed as 0, not 7. */
  function DayIndex(name: string): (k: Option<int>)
    ensures k.Some? ==> 0 <= k.value <= 6
    ensures name == "Vasárnap" <==> k == Some(0)
    ensures name == "Hétfő" <==> k == Some(1)
  {
    if name == "Hétfő" then Some(1)
    else if name == "Kedd" then Some(2)
    else if name == "Szerda" then Some(3)
    else if name == "Csütörtök" then Some(4)
    else if name == "Péntek" then Some(5)
    else if name == "Szombat" then Some(6)
    else if name == "Vasárnap" then Some(0)
    else None
  }

  /** `Date.prototype.getDay`: 0 for Sunday up to 6 for Saturday. */
  function JsWeekday(day: int): (w: int)
    ensures 0 <= w <= 6
  {
    (day + 4) % 7
  }

  /** The weekday with Sunday counted as 7, as the helper computes it. */
  function IsoWeekday(day: int): (w: int)
    ensures 1 <= w <= 7
    ensures w == 7 <==> JsWeekday(day) == 0
  {
    if JsWeekday(day) == 0 then 7 else JsWeekday(day)
  }

  /** The Monday of the Monday-to-Sunday week that contains `day`. */
  function MondayOf(day: int): (m: int)
    ensures m <= day < m + 7
    ensures IsoWeekday(m) == 1
  {
    day - (IsoWeekday(day) - 1)
  }

  /** `getDateOfThisWeeksDay(name)` evaluated on `today`; `None` stands for
      the invalid date an unknown name produces. */
  function DateOfThisWeeksDay(today: int, name: string): (d: Option<int>)
    ensures d.Some? <==> DayIndex(name).Some?
  {
    match DayIndex(name)
    case None => None
    case Some(k) => Some(today + (k - IsoWeekday(today)))
  }

  /** Adding whole weeks does not change the weekday. */
  lemma {:induction false} IsoWeekdayShift(m: int, k: int)
    requires IsoWeekday(m) == 1 && 0 <= k <= 6
    ensures IsoWeekday(m + k) == k + 1
  {
    assert JsWeekday(m) == 1;
    assert (m + 4) % 7 == 1;
    assert (m + k + 4) % 7 == (1 + k) % 7;
  }

  /** The resolved date is this week's Monday plus the table's index minus one. */
  lemma DateIsMondayPlusIndex(today: int, name: string)
    requires DayIndex(name).Some?
    ensures DateOfThisWeeksDay(today, name) == Some(MondayOf(today) + DayIndex(name).value - 1)
  {
  }

  /** Monday to Saturday resolve to that weekday inside the week of `today`. */
  lemma {:induction false} WeekdayInThisWeek(today: int, name: string)
    requires DayIndex(name).Some? && DayIndex(name).value >= 1
    ensures var d := DateOfThisWeeksDay(today, name).value;
      && IsoWeekday(d) == DayIndex(name).value
      && MondayOf(today) <= d <= MondayOf(today) + 6
  {
    var k := DayIndex(name).value;
    DateIsMondayPlusIndex(today, name);
    IsoWeekdayShift(MondayOf(today), k - 1);
  }

  /** Every day of the same week resolves a name to the same date. */
  lemma {:induction false} SameWeekSameDate(a: int, b: int, name: string)
    requires MondayOf(a) == MondayOf(b)
    ensures DateOfThisWeeksDay(a, name) == DateOfThisWeeksDay(b, name)
  {
    if DayIndex(name).Some? {
      DateIsMondayPlusIndex(a, name);
      DateIsMondayPlusIndex(b, name);
    }
  }

  /** "Vasárnap" resolves to the Sunday before this week's Monday, not after it. */
  lemma {:induction false} SundayIsBeforeMonday(today: int)
    ensures DateOfThisWeeksDay(today, "Vasárnap") == Some(MondayOf(today) - 1)
    ensures IsoWeekday(MondayOf(today) - 1) == 7
  {
    DateIsMondayPlusIndex(today, "Vasárnap");
    var m := MondayOf(today);
    assert (m + 4) % 7 == 1;
    assert (m - 1 + 4) % 7 == 0;
  }

  // ---------------------------------------------------------------------------
  // Display and highlight predicates
  // ---------------------------------------------------------------------------

  /** `isDisplayed(subject, course)`, branch for branch. */
  function IsDisplayed(s: Subject, c: Course): (r: bool)
    ensures s.status.chosen.PerType? ==>
      (r <==> c.show && Lookup(s.status.chosen.m, c.kind) in {Num(0), Str(c.course)})
    ensures s.status.chosen.PerType? && c.kind !in s.status.chosen.m ==> !r
    ensures s.status.chosen == Scalar(Num(-1)) ==> r
    ensures s.status.chosen.Scalar? && s.status.chosen.v != Num(-1) ==>
      (r <==> c.show && s.status.chosen.v in {Num(0), Str(c.course)})
  {
    var ch := s.status.chosen;
    if ch.PerType? && Lookup(ch.m, c.kind) == Num(0) && c.show then true
    else if ch.PerType? && Lookup(ch.m, c.kind) == Str(c.course) && c.show then true
    else if ch == Scalar(Num(-1)) then true
    else if (ch == Scalar(Str(c.course)) || ch == Scalar(Num(0))) && c.show then true
    else false
  }

  /** `isChoosen(subject, course)`, branch for branch. */
  function IsChoosen(s: Subject, c: Course): (r: bool)
    ensures s.status.chosen.PerType? ==> (r <==> Lookup(s.status.chosen.m, c.kind) == Str(c.course))
    ensures s.status.chosen.Scalar? ==>
      (r <==> s.status.chosen.v == Str(c.course) || s.status.chosen.v == Num(-1))
  {
    var ch := s.status.chosen;
    if ch.PerType? then
      if Lookup(ch.m, c.kind) == Str(c.course) then true else false
    else if ch.v == Str(c.course) then true
    else if ch.v == Num(-1) then true
    else false
  }

  /** A chosen course that is not hidden is always displayed, in every mode. */
  lemma ChosenIsDisplayed(s: Subject, c: Course)
    requires c.show && IsChoosen(s, c)
    ensures IsDisplayed(s, c)
  {
  }

  /** A hidden course is displayed only when the subject is locked to all courses. */
  lemma HiddenNotDisplayed(s: Subject, c: Course)
    requires !c.show && s.status.chosen != Scalar(Num(-1))
    ensures !IsDisplayed(s, c)
  {
  }
}
