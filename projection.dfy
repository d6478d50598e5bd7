// The weekly calendar: every course of every shown subject becomes one
// calendar event placed on this week's date for its weekday, coloured and
// hidden according to the subject's selection; clicking an event toggles
// the selection of its course.

module Projection {
  import opened Model
  import opened TimetableUtils
  import Store

  /** An event's start or end: the date (a day number, written out by the
      calendar as `YYYY-MM-DD`) followed by `T` and the clock time. */
  datatype Stamp = Stamp(date: int, clock: string)

  datatype EventProps = EventProps(
    title: string,
    subjectId: int,
    instructor: string,
    location: string,
    course: string,
    kind: string,
    notes: string)

  datatype Event = Event(
    title: string,
    start: Stamp,
    end: Stamp,
    borderColor: string,
    backgroundColor: string,
    display: string,
    classNames: seq<string>,
    props: EventProps)

  const Black := "#000000"

  /** The event of one course of a subject; `None` where the weekday name is
      unknown and the date conversion throws. */
  function CourseEvent(s: Subject, c: Course, today: int): (e: Option<Event>)
    ensures e.Some? <==> DayIndex(c.day).Some?
    ensures e.Some? ==> var ev := e.value;
      && ev.title == s.name
      && ev.start == Stamp(DateOfThisWeeksDay(today, c.day).value, c.startTime + ":00")
      && ev.end == Stamp(DateOfThisWeeksDay(today, c.day).value, c.endTime + ":00")
      && ev.borderColor == s.status.color
      && (IsChoosen(s, c) ==> ev.backgroundColor == s.status.color)
      && (!IsChoosen(s, c) ==> ev.backgroundColor == Black)
      && (ev.display == "" <==> IsDisplayed(s, c))
      && (ev.display != "" ==> ev.display == "none")
      && |ev.classNames| == 2 && ev.classNames[0] == "cursor-pointer"
      && ("border-dashed" in ev.classNames <==> c.kind == Lecture)
      && (c.kind != Lecture ==> ev.classNames[1] == "")
      && ev.props == EventProps(s.name, s.id, c.instructor, c.location, c.course, c.kind, c.notes)
  {
    match DateOfThisWeeksDay(today, c.day)
    case None => None
    case Some(date) =>
      Some(Event(
        s.name,
        Stamp(date, c.startTime + ":00"),
        Stamp(date, c.endTime + ":00"),
        s.status.color,
        if IsChoosen(s, c) then s.status.color else Black,
        if IsDisplayed(s, c) then "" else "none",
        ["cursor-pointer", if c.kind == Lecture then "border-dashed" else ""],
        EventProps(s.name, s.id, c.instructor, c.location, c.course, c.kind, c.notes)))
  }

  /** `courses.map(course => …)` over the given courses of `s`. */
  function EventsOf(s: Subject, cs: seq<Course>, today: int): (r: Option<seq<Event>>)
    ensures r.Some? <==> forall c :: c in cs ==> DayIndex(c.day).Some?
    ensures r.Some? ==>
      && |r.value| == |cs|
      && forall k :: 0 <= k < |cs| ==> CourseEvent(s, cs[k], today) == Some(r.value[k])
  {
    if cs == [] then Some([])
    else
      match CourseEvent(s, cs[0], today)
      case None => None
      case Some(e) =>
        match EventsOf(s, cs[1..], today)
        case None =>
          assert forall c :: c in cs[1..] ==> c in cs;
          None
        case Some(rest) =>
          assert forall c :: c in cs ==> c == cs[0] || c in cs[1..];
          Some([e] + rest)
  }

  /** `setCourses(subject)`: no events for a hidden subject, otherwise one per
      course in course order. */
  function SetCourses(s: Subject, today: int): (r: Option<seq<Event>>)
    ensures !s.status.show ==> r == Some([])
    ensures s.status.show ==> r == EventsOf(s, s.courses, today)
  {
    if !s.status.show then Some([]) else EventsOf(s, s.courses, today)
  }

  /** `eventsJSON.flatMap(setCourses)`. */
  function AllEvents(store: seq<Subject>, today: int): (r: Option<seq<Event>>)
  {
    if store == [] then Some([])
    else
      match SetCourses(store[0], today)
      case None => None
      case Some(first) =>
        match AllEvents(store[1..], today)
        case None => None
        case Some(rest) => Some(first + rest)
  }

  /** The number of courses of the shown subjects. */
  function ShownCourses(store: seq<Subject>): nat
  {
    if store == [] then 0
    else (if store[0].status.show then |store[0].courses| else 0) + ShownCourses(store[1..])
  }

  /** Events are hidden, never dropped: there is one per course of every shown subject. */
  lemma {:induction false} AllEventsCount(store: seq<Subject>, today: int)
    requires AllEvents(store, today).Some?
    ensures |AllEvents(store, today).value| == ShownCourses(store)
  {
    if store != [] {
      AllEventsCount(store[1..], today);
    }
  }

  /** Every event comes from a course of a shown subject. */
  lemma {:induction false} AllEventsFromShownCourses(store: seq<Subject>, today: int, e: Event)
    requires AllEvents(store, today).Some? && e in AllEvents(store, today).value
    ensures exists i, k :: 0 <= i < |store| && store[i].status.show && 0 <= k < |store[i].courses|
                           && CourseEvent(store[i], store[i].courses[k], today) == Some(e)
  {
    var first := SetCourses(store[0], today).value;
    var rest := AllEvents(store[1..], today).value;
    assert AllEvents(store, today).value == first + rest;
    if e in first {
      var k :| 0 <= k < |first| && first[k] == e;
      assert CourseEvent(store[0], store[0].courses[k], today) == Some(e);
    } else {
      AllEventsFromShownCourses(store[1..], today, e);
      var i, k :| 0 <= i < |store[1..]| && store[1..][i].status.show && 0 <= k < |store[1..][i].courses|
                  && CourseEvent(store[1..][i], store[1..][i].courses[k], today) == Some(e);
      assert store[i + 1] == store[1..][i];
    }
  }

  /** The weekdays the calendar hides: Sunday always, Saturday unless the
      setting asks for it (as `getDay` numbers). */
  function HiddenDays(saturday: bool): (days: seq<int>)
    ensures 0 in days
    ensures 6 in days <==> !saturday
    ensures forall d :: d in days ==> d == 0 || d == 6
  {
    if saturday then [0] else [0, 6]
  }

  /** `onEventClick`: the `setChoosenCourse` arguments an event carries. */
  function OnEventClick(e: Event): (call: (int, string, string))
    ensures call == (e.props.subjectId, e.props.course, e.props.kind)
  {
    (e.props.subjectId, e.props.course, e.props.kind)
  }

  /** Clicking the event of a course of a subject that is not locked flips
      whether that course is highlighted as chosen. */
  lemma ClickFlipsHighlight(store: seq<Subject>, i: int, c: Course, today: int)
    requires Store.WellFormed(store) && 0 <= i < |store| && c in store[i].courses
    requires store[i].status.chosen != Scalar(Num(-1))
    requires CourseEvent(store[i], c, today).Some?
    ensures var call := OnEventClick(CourseEvent(store[i], c, today).value);
      var after := Store.SetChoosenIn(store, call.0, call.1, call.2);
      after.Some? && IsChoosen(after.value[i], c) == !IsChoosen(store[i], c)
  {
    Store.SetChoosenByMode(store, i, c.course, c.kind);
  }

  /** Clicking the event of a course of a locked subject changes nothing. */
  lemma ClickOnLockedIsNoOp(store: seq<Subject>, i: int, c: Course, today: int)
    requires Store.WellFormed(store) && 0 <= i < |store|
    requires store[i].status.chosen == Scalar(Num(-1))
    requires CourseEvent(store[i], c, today).Some?
    ensures var call := OnEventClick(CourseEvent(store[i], c, today).value);
      Store.SetChoosenIn(store, call.0, call.1, call.2) == Some(store)
  {
    Store.SetChoosenByMode(store, i, c.course, c.kind);
    assert store[i := store[i]] == store;
  }
}
