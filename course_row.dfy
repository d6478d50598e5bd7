// One row of a subject's course list: whether the row is highlighted as the
// chosen course, and the arguments its three buttons forward to the store.
//
// The row receives its callbacks as optional properties; the two components
// of the current layout that render it pass none of them, so a click there
// throws instead of calling. The older `src/Subjects.jsx` (lines 325-331)
// does pass them, but that copy is not part of this model.

module CourseRow {
  import opened Model
  import TimetableUtils
  import Store
  import Projection
  import Seqs

  /** What pressing a row button does: forward the arguments, or throw
      because the callback property was not supplied. */
  datatype Outcome<T> = Calls(args: T) | Throws

  /** The row-level `isChoosen`: in per-type mode the entry for the course's
      type must be its code; in scalar mode the value must be the code
      itself (a falsy `undefined` otherwise). */
  function RowIsChoosen(ch: Chosen, c: Course): (r: bool)
    ensures ch.PerType? ==> (r <==> c.kind in ch.m && ch.m[c.kind] == Str(c.course))
    ensures ch.Scalar? ==> (r <==> ch.v == Str(c.course))
  {
    match ch
    case PerType(m) => Lookup(m, c.kind) == Str(c.course)
    case Scalar(v) => v == Str(c.course)
  }

  /** The row's highlight classes. */
  function RowClass(ch: Chosen, c: Course): (cls: string)
    ensures cls != "" <==> RowIsChoosen(ch, c)
  {
    if RowIsChoosen(ch, c) then "ring-4 ring-success ring-inset" else ""
  }

  /** The row agrees with the calendar's highlight except for a subject locked
      to all of its courses, whose rows are never highlighted. */
  lemma RowAgreesWithCalendar(s: Subject, c: Course)
    ensures RowIsChoosen(s.status.chosen, c) ==
            (TimetableUtils.IsChoosen(s, c) && s.status.chosen != Scalar(Num(-1)))
  {
  }

  /** `setCourse`: the `setter` call of the course-code button. */
  function SetCourse(wired: bool, subjectId: int, c: Course): (o: Outcome<(int, string, string)>)
    ensures o.Calls? <==> wired
    ensures o.Calls? ==> o.args == (subjectId, c.course, c.kind)
  {
    if wired then Calls((subjectId, c.course, c.kind)) else Throws
  }

  /** `handleChange`: the `show` callback with the flipped visibility. */
  function HandleChange(wired: bool, subjectId: int, c: Course): (o: Outcome<(int, int, bool)>)
    ensures o.Calls? <==> wired
    ensures o.Calls? ==> o.args.0 == subjectId && o.args.1 == c.id && o.args.2 != c.show
  {
    if wired then Calls((subjectId, c.id, !c.show)) else Throws
  }

  /** The remove button: the `remover` call with the row's ids. */
  function Remove(wired: bool, subjectId: int, c: Course): (o: Outcome<(int, int)>)
    ensures o.Calls? <==> wired
    ensures o.Calls? ==> o.args == (subjectId, c.id)
  {
    if wired then Calls((subjectId, c.id)) else Throws
  }

  /** The course-code button asks the store for the same toggle as clicking
      the course's calendar event. */
  lemma SetCourseMatchesEventClick(s: Subject, c: Course, today: int)
    requires Projection.CourseEvent(s, c, today).Some?
    ensures SetCourse(true, s.id, c) == Calls(Projection.OnEventClick(Projection.CourseEvent(s, c, today).value))
  {
  }

  /** Pressing the visibility toggle of the row at `j` flips exactly that
      course's `show`, and pressing it again on the new row restores the store. */
  lemma {:induction false} HandleChangeTwice(store: seq<Subject>, i: int, j: int)
    requires Store.WellFormed(store) && 0 <= i < |store| && 0 <= j < |store[i].courses|
    ensures var a := HandleChange(true, store[i].id, store[i].courses[j]).args;
      var once := Store.UpdateShowCourseIn(store, a.0, a.1, a.2);
      && once[i].courses[j].show == !store[i].courses[j].show
      && var b := HandleChange(true, once[i].id, once[i].courses[j]).args;
         Store.UpdateShowCourseIn(once, b.0, b.1, b.2) == store
  {
    var s := store[i];
    var c := s.courses[j];
    var once := Store.UpdateShowCourseIn(store, s.id, c.id, !c.show);
    assert once[i].id == s.id && once[i].courses[j] == c.(show := !c.show);
    var twice := Store.UpdateShowCourseIn(once, s.id, c.id, c.show);
    forall k | 0 <= k < |store| ensures twice[k] == store[k] {
      if k != i {
        assert Store.SubjectKey(store[k]) != Store.SubjectKey(store[i]);
      } else {
        forall l | 0 <= l < |s.courses| ensures twice[i].courses[l] == s.courses[l] {
          if l != j {
            assert Store.CourseKey(s.courses[l]) != Store.CourseKey(s.courses[j]);
          }
        }
        assert twice[i].courses == s.courses;
      }
    }
  }

  /** Pressing the remove button takes exactly that course out of its subject. */
  lemma RemoveTakesOutTheRow(store: seq<Subject>, i: int, j: int)
    requires Store.WellFormed(store) && 0 <= i < |store| && 0 <= j < |store[i].courses|
    ensures var a := Remove(true, store[i].id, store[i].courses[j]).args;
      var after := Store.RemoveCourseFrom(store, a.0, a.1);
      && store[i].courses[j] !in after[i].courses
      && |after[i].courses| == |store[i].courses| - 1
      && forall c :: c in store[i].courses && c != store[i].courses[j] ==> c in after[i].courses
  {
    var s := store[i];
    var c := s.courses[j];
    var after := Store.RemoveCourseFrom(store, s.id, c.id);
    forall d | d in s.courses && d != c ensures d.id != c.id {
      var l :| 0 <= l < |s.courses| && s.courses[l] == d;
      assert l != j;
      assert Store.CourseKey(s.courses[l]) != Store.CourseKey(s.courses[j]);
    }
    forall k | 0 <= k < |s.courses| && k != j ensures s.courses[k].id != c.id {
      assert Store.CourseKey(s.courses[k]) != Store.CourseKey(s.courses[j]);
    }
    Seqs.FilterDropsOne(s.courses, (d: Course) => d.id != c.id, j);
  }
}
