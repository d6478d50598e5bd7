// The timetable store: the list of subjects every view reads, and the
// operations that replace it.  Each operation is first given as a function
// from the old list to the new one; the class `Timetable` holds the list and
// its methods perform those replacements.

module Store {
  import opened Model
  import opened Seqs

  function SubjectKey(s: Subject): int { s.id }
  function CourseKey(c: Course): int { c.id }

  /** Subject ids increase along the list, and course ids within each subject:
      the shape every id allocation below keeps. */
  ghost predicate WellFormed(store: seq<Subject>)
  {
    && StrictlyIncreasing(store, SubjectKey)
    && forall i :: 0 <= i < |store| ==> StrictlyIncreasing(store[i].courses, CourseKey)
  }

  /** A subject with only its selection replaced. */
  function WithChosen(s: Subject, ch: Chosen): Subject
  {
    s.(status := s.status.(chosen := ch))
  }

  // ---------------------------------------------------------------------------
  // Id allocation
  // ---------------------------------------------------------------------------

  /** `getNewSubjectId`: one more than the id of the last subject, or 1. */
  function NewSubjectId(store: seq<Subject>): (id: int)
    ensures store == [] ==> id == 1
    ensures store != [] ==> id == store[|store| - 1].id + 1
    ensures StrictlyIncreasing(store, SubjectKey) ==> forall s :: s in store ==> s.id < id
  {
    if store == [] then 1 else store[|store| - 1].id + 1
  }

  /** `getNewCourseId`: one more than the id of the subject's last course, or 1. */
  function NewCourseId(s: Subject): (id: int)
    ensures s.courses == [] ==> id == 1
    ensures s.courses != [] ==> id == s.courses[|s.courses| - 1].id + 1
    ensures StrictlyIncreasing(s.courses, CourseKey) ==> forall c :: c in s.courses ==> c.id < id
  {
    if s.courses == [] then 1 else s.courses[|s.courses| - 1].id + 1
  }

  // ---------------------------------------------------------------------------
  // Subjects
  // ---------------------------------------------------------------------------

  /** `addSubject(code, name)` with the random colour passed in. */
  function AddSubjectTo(store: seq<Subject>, code: string, name: string, color: string): (r: seq<Subject>)
    ensures |r| == |store| + 1 && r[..|store|] == store
    ensures r[|store|] == Subject(NewSubjectId(store), code, name, [], Status(color, true, DefaultChosen))
  {
    store + [Subject(NewSubjectId(store), code, name, [], Status(color, true, DefaultChosen))]
  }

  /** `removeSubject(id)`. */
  function RemoveSubjectFrom(store: seq<Subject>, id: int): (r: seq<Subject>)
    ensures forall s :: s in r <==> s in store && s.id != id
    ensures IsSubseq(r, store)
    ensures (forall s :: s in store ==> s.id != id) ==> r == store
  {
    Filter(store, (s: Subject) => s.id != id)
  }

  /** The selection `updateSubject` installs for each mode of the subject form;
      an unknown mode installs `undefined`. */
  function ChosenForMode(mode: string): (ch: Chosen)
    ensures mode == "Egy kurzus" ==> ch == Scalar(Num(0))
    ensures mode == "Minden kurzus ki van választva" ==> ch == Scalar(Num(-1))
    ensures mode == "Típusunként egy kurzus" ==> ch == DefaultChosen
    ensures mode !in {"Egy kurzus", "Minden kurzus ki van választva", "Típusunként egy kurzus"} ==>
      ch == Scalar(Undef)
  {
    if mode == "Egy kurzus" then Scalar(Num(0))
    else if mode == "Minden kurzus ki van választva" then Scalar(Num(-1))
    else if mode == "Típusunként egy kurzus" then DefaultChosen
    else Scalar(Undef)
  }

  /** `updateSubject(id, code, name, color, mode)`. */
  function UpdateSubjectIn(store: seq<Subject>, id: int, code: string, name: string, color: string, mode: string)
    : (r: seq<Subject>)
    ensures |r| == |store|
    ensures forall i :: 0 <= i < |store| && store[i].id == id ==>
      r[i] == Subject(id, code, name, store[i].courses, Status(color, store[i].status.show, ChosenForMode(mode)))
    ensures forall i :: 0 <= i < |store| && store[i].id != id ==> r[i] == store[i]
  {
    MapWhere(store, (s: Subject) => s.id == id,
      (s: Subject) => s.(code := code, name := name,
                         status := s.status.(color := color, chosen := ChosenForMode(mode))))
  }

  /** `updateShowSubject(id, show)`. */
  function UpdateShowSubjectIn(store: seq<Subject>, id: int, show: bool): (r: seq<Subject>)
    ensures |r| == |store|
    ensures forall i :: 0 <= i < |store| && store[i].id == id ==>
      r[i] == store[i].(status := store[i].status.(show := show))
    ensures forall i :: 0 <= i < |store| && store[i].id != id ==> r[i] == store[i]
  {
    MapWhere(store, (s: Subject) => s.id == id, (s: Subject) => s.(status := s.status.(show := show)))
  }

  // ---------------------------------------------------------------------------
  // Courses
  // ---------------------------------------------------------------------------

  function NewCourse(id: int, f: CourseFields): Course
  {
    Course(id, f.course, f.kind, f.instructor, f.location, f.day, f.startTime, f.endTime, f.notes, true)
  }

  /** The subject after `addCourse` appended a course to it. */
  function WithNewCourse(s: Subject, f: CourseFields): (t: Subject)
    ensures t.courses == s.courses + [NewCourse(NewCourseId(s), f)]
    ensures t.id == s.id && t.status == s.status
    ensures StrictlyIncreasing(s.courses, CourseKey) ==> StrictlyIncreasing(t.courses, CourseKey)
  {
    var t := s.(courses := s.courses + [NewCourse(NewCourseId(s), f)]);
    assert forall i :: 0 <= i < |s.courses| ==> t.courses[i] == s.courses[i];
    t
  }

  /** `addCourse(subjectId, …fields)`: appends to every subject with that id. */
  function AddCourseTo(store: seq<Subject>, subjectId: int, f: CourseFields): (r: seq<Subject>)
    ensures |r| == |store|
    ensures forall i :: 0 <= i < |store| && store[i].id == subjectId ==>
      r[i] == store[i].(courses := store[i].courses + [NewCourse(NewCourseId(store[i]), f)])
    ensures forall i :: 0 <= i < |store| && store[i].id != subjectId ==> r[i] == store[i]
    ensures (forall s :: s in store ==> s.id != subjectId) ==> r == store
  {
    MapWhere(store, (s: Subject) => s.id == subjectId, (s: Subject) => WithNewCourse(s, f))
  }

  /** `removeCourse(subjectId, courseId)`. */
  function RemoveCourseFrom(store: seq<Subject>, subjectId: int, courseId: int): (r: seq<Subject>)
    ensures |r| == |store|
    ensures forall i :: 0 <= i < |store| && store[i].id == subjectId ==>
      && r[i] == store[i].(courses := r[i].courses)
      && IsSubseq(r[i].courses, store[i].courses)
      && (forall c :: c in r[i].courses <==> c in store[i].courses && c.id != courseId)
    ensures forall i :: 0 <= i < |store| && store[i].id != subjectId ==> r[i] == store[i]
  {
    MapWhere(store, (s: Subject) => s.id == subjectId,
      (s: Subject) => s.(courses := Filter(s.courses, (c: Course) => c.id != courseId)))
  }

  function EditCourse(c: Course, f: CourseFields): Course
  {
    c.(course := f.course, kind := f.kind, instructor := f.instructor, location := f.location,
       day := f.day, startTime := f.startTime, endTime := f.endTime, notes := f.notes)
  }

  /** `updateCourse(subjectId, courseId, …fields)`: the id and `show` are kept. */
  function UpdateCourseIn(store: seq<Subject>, subjectId: int, courseId: int, f: CourseFields): (r: seq<Subject>)
    ensures |r| == |store|
    ensures forall i :: 0 <= i < |store| && store[i].id == subjectId ==>
      && r[i] == store[i].(courses := r[i].courses)
      && |r[i].courses| == |store[i].courses|
      && forall j :: 0 <= j < |store[i].courses| ==>
           r[i].courses[j] == if store[i].courses[j].id == courseId
                              then NewCourse(courseId, f).(show := store[i].courses[j].show)
                              else store[i].courses[j]
    ensures forall i :: 0 <= i < |store| && store[i].id != subjectId ==> r[i] == store[i]
  {
    MapWhere(store, (s: Subject) => s.id == subjectId,
      (s: Subject) => s.(courses := MapWhere(s.courses, (c: Course) => c.id == courseId, (c: Course) => EditCourse(c, f))))
  }

  /** `updateShowCourse(subjectId, courseId, show)`. */
  function UpdateShowCourseIn(store: seq<Subject>, subjectId: int, courseId: int, show: bool): (r: seq<Subject>)
    ensures |r| == |store|
    ensures forall i :: 0 <= i < |store| && store[i].id == subjectId ==>
      && r[i] == store[i].(courses := r[i].courses)
      && |r[i].courses| == |store[i].courses|
      && forall j :: 0 <= j < |store[i].courses| ==>
           r[i].courses[j] == if store[i].courses[j].id == courseId
                              then store[i].courses[j].(show := show)
                              else store[i].courses[j]
    ensures forall i :: 0 <= i < |store| && store[i].id != subjectId ==> r[i] == store[i]
  {
    MapWhere(store, (s: Subject) => s.id == subjectId,
      (s: Subject) => s.(courses := MapWhere(s.courses, (c: Course) => c.id == courseId, (c: Course) => c.(show := show))))
  }

  // ---------------------------------------------------------------------------
  // Selection toggle
  // ---------------------------------------------------------------------------

  /** `eventsJSON.find(event => event.id === id)`: the first subject with that id. */
  function FindSubject(store: seq<Subject>, id: int): (r: Option<Subject>)
    ensures r.None? <==> forall s :: s in store ==> s.id != id
    ensures r.Some? ==> exists i :: 0 <= i < |store| && store[i] == r.value && r.value.id == id
                          && forall j :: 0 <= j < i ==> store[j].id != id
  {
    if store == [] then None
    else if store[0].id == id then Some(store[0])
    else
      var r := FindSubject(store[1..], id);
      if r.Some? then
        var i :| 0 <= i < |store[1..]| && store[1..][i] == r.value && r.value.id == id
                 && forall j :: 0 <= j < i ==> store[1..][j].id != id;
        assert store[i + 1] == r.value;
        r
      else r
  }

  /** `choosen === code ? 0 : code`. */
  function Toggle(v: Val, code: string): (w: Val)
    ensures v == Str(code) <==> w == Num(0)
    ensures v != Str(code) <==> w == Str(code)
  {
    if v == Str(code) then Num(0) else Str(code)
  }

  /** The per-type branch applied to one matching subject:
      `{...choosen, [kind]: choosen[kind] === code ? 0 : code}`. */
  function ToggleKind(ch: Chosen, kind: string, code: string): (r: Chosen)
    ensures r.PerType? && kind in r.m && r.m[kind] == Toggle(if ch.PerType? then Lookup(ch.m, kind) else Undef, code)
    ensures ch.PerType? ==> forall k :: k != kind ==> Lookup(r.m, k) == Lookup(ch.m, k)
  {
    match ch
    case PerType(m) => PerType(m[kind := Toggle(Lookup(m, kind), code)])
    case Scalar(_) => PerType(map[kind := Str(code)])
  }

  /** The scalar branch applied to one matching subject. */
  function ToggleScalar(ch: Chosen, code: string): (r: Chosen)
    ensures r.Scalar? && r.v == Toggle(if ch.Scalar? then ch.v else Undef, code)
  {
    match ch
    case Scalar(v) => Scalar(Toggle(v, code))
    case PerType(_) => Scalar(Str(code))
  }

  /** `setChoosenCourse(subjectId, code, kind)`.  The mode is read from the
      first subject with that id; `None` stands for the `TypeError` thrown when
      there is none. */
  function SetChoosenIn(store: seq<Subject>, subjectId: int, code: string, kind: string): (r: Option<seq<Subject>>)
    ensures r.None? <==> forall s :: s in store ==> s.id != subjectId
    ensures r.Some? ==> |r.value| == |store|
    ensures r.Some? ==> forall i :: 0 <= i < |store| ==>
      r.value[i] == WithChosen(store[i], r.value[i].status.chosen)
    ensures r.Some? ==> forall i :: 0 <= i < |store| && store[i].id != subjectId ==> r.value[i] == store[i]
    ensures r.Some? && FindSubject(store, subjectId).value.status.chosen == Scalar(Num(-1)) ==> r.value == store
  {
    match FindSubject(store, subjectId)
    case None => None
    case Some(s) =>
      if s.status.chosen.PerType? then Some(ToggleKindWhere(store, subjectId, code, kind))
      else if s.status.chosen.v != Num(-1) then Some(ToggleScalarWhere(store, subjectId, code))
      else Some(store)
  }

  /** The per-type branch: every subject with that id gets its type toggled. */
  function ToggleKindWhere(store: seq<Subject>, subjectId: int, code: string, kind: string): (r: seq<Subject>)
    ensures |r| == |store|
    ensures forall i :: 0 <= i < |store| ==>
      && r[i] == WithChosen(store[i], r[i].status.chosen)
      && (store[i].id == subjectId ==> r[i].status.chosen == ToggleKind(store[i].status.chosen, kind, code))
      && (store[i].id != subjectId ==> r[i] == store[i])
  {
    MapWhere(store, (t: Subject) => t.id == subjectId,
      (t: Subject) => WithChosen(t, ToggleKind(t.status.chosen, kind, code)))
  }

  /** The scalar branch: every subject with that id gets its code toggled. */
  function ToggleScalarWhere(store: seq<Subject>, subjectId: int, code: string): (r: seq<Subject>)
    ensures |r| == |store|
    ensures forall i :: 0 <= i < |store| ==>
      && r[i] == WithChosen(store[i], r[i].status.chosen)
      && (store[i].id == subjectId ==> r[i].status.chosen == ToggleScalar(store[i].status.chosen, code))
      && (store[i].id != subjectId ==> r[i] == store[i])
  {
    MapWhere(store, (t: Subject) => t.id == subjectId,
      (t: Subject) => WithChosen(t, ToggleScalar(t.status.chosen, code)))
  }

  // ---------------------------------------------------------------------------
  // Import
  // ---------------------------------------------------------------------------

  /** `Math.max(...ids)` over a non-empty store. */
  function MaxId(store: seq<Subject>): (m: int)
    requires store != []
    ensures forall s :: s in store ==> s.id <= m
    ensures exists s :: s in store && s.id == m
  {
    if |store| == 1 then store[0].id
    else
      var rest := MaxId(store[1..]);
      assert store[1..][0] in store;
      if store[0].id >= rest then store[0].id else rest
  }

  /** The first id `importFromArrays` hands out. */
  function NextImportId(store: seq<Subject>): (n: int)
    ensures store == [] ==> n == 1
    ensures forall s :: s in store ==> s.id < n
    ensures store != [] ==> exists s :: s in store && s.id == n - 1
  {
    if store == [] then 1 else MaxId(store) + 1
  }

  /** The codes already in the store, in store order. */
  function Codes(store: seq<Subject>): (codes: seq<string>)
    ensures |codes| == |store|
    ensures forall i :: 0 <= i < |store| ==> codes[i] == store[i].code
  {
    seq(|store|, i requires 0 <= i < |store| => store[i].code)
  }

  function ImportedCourse(c: ParsedCourse, id: int): Course
  {
    Course(id, c.course, c.kind, c.instructor, c.location, c.day, c.startTime, c.endTime, c.notes, true)
  }

  function SubjectIs(code: string): ParsedCourse -> bool
  {
    (c: ParsedCourse) => c.subject == code
  }

  /** The candidate courses of subject `code`, numbered from `next` on in input order. */
  function NumberedCourses(courses: seq<ParsedCourse>, code: string, next: int): (r: seq<Course>)
    ensures forall k :: 0 <= k < |r| ==> r[k].id == next + k && r[k].show
  {
    if courses == [] then []
    else if courses[0].subject == code then
      [ImportedCourse(courses[0], next)] + NumberedCourses(courses[1..], code, next + 1)
    else NumberedCourses(courses[1..], code, next)
  }

  function NotIn(existing: seq<string>): ParsedSubject -> bool
  {
    (s: ParsedSubject) => s.code !in existing
  }

  /** The new subjects `importFromArrays` builds: candidates whose code is not in
      `existing`, numbered from `next` on, each with its own courses and the
      colour drawn for it. */
  function ImportedSubjects(existing: seq<string>, cands: seq<ParsedSubject>, courses: seq<ParsedCourse>,
                            colors: seq<string>, next: int): (r: seq<Subject>)
    requires |colors| == |cands|
    ensures forall j :: 0 <= j < |r| ==> r[j].id == next + j && r[j].code !in existing
  {
    if cands == [] then []
    else if cands[0].code in existing then
      ImportedSubjects(existing, cands[1..], courses, colors[1..], next)
    else
      [Subject(next, cands[0].code, cands[0].name, NumberedCourses(courses, cands[0].code, 1),
               Status(colors[0], true, DefaultChosen))]
      + ImportedSubjects(existing, cands[1..], courses, colors[1..], next + 1)
  }

  /** Each subject's courses are exactly the candidates naming its code, in
      input order, numbered from `next` on and shown. */
  lemma {:induction false} NumberedCoursesAreFiltered(courses: seq<ParsedCourse>, code: string, next: int)
    ensures var r := NumberedCourses(courses, code, next);
      && |r| == |Filter(courses, SubjectIs(code))|
      && forall k :: 0 <= k < |r| ==> r[k] == ImportedCourse(Filter(courses, SubjectIs(code))[k], next + k)
  {
    if courses != [] {
      if courses[0].subject == code {
        var rest := NumberedCourses(courses[1..], code, next + 1);
        var kept := Filter(courses[1..], SubjectIs(code));
        NumberedCoursesAreFiltered(courses[1..], code, next + 1);
        assert Filter(courses, SubjectIs(code)) == [courses[0]] + kept;
        var r := NumberedCourses(courses, code, next);
        assert r == [ImportedCourse(courses[0], next)] + rest;
        forall k | 0 <= k < |r| ensures r[k] == ImportedCourse(([courses[0]] + kept)[k], next + k) {
          if k > 0 {
            assert r[k] == rest[k - 1] && ([courses[0]] + kept)[k] == kept[k - 1];
          }
        }
      } else {
        NumberedCoursesAreFiltered(courses[1..], code, next);
        assert Filter(courses, SubjectIs(code)) == Filter(courses[1..], SubjectIs(code));
      }
    }
  }

  /** The new subjects are the candidates whose code is new, in input order,
      each shown, with the all-zero per-type selection and its own courses. */
  lemma {:induction false} ImportedSubjectsAreFiltered(existing: seq<string>, cands: seq<ParsedSubject>,
                                                      courses: seq<ParsedCourse>, colors: seq<string>, next: int)
    requires |colors| == |cands|
    ensures var r := ImportedSubjects(existing, cands, courses, colors, next);
      && |r| == |Filter(cands, NotIn(existing))|
      && forall j :: 0 <= j < |r| ==>
        && r[j].code == Filter(cands, NotIn(existing))[j].code
        && r[j].name == Filter(cands, NotIn(existing))[j].name
        && r[j].courses == NumberedCourses(courses, r[j].code, 1)
        && r[j].status.show && r[j].status.chosen == DefaultChosen
  {
    if cands != [] {
      if cands[0].code in existing {
        ImportedSubjectsAreFiltered(existing, cands[1..], courses, colors[1..], next);
        assert Filter(cands, NotIn(existing)) == Filter(cands[1..], NotIn(existing));
      } else {
        ImportedSubjectsAreFiltered(existing, cands[1..], courses, colors[1..], next + 1);
        assert Filter(cands, NotIn(existing)) == [cands[0]] + Filter(cands[1..], NotIn(existing));
      }
    }
  }

  /** `importFromArrays(subjects, courses)` with one drawn colour per candidate subject. */
  function ImportInto(store: seq<Subject>, cands: seq<ParsedSubject>, courses: seq<ParsedCourse>,
                      colors: seq<string>): (r: seq<Subject>)
    requires |colors| == |cands|
    ensures |store| <= |r| && r[..|store|] == store
    ensures forall j :: |store| <= j < |r| ==> r[j].code !in Codes(store)
    ensures forall j :: |store| <= j < |r| ==> r[j].id == NextImportId(store) + (j - |store|)
  {
    store + ImportedSubjects(Codes(store), cands, courses, colors, NextImportId(store))
  }

  // ---------------------------------------------------------------------------
  // Every operation keeps ids increasing
  // ---------------------------------------------------------------------------

  lemma AddSubjectKeepsWellFormed(store: seq<Subject>, code: string, name: string, color: string)
    requires WellFormed(store)
    ensures WellFormed(AddSubjectTo(store, code, name, color))
  {
    var r := AddSubjectTo(store, code, name, color);
    forall i, j | 0 <= i < j < |r| ensures SubjectKey(r[i]) < SubjectKey(r[j]) {
      if j == |store| {
        assert r[i] in store;
      }
    }
  }

  lemma RemoveSubjectKeepsWellFormed(store: seq<Subject>, id: int)
    requires WellFormed(store)
    ensures WellFormed(RemoveSubjectFrom(store, id))
  {
    var r := RemoveSubjectFrom(store, id);
    SubseqIncreasing(r, store, SubjectKey);
    forall i | 0 <= i < |r| ensures StrictlyIncreasing(r[i].courses, CourseKey) {
      assert r[i] in store;
    }
  }

  lemma UpdateSubjectKeepsWellFormed(store: seq<Subject>, id: int, code: string, name: string, color: string, mode: string)
    requires WellFormed(store)
    ensures WellFormed(UpdateSubjectIn(store, id, code, name, color, mode))
  {
    var r := UpdateSubjectIn(store, id, code, name, color, mode);
    assert forall i :: 0 <= i < |r| ==> r[i].id == store[i].id && r[i].courses == store[i].courses;
  }

  lemma UpdateShowSubjectKeepsWellFormed(store: seq<Subject>, id: int, show: bool)
    requires WellFormed(store)
    ensures WellFormed(UpdateShowSubjectIn(store, id, show))
  {
    var r := UpdateShowSubjectIn(store, id, show);
    assert forall i :: 0 <= i < |r| ==> r[i].id == store[i].id && r[i].courses == store[i].courses;
  }

  lemma AddCourseKeepsWellFormed(store: seq<Subject>, subjectId: int, f: CourseFields)
    requires WellFormed(store)
    ensures WellFormed(AddCourseTo(store, subjectId, f))
  {
    var r := AddCourseTo(store, subjectId, f);
    assert forall i :: 0 <= i < |r| ==> r[i].id == store[i].id;
    forall i | 0 <= i < |r| ensures StrictlyIncreasing(r[i].courses, CourseKey) {
      if store[i].id == subjectId {
        assert r[i] == WithNewCourse(store[i], f);
      }
    }
  }

  lemma RemoveCourseKeepsWellFormed(store: seq<Subject>, subjectId: int, courseId: int)
    requires WellFormed(store)
    ensures WellFormed(RemoveCourseFrom(store, subjectId, courseId))
  {
    var r := RemoveCourseFrom(store, subjectId, courseId);
    assert forall i :: 0 <= i < |r| ==> r[i].id == store[i].id;
    forall i | 0 <= i < |r| ensures StrictlyIncreasing(r[i].courses, CourseKey) {
      if store[i].id == subjectId {
        SubseqIncreasing(r[i].courses, store[i].courses, CourseKey);
      }
    }
  }

  lemma UpdateCourseKeepsWellFormed(store: seq<Subject>, subjectId: int, courseId: int, f: CourseFields)
    requires WellFormed(store)
    ensures WellFormed(UpdateCourseIn(store, subjectId, courseId, f))
  {
    var r := UpdateCourseIn(store, subjectId, courseId, f);
    assert forall i :: 0 <= i < |r| ==> r[i].id == store[i].id;
    forall i | 0 <= i < |r| ensures StrictlyIncreasing(r[i].courses, CourseKey) {
      assert forall j :: 0 <= j < |r[i].courses| ==> r[i].courses[j].id == store[i].courses[j].id;
    }
  }

  lemma UpdateShowCourseKeepsWellFormed(store: seq<Subject>, subjectId: int, courseId: int, show: bool)
    requires WellFormed(store)
    ensures WellFormed(UpdateShowCourseIn(store, subjectId, courseId, show))
  {
    var r := UpdateShowCourseIn(store, subjectId, courseId, show);
    assert forall i :: 0 <= i < |r| ==> r[i].id == store[i].id;
    forall i | 0 <= i < |r| ensures StrictlyIncreasing(r[i].courses, CourseKey) {
      assert forall j :: 0 <= j < |r[i].courses| ==> r[i].courses[j].id == store[i].courses[j].id;
    }
  }

  lemma SetChoosenKeepsWellFormed(store: seq<Subject>, subjectId: int, code: string, kind: string)
    requires WellFormed(store)
    requires SetChoosenIn(store, subjectId, code, kind).Some?
    ensures WellFormed(SetChoosenIn(store, subjectId, code, kind).value)
  {
    var r := SetChoosenIn(store, subjectId, code, kind).value;
    assert forall i :: 0 <= i < |r| ==> r[i].id == store[i].id && r[i].courses == store[i].courses;
  }

  lemma ImportKeepsWellFormed(store: seq<Subject>, cands: seq<ParsedSubject>, courses: seq<ParsedCourse>,
                              colors: seq<string>)
    requires WellFormed(store) && |colors| == |cands|
    ensures WellFormed(ImportInto(store, cands, courses, colors))
  {
    var r := ImportInto(store, cands, courses, colors);
    var added := ImportedSubjects(Codes(store), cands, courses, colors, NextImportId(store));
    ImportedSubjectsAreFiltered(Codes(store), cands, courses, colors, NextImportId(store));
    assert r == store + added;
    forall i, j | 0 <= i < j < |r| ensures SubjectKey(r[i]) < SubjectKey(r[j]) {
      if i < |store| && j >= |store| {
        assert r[i] in store;
      }
    }
    forall i | 0 <= i < |r| ensures StrictlyIncreasing(r[i].courses, CourseKey) {
      if i >= |store| {
        assert r[i] == added[i - |store|];
      }
    }
  }

  // ---------------------------------------------------------------------------
  // Properties relating several operations
  // ---------------------------------------------------------------------------

  /** Adding a subject and then removing it by its new id gives back the store. */
  lemma {:induction false} AddThenRemoveSubject(store: seq<Subject>, code: string, name: string, color: string)
    requires WellFormed(store)
    ensures RemoveSubjectFrom(AddSubjectTo(store, code, name, color), NewSubjectId(store)) == store
  {
    var id := NewSubjectId(store);
    var added := AddSubjectTo(store, code, name, color);
    var keep := (s: Subject) => s.id != id;
    FilterAppendDropLast(store, added[|store|], keep);
  }

  lemma {:induction false} FilterAppendDropLast(s: seq<Subject>, x: Subject, keep: Subject -> bool)
    requires forall y :: y in s ==> keep(y)
    requires !keep(x)
    ensures Filter(s + [x], keep) == s
  {
    if s == [] {
      assert [x][1..] == [];
    } else {
      assert (s + [x])[1..] == s[1..] + [x];
      FilterAppendDropLast(s[1..], x, keep);
    }
  }

  /** In a well-formed store `find` returns the only subject with the id. */
  lemma FindInWellFormed(store: seq<Subject>, i: int)
    requires WellFormed(store) && 0 <= i < |store|
    ensures FindSubject(store, store[i].id) == Some(store[i])
  {
    var r := FindSubject(store, store[i].id);
    var k :| 0 <= k < |store| && store[k] == r.value && r.value.id == store[i].id
             && forall j :: 0 <= j < k ==> store[j].id != store[i].id;
  }

  /** The selection one click on (`code`, `kind`) leaves on a subject. */
  function NextChosen(ch: Chosen, code: string, kind: string): (r: Chosen)
    ensures ch == Scalar(Num(-1)) ==> r == ch
    ensures ch.PerType? ==> r.PerType? && r.m.Keys == ch.m.Keys + {kind}
  {
    match ch
    case PerType(m) => PerType(m[kind := Toggle(Lookup(m, kind), code)])
    case Scalar(v) => if v == Num(-1) then ch else Scalar(Toggle(v, code))
  }

  /** Two clicks restore a selection that was empty or that course. */
  lemma NextChosenTwice(ch: Chosen, code: string, kind: string)
    requires match ch
             case PerType(m) => kind in m && m[kind] in {Num(0), Str(code)}
             case Scalar(v) => v in {Num(0), Str(code), Num(-1)}
    ensures NextChosen(NextChosen(ch, code, kind), code, kind) == ch
  {
    if ch.PerType? {
      assert ch.m[kind := ch.m[kind]] == ch.m;
    }
  }

  /** A first click on a course nobody chose in that type; a second click
      does not bring the missing key back. */
  lemma NextChosenMissingKey(code: string, kind: string)
    ensures NextChosen(NextChosen(PerType(map[]), code, kind), code, kind) == PerType(map[kind := Num(0)])
  {
  }

  /** A click on a subject of a well-formed store gives it `NextChosen` of its selection. */
  lemma SetChoosenAtTarget(store: seq<Subject>, i: int, code: string, kind: string)
    requires WellFormed(store) && 0 <= i < |store|
    ensures SetChoosenIn(store, store[i].id, code, kind).Some?
    ensures SetChoosenIn(store, store[i].id, code, kind).value[i]
         == WithChosen(store[i], NextChosen(store[i].status.chosen, code, kind))
  {
    FindInWellFormed(store, i);
    assert store[i] in store;
    var r := SetChoosenIn(store, store[i].id, code, kind).value;
    var ch := store[i].status.chosen;
    if ch.PerType? {
      assert r[i] == WithChosen(store[i], ToggleKind(ch, kind, code));
    } else if ch.v != Num(-1) {
      assert r[i] == WithChosen(store[i], ToggleScalar(ch, code));
    }
  }

  /** ... and leaves every other subject as it was. */
  lemma SetChoosenElsewhere(store: seq<Subject>, i: int, code: string, kind: string, j: int)
    requires WellFormed(store) && 0 <= i < |store| && 0 <= j < |store| && j != i
    ensures SetChoosenIn(store, store[i].id, code, kind).Some?
    ensures SetChoosenIn(store, store[i].id, code, kind).value[j] == store[j]
  {
    assert store[i] in store;
    assert SubjectKey(store[j]) != SubjectKey(store[i]);
  }

  /** In a well-formed store a click replaces the selection of the one
      subject with that id by `NextChosen` of it, and nothing else. */
  lemma SetChoosenByMode(store: seq<Subject>, i: int, code: string, kind: string)
    requires WellFormed(store) && 0 <= i < |store|
    ensures SetChoosenIn(store, store[i].id, code, kind)
         == Some(store[i := WithChosen(store[i], NextChosen(store[i].status.chosen, code, kind))])
  {
    var r := SetChoosenIn(store, store[i].id, code, kind).value by {
      SetChoosenAtTarget(store, i, code, kind);
    }
    var expected := store[i := WithChosen(store[i], NextChosen(store[i].status.chosen, code, kind))];
    forall j | 0 <= j < |store| ensures r[j] == expected[j] {
      if j == i {
        SetChoosenAtTarget(store, i, code, kind);
      } else {
        SetChoosenElsewhere(store, i, code, kind, j);
      }
    }
    assert r == expected;
  }

  lemma WithChosenKeepsWellFormed(store: seq<Subject>, i: int, ch: Chosen)
    requires WellFormed(store) && 0 <= i < |store|
    ensures WellFormed(store[i := WithChosen(store[i], ch)])
  {
    var r := store[i := WithChosen(store[i], ch)];
    assert forall j :: 0 <= j < |r| ==> r[j].id == store[j].id && r[j].courses == store[j].courses;
  }

  /** Clicking the same course twice restores a selection that was either
      empty or that course; a locked subject never changes. */
  lemma {:induction false} SetChoosenTwice(store: seq<Subject>, i: int, code: string, kind: string)
    requires WellFormed(store) && 0 <= i < |store|
    requires match store[i].status.chosen
             case PerType(m) => kind in m && m[kind] in {Num(0), Str(code)}
             case Scalar(v) => v in {Num(0), Str(code), Num(-1)}
    ensures var once := SetChoosenIn(store, store[i].id, code, kind).value;
      SetChoosenIn(once, store[i].id, code, kind) == Some(store)
  {
    var ch := store[i].status.chosen;
    var next := NextChosen(ch, code, kind);
    var once := store[i := WithChosen(store[i], next)];
    SetChoosenByMode(store, i, code, kind);
    assert SetChoosenIn(store, store[i].id, code, kind).value == once;
    SecondClick(store, i, next, code, kind);
    NextChosenTwice(ch, code, kind);
    WithOwnChosen(store, i);
  }

  lemma WithOwnChosen(store: seq<Subject>, i: int)
    requires 0 <= i < |store|
    ensures store[i := WithChosen(store[i], store[i].status.chosen)] == store
  {
  }

  /** The second click sets the selection of the same subject again. */
  lemma SecondClick(store: seq<Subject>, i: int, next: Chosen, code: string, kind: string)
    requires WellFormed(store) && 0 <= i < |store|
    ensures var once := store[i := WithChosen(store[i], next)];
      SetChoosenIn(once, store[i].id, code, kind)
      == Some(store[i := WithChosen(store[i], NextChosen(next, code, kind))])
  {
    var once := store[i := WithChosen(store[i], next)];
    WithChosenKeepsWellFormed(store, i, next);
    SetChoosenByMode(once, i, code, kind);
    assert once[i].id == store[i].id && once[i].status.chosen == next;
    assert once[i := WithChosen(once[i], NextChosen(next, code, kind))]
        == store[i := WithChosen(store[i], NextChosen(next, code, kind))];
  }

  /** `addSubject` and import agree on the next id exactly when ids are increasing;
      with ids out of order they differ. */
  lemma AllocatorsAgree(store: seq<Subject>)
    requires StrictlyIncreasing(store, SubjectKey)
    ensures NewSubjectId(store) == NextImportId(store)
  {
    if store != [] {
      var s :| s in store && s.id == NextImportId(store) - 1;
      assert store[|store| - 1] in store;
    }
  }

  lemma AllocatorsDiffer(a: Subject, b: Subject)
    requires a.id == 5 && b.id == 2
    ensures NewSubjectId([a, b]) == 3 && NextImportId([a, b]) == 6
  {
    assert [a, b][1..] == [b];
  }

  /** Re-importing subjects whose codes are all present leaves the store unchanged. */
  lemma {:induction false} ReimportIsNoOp(store: seq<Subject>, cands: seq<ParsedSubject>,
                                          courses: seq<ParsedCourse>, colors: seq<string>)
    requires |colors| == |cands|
    requires forall c :: c in cands ==> c.code in Codes(store)
    ensures ImportInto(store, cands, courses, colors) == store
  {
    ImportedSubjectsAreFiltered(Codes(store), cands, courses, colors, NextImportId(store));
    assert Filter(cands, NotIn(Codes(store))) == [];
  }

  /** Two candidates with the same new code both become subjects. */
  lemma DuplicateCodesKept(store: seq<Subject>, c: ParsedSubject, courses: seq<ParsedCourse>, colors: seq<string>)
    requires c.code !in Codes(store) && |colors| == 2
    ensures var r := ImportInto(store, [c, c], courses, colors);
      |r| == |store| + 2 && r[|store|].code == c.code && r[|store| + 1].code == c.code
      && r[|store|].id != r[|store| + 1].id
  {
    assert [c, c][1..] == [c];
    ImportedSubjectsAreFiltered(Codes(store), [c, c], courses, colors, NextImportId(store));
    assert Filter([c, c], NotIn(Codes(store))) == [c, c];
  }

  // ---------------------------------------------------------------------------
  // The store itself
  // ---------------------------------------------------------------------------

  class Timetable {
    var subjects: seq<Subject>

    constructor()
      ensures subjects == [] && WellFormed(subjects)
    {
      subjects := [];
    }

    method AddSubject(code: string, name: string, color: string)
      modifies this
      ensures subjects == AddSubjectTo(old(subjects), code, name, color)
      ensures old(WellFormed(subjects)) ==> WellFormed(subjects)
    {
      if WellFormed(subjects) {
        AddSubjectKeepsWellFormed(subjects, code, name, color);
      }
      subjects := AddSubjectTo(subjects, code, name, color);
    }

    method RemoveSubject(id: int)
      modifies this
      ensures subjects == RemoveSubjectFrom(old(subjects), id)
      ensures old(WellFormed(subjects)) ==> WellFormed(subjects)
    {
      if WellFormed(subjects) {
        RemoveSubjectKeepsWellFormed(subjects, id);
      }
      subjects := RemoveSubjectFrom(subjects, id);
    }

    method UpdateSubject(id: int, code: string, name: string, color: string, mode: string)
      modifies this
      ensures subjects == UpdateSubjectIn(old(subjects), id, code, name, color, mode)
      ensures old(WellFormed(subjects)) ==> WellFormed(subjects)
    {
      if WellFormed(subjects) {
        UpdateSubjectKeepsWellFormed(subjects, id, code, name, color, mode);
      }
      subjects := UpdateSubjectIn(subjects, id, code, name, color, mode);
    }

    method UpdateShowSubject(id: int, show: bool)
      modifies this
      ensures subjects == UpdateShowSubjectIn(old(subjects), id, show)
      ensures old(WellFormed(subjects)) ==> WellFormed(subjects)
    {
      if WellFormed(subjects) {
        UpdateShowSubjectKeepsWellFormed(subjects, id, show);
      }
      subjects := UpdateShowSubjectIn(subjects, id, show);
    }

    method AddCourse(subjectId: int, f: CourseFields)
      modifies this
      ensures subjects == AddCourseTo(old(subjects), subjectId, f)
      ensures old(WellFormed(subjects)) ==> WellFormed(subjects)
    {
      if WellFormed(subjects) {
        AddCourseKeepsWellFormed(subjects, subjectId, f);
      }
      subjects := AddCourseTo(subjects, subjectId, f);
    }

    method RemoveCourse(subjectId: int, courseId: int)
      modifies this
      ensures subjects == RemoveCourseFrom(old(subjects), subjectId, courseId)
      ensures old(WellFormed(subjects)) ==> WellFormed(subjects)
    {
      if WellFormed(subjects) {
        RemoveCourseKeepsWellFormed(subjects, subjectId, courseId);
      }
      subjects := RemoveCourseFrom(subjects, subjectId, courseId);
    }

    method UpdateCourse(subjectId: int, courseId: int, f: CourseFields)
      modifies this
      ensures subjects == UpdateCourseIn(old(subjects), subjectId, courseId, f)
      ensures old(WellFormed(subjects)) ==> WellFormed(subjects)
    {
      if WellFormed(subjects) {
        UpdateCourseKeepsWellFormed(subjects, subjectId, courseId, f);
      }
      subjects := UpdateCourseIn(subjects, subjectId, courseId, f);
    }

    method UpdateShowCourse(subjectId: int, courseId: int, show: bool)
      modifies this
      ensures subjects == UpdateShowCourseIn(old(subjects), subjectId, courseId, show)
      ensures old(WellFormed(subjects)) ==> WellFormed(subjects)
    {
      if WellFormed(subjects) {
        UpdateShowCourseKeepsWellFormed(subjects, subjectId, courseId, show);
      }
      subjects := UpdateShowCourseIn(subjects, subjectId, courseId, show);
    }

    /** Reports `thrown` where the source throws, leaving the store as it was. */
    method SetChoosenCourse(subjectId: int, code: string, kind: string) returns (thrown: bool)
      modifies this
      ensures thrown <==> SetChoosenIn(old(subjects), subjectId, code, kind).None?
      ensures thrown ==> subjects == old(subjects)
      ensures !thrown ==> subjects == SetChoosenIn(old(subjects), subjectId, code, kind).value
      ensures old(WellFormed(subjects)) ==> WellFormed(subjects)
    {
      var next := SetChoosenIn(subjects, subjectId, code, kind);
      thrown := next.None?;
      if !thrown {
        if WellFormed(subjects) {
          SetChoosenKeepsWellFormed(subjects, subjectId, code, kind);
        }
        subjects := next.value;
      }
    }

    /** `importFromArrays`, with its counter `nextSubjectId`. */
    method ImportFromArrays(cands: seq<ParsedSubject>, courses: seq<ParsedCourse>, colors: seq<string>)
      requires |colors| == |cands|
      modifies this
      ensures subjects == ImportInto(old(subjects), cands, courses, colors)
      ensures old(WellFormed(subjects)) ==> WellFormed(subjects)
    {
      var prior := subjects;
      var existing := Codes(prior);
      var start := NextImportId(prior);
      var nextSubjectId := start;
      var added: seq<Subject> := [];
      var i := 0;
      while i < |cands|
        invariant 0 <= i <= |cands|
        invariant added + ImportedSubjects(existing, cands[i..], courses, colors[i..], nextSubjectId)
               == ImportedSubjects(existing, cands, courses, colors, start)
      {
        var cand := cands[i];
        ImportStep(existing, cands, courses, colors, nextSubjectId, i);
        if cand.code !in existing {
          var courseArr := CoursesFor(courses, cand.code);
          var subject := Subject(nextSubjectId, cand.code, cand.name, courseArr, Status(colors[i], true, DefaultChosen));
          added := added + [subject];
          nextSubjectId := nextSubjectId + 1;
        }
        i := i + 1;
      }
      assert cands[|cands|..] == [] && colors[|cands|..] == [];
      assert added == ImportedSubjects(existing, cands, courses, colors, start);
      ImportIntoUnfold(prior, cands, courses, colors);
      if WellFormed(prior) {
        ImportKeepsWellFormed(prior, cands, courses, colors);
      }
      subjects := prior + added;
    }
  }

  /** One step of the import loop: the candidate at `i` is either skipped or
      becomes the next subject. */
  lemma ImportStep(existing: seq<string>, cands: seq<ParsedSubject>, courses: seq<ParsedCourse>,
                   colors: seq<string>, next: int, i: int)
    requires |colors| == |cands| && 0 <= i < |cands|
    ensures cands[i].code in existing ==>
      ImportedSubjects(existing, cands[i..], courses, colors[i..], next)
      == ImportedSubjects(existing, cands[i + 1..], courses, colors[i + 1..], next)
    ensures cands[i].code !in existing ==>
      ImportedSubjects(existing, cands[i..], courses, colors[i..], next)
      == [Subject(next, cands[i].code, cands[i].name, NumberedCourses(courses, cands[i].code, 1),
                  Status(colors[i], true, DefaultChosen))]
         + ImportedSubjects(existing, cands[i + 1..], courses, colors[i + 1..], next + 1)
  {
    assert cands[i..][1..] == cands[i + 1..] && colors[i..][1..] == colors[i + 1..];
  }

  lemma ImportIntoUnfold(store: seq<Subject>, cands: seq<ParsedSubject>, courses: seq<ParsedCourse>, colors: seq<string>)
    requires |colors| == |cands|
    ensures ImportInto(store, cands, courses, colors)
         == store + ImportedSubjects(Codes(store), cands, courses, colors, NextImportId(store))
  {
  }

  /** The inner `map` of `importFromArrays`, with its counter `nextCourseId`. */
  method CoursesFor(courses: seq<ParsedCourse>, code: string) returns (courseArr: seq<Course>)
    ensures courseArr == NumberedCourses(courses, code, 1)
  {
    courseArr := [];
    var nextCourseId := 1;
    var j := 0;
    while j < |courses|
      invariant 0 <= j <= |courses|
      invariant courseArr + NumberedCourses(courses[j..], code, nextCourseId) == NumberedCourses(courses, code, 1)
    {
      assert courses[j..][1..] == courses[j + 1..];
      if courses[j].subject == code {
        courseArr := courseArr + [ImportedCourse(courses[j], nextCourseId)];
        nextCourseId := nextCourseId + 1;
      }
      j := j + 1;
    }
    assert courses[|courses|..] == [];
  }
}
