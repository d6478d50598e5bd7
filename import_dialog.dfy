// The import dialog: search results are listed per subject with a checkbox
// for the subject and one for each of its courses. Two lists of prefixed ids
// ('s' + subject id, 'c' + course id) record what is ticked, with cascade
// rules between a subject and its courses; importing passes the ticked
// subjects and courses, in result order, to the store's import.

module ImportDialog {
  import opened Model
  import opened Text
  import opened Seqs
  import Store

  /** The checkbox id of a subject. */
  function SubjectTag(id: int): string { "s" + IntToString(id) }

  /** The checkbox id of a course. */
  function CourseTag(id: int): string { "c" + IntToString(id) }

  /** Checkbox ids name one subject or course each, and never clash across kinds. */
  lemma TagsInjective(a: int, b: int)
    ensures CourseTag(a) == CourseTag(b) <==> a == b
    ensures SubjectTag(a) == SubjectTag(b) <==> a == b
    ensures CourseTag(a) != SubjectTag(b)
  {
    if CourseTag(a) == CourseTag(b) {
      assert IntToString(a) == CourseTag(a)[1..];
      assert IntToString(b) == CourseTag(b)[1..];
      IntToStringInjective(a, b);
    }
    if SubjectTag(a) == SubjectTag(b) {
      assert IntToString(a) == SubjectTag(a)[1..];
      assert IntToString(b) == SubjectTag(b)[1..];
      IntToStringInjective(a, b);
    }
    assert CourseTag(a)[0] != SubjectTag(b)[0];
  }

  predicate NoDuplicates<T(==)>(s: seq<T>)
  {
    forall i, j :: 0 <= i < j < |s| ==> s[i] != s[j]
  }

  /** `getCourseIdsForSubject(code)`: the course checkbox ids of the results
      belonging to the subject `code`, in result order. */
  function CourseIdsFor(courses: seq<ParsedCourse>, code: string): (ids: seq<string>)
    ensures |ids| <= |courses|
    ensures forall c :: c in courses && c.subject == code ==> CourseTag(c.id) in ids
    ensures forall x :: x in ids ==> exists c :: c in courses && c.subject == code && x == CourseTag(c.id)
  {
    if courses == [] then []
    else
      var rest := CourseIdsFor(courses[1..], code);
      assert forall c :: c in courses ==> c == courses[0] || c in courses[1..];
      if courses[0].subject == code then [CourseTag(courses[0].id)] + rest else rest
  }

  /** The results that belong to the subject `code`. */
  function OfSubject(code: string): ParsedCourse -> bool
  {
    (c: ParsedCourse) => c.subject == code
  }

  /** The ids follow the subject's results one for one, in result order. */
  lemma {:induction false} CourseIdsInResultOrder(courses: seq<ParsedCourse>, code: string)
    ensures var mine := Filter(courses, OfSubject(code));
      var ids := CourseIdsFor(courses, code);
      && |ids| == |mine|
      && forall i :: 0 <= i < |ids| ==> ids[i] == CourseTag(mine[i].id)
  {
    if courses != [] {
      CourseIdsInResultOrder(courses[1..], code);
    }
  }

  /** Result courses with distinct ids give distinct checkbox ids. */
  lemma {:induction false} CourseIdsDistinct(courses: seq<ParsedCourse>, code: string)
    requires forall i, j :: 0 <= i < j < |courses| ==> courses[i].id != courses[j].id
    ensures NoDuplicates(CourseIdsFor(courses, code))
  {
    if courses != [] {
      var rest := CourseIdsFor(courses[1..], code);
      CourseIdsDistinct(courses[1..], code);
      if courses[0].subject == code {
        FirstTagNotInRest(courses, code);
        ConsNoDuplicates(CourseTag(courses[0].id), rest);
      }
    }
  }

  /** A course id none of the results carries has no checkbox among them. */
  lemma {:induction false} TagNotListed(courses: seq<ParsedCourse>, code: string, id: int)
    requires forall c :: c in courses ==> c.id != id
    ensures CourseTag(id) !in CourseIdsFor(courses, code)
  {
    if courses != [] {
      assert forall c :: c in courses[1..] ==> c in courses;
      TagNotListed(courses[1..], code, id);
      TagsInjective(courses[0].id, id);
    }
  }

  lemma FirstTagNotInRest(courses: seq<ParsedCourse>, code: string)
    requires courses != []
    requires forall i, j :: 0 <= i < j < |courses| ==> courses[i].id != courses[j].id
    ensures CourseTag(courses[0].id) !in CourseIdsFor(courses[1..], code)
  {
    forall c | c in courses[1..] ensures c.id != courses[0].id {
      var k :| 0 <= k < |courses[1..]| && courses[1..][k] == c;
      assert courses[k + 1] == c;
    }
    TagNotListed(courses[1..], code, courses[0].id);
  }

  lemma ConsNoDuplicates<T>(x: T, rest: seq<T>)
    requires NoDuplicates(rest) && x !in rest
    ensures NoDuplicates([x] + rest)
  {
    var r := [x] + rest;
    forall i, j | 0 <= i < j < |r| ensures r[i] != r[j] {
      if i == 0 {
        assert r[j] == rest[j - 1] && r[j] in rest;
      } else {
        assert r[i] == rest[i - 1] && r[j] == rest[j - 1];
      }
    }
  }

  /** The two lists of ticked checkbox ids. */
  datatype Selection = Selection(subjects: seq<string>, courses: seq<string>)

  const Nothing := Selection([], [])

  /** `handleSubjectChange`: ticking a subject adds it and those of its courses
      not yet ticked; unticking removes it and all of its courses. */
  function SubjectChange(sel: Selection, subjectId: string, ids: seq<string>, checked: bool): (r: Selection)
    ensures checked ==>
      && r.subjects == sel.subjects + [subjectId]
      && |sel.courses| <= |r.courses| && r.courses[..|sel.courses|] == sel.courses
      && (forall x :: x in r.courses <==> x in sel.courses || x in ids)
    ensures !checked ==>
      && IsSubseq(r.subjects, sel.subjects) && IsSubseq(r.courses, sel.courses)
      && (forall x :: x in r.subjects <==> x in sel.subjects && x != subjectId)
      && (forall x :: x in r.courses <==> x in sel.courses && x !in ids)
  {
    if checked then
      var added := Filter(ids, (id: string) => id !in sel.courses);
      var r := Selection(sel.subjects + [subjectId], sel.courses + added);
      assert r.courses[..|sel.courses|] == sel.courses;
      r
    else
      Selection(Filter(sel.subjects, (id: string) => id != subjectId),
                Filter(sel.courses, (id: string) => id !in ids))
  }

  lemma {:induction false} FilterKeepsNoDuplicates<T(!new)>(s: seq<T>, keep: T -> bool)
    requires NoDuplicates(s)
    ensures NoDuplicates(Filter(s, keep))
  {
    if s != [] {
      FilterKeepsNoDuplicates(s[1..], keep);
      var rest := Filter(s[1..], keep);
      if keep(s[0]) {
        assert forall k :: 0 <= k < |s[1..]| ==> s[1..][k] == s[k + 1] && s[k + 1] != s[0];
        ConsNoDuplicates(s[0], rest);
      }
    }
  }

  /** Ticking a subject never ticks a course twice. */
  lemma SubjectChangeNoDuplicates(sel: Selection, subjectId: string, ids: seq<string>, checked: bool)
    requires NoDuplicates(sel.courses) && NoDuplicates(ids)
    ensures NoDuplicates(SubjectChange(sel, subjectId, ids, checked).courses)
  {
    if checked {
      var added := Filter(ids, (id: string) => id !in sel.courses);
      FilterKeepsNoDuplicates(ids, (id: string) => id !in sel.courses);
      var r := sel.courses + added;
      forall i, j | 0 <= i < j < |r| ensures r[i] != r[j] {
        if j >= |sel.courses| && i < |sel.courses| {
          assert r[j] == added[j - |sel.courses|] && r[j] in added;
          assert r[i] in sel.courses;
        } else if i >= |sel.courses| {
          assert r[i] == added[i - |sel.courses|] && r[j] == added[j - |sel.courses|];
        }
      }
    } else {
      FilterKeepsNoDuplicates(sel.courses, (id: string) => id !in ids);
    }
  }

  /** `handleCourseChange`: ticking a course adds it and, if missing, its
      subject; unticking removes it and drops the subject once none of the
      subject's courses is ticked any more. */
  function CourseChange(sel: Selection, courseId: string, subjectId: string, ids: seq<string>, checked: bool)
    : (r: Selection)
    ensures checked ==>
      && r.courses == sel.courses + [courseId]
      && subjectId in r.subjects
      && r.subjects == (if subjectId in sel.subjects then sel.subjects else sel.subjects + [subjectId])
    ensures !checked ==>
      && IsSubseq(r.courses, sel.courses)
      && (forall x :: x in r.courses <==> x in sel.courses && x != courseId)
      && (forall x :: x != subjectId ==> (x in r.subjects <==> x in sel.subjects))
      && (subjectId in r.subjects <==> subjectId in sel.subjects && exists id :: id in ids && id in r.courses)
  {
    if checked then
      Selection(if subjectId in sel.subjects then sel.subjects else sel.subjects + [subjectId],
                sel.courses + [courseId])
    else
      var remaining := Filter(sel.courses, (id: string) => id != courseId);
      if exists id :: id in ids && id in remaining then Selection(sel.subjects, remaining)
      else Selection(Filter(sel.subjects, (id: string) => id != subjectId), remaining)
  }

  /** The results whose checkbox is ticked, in result order. */
  function TickedCourses(courses: seq<ParsedCourse>, ticked: seq<string>): (r: seq<ParsedCourse>)
    ensures IsSubseq(r, courses)
    ensures forall c :: c in r <==> c in courses && CourseTag(c.id) in ticked
  {
    Filter(courses, (c: ParsedCourse) => CourseTag(c.id) in ticked)
  }

  /** The result subjects whose checkbox is ticked, in result order. */
  function TickedSubjects(subjects: seq<ParsedSubject>, ticked: seq<string>): (r: seq<ParsedSubject>)
    ensures IsSubseq(r, subjects)
    ensures forall s :: s in r <==> s in subjects && SubjectTag(s.id) in ticked
  {
    Filter(subjects, (s: ParsedSubject) => SubjectTag(s.id) in ticked)
  }

  /** After ticking a subject, importing passes every one of its courses. */
  lemma TickedSubjectImportsAllItsCourses(courses: seq<ParsedCourse>, sel: Selection, s: ParsedSubject)
    ensures var r := SubjectChange(sel, SubjectTag(s.id), CourseIdsFor(courses, s.code), true);
      && s in TickedSubjects([s], r.subjects)
      && forall c :: c in courses && c.subject == s.code ==> c in TickedCourses(courses, r.courses)
  {
  }

  /** After unticking a subject, importing passes none of its courses, provided
      course ids are distinct. */
  lemma {:induction false} UntickedSubjectImportsNoneOfItsCourses(courses: seq<ParsedCourse>, sel: Selection, s: ParsedSubject)
    requires forall i, j :: 0 <= i < j < |courses| ==> courses[i].id != courses[j].id
    ensures var r := SubjectChange(sel, SubjectTag(s.id), CourseIdsFor(courses, s.code), false);
      && TickedSubjects([s], r.subjects) == []
      && forall c :: c in TickedCourses(courses, r.courses) ==> c.subject != s.code
  {
    var r := SubjectChange(sel, SubjectTag(s.id), CourseIdsFor(courses, s.code), false);
    forall c | c in TickedCourses(courses, r.courses) ensures c.subject != s.code {
      assert CourseTag(c.id) in r.courses;
      assert c.subject == s.code ==> CourseTag(c.id) in CourseIdsFor(courses, s.code);
    }
    assert s !in TickedSubjects([s], r.subjects);
  }

  /** Unticking the only ticked course of a subject unticks the subject too. */
  lemma UntickLastCourseDropsSubject(sel: Selection, courseId: string, subjectId: string, ids: seq<string>)
    requires forall x :: x in ids && x in sel.courses ==> x == courseId
    ensures subjectId !in CourseChange(sel, courseId, subjectId, ids, false).subjects
  {
  }

  class ImportDialog {
    /** The search results on display. */
    var courses: seq<ParsedCourse>
    var subjects: seq<ParsedSubject>
    /** The codes the dialog warns about; the dialog is not always given them. */
    const existingCodes: Option<seq<string>>
    var selectedSubjects: seq<string>
    var selectedCourses: seq<string>

    function Selected(): Selection
      reads this
    {
      Selection(selectedSubjects, selectedCourses)
    }

    constructor(existingCodes: Option<seq<string>>)
      ensures this.existingCodes == existingCodes
      ensures courses == [] && subjects == [] && Selected() == Nothing
    {
      this.existingCodes := existingCodes;
      courses := [];
      subjects := [];
      selectedSubjects := [];
      selectedCourses := [];
    }

    /** New search results arrive: every tick is cleared. */
    method ReceiveResults(newCourses: seq<ParsedCourse>, newSubjects: seq<ParsedSubject>)
      modifies this
      ensures courses == newCourses && subjects == newSubjects
      ensures Selected() == Nothing
    {
      courses := newCourses;
      subjects := newSubjects;
      selectedSubjects := [];
      selectedCourses := [];
    }

    /** `subjectExists(code)`: whether the subject row shows the warning. */
    function SubjectExists(code: string): (r: bool)
      reads this
      ensures r <==> existingCodes.Some? && code in existingCodes.value
    {
      existingCodes.Some? && code in existingCodes.value
    }

    method HandleSubjectChange(subjectId: string, subjectCode: string, checked: bool)
      modifies this
      ensures courses == old(courses) && subjects == old(subjects)
      ensures Selected() == SubjectChange(old(Selected()), subjectId, CourseIdsFor(courses, subjectCode), checked)
    {
      var next := SubjectChange(Selected(), subjectId, CourseIdsFor(courses, subjectCode), checked);
      selectedSubjects := next.subjects;
      selectedCourses := next.courses;
    }

    method HandleCourseChange(courseId: string, subjectId: string, subjectCode: string, checked: bool)
      modifies this
      ensures courses == old(courses) && subjects == old(subjects)
      ensures Selected() == CourseChange(old(Selected()), courseId, subjectId, CourseIdsFor(courses, subjectCode), checked)
    {
      var next := CourseChange(Selected(), courseId, subjectId, CourseIdsFor(courses, subjectCode), checked);
      selectedSubjects := next.subjects;
      selectedCourses := next.courses;
    }

    /** `handleImport`: the arguments passed to the store's import. */
    function HandleImport(): (call: (seq<ParsedSubject>, seq<ParsedCourse>))
      reads this
      ensures call.0 == TickedSubjects(subjects, selectedSubjects)
      ensures call.1 == TickedCourses(courses, selectedCourses)
    {
      (TickedSubjects(subjects, selectedSubjects), TickedCourses(courses, selectedCourses))
    }
  }

  /** The warning says the existing subject will be overwritten, but the
      import keeps the existing subject as it is and adds no second subject
      with that code. */
  lemma WarnedSubjectIsKept(store: seq<Subject>, cands: seq<ParsedSubject>, courses: seq<ParsedCourse>,
                            colors: seq<string>, i: int)
    requires |colors| == |cands| && 0 <= i < |store|
    ensures var r := Store.ImportInto(store, cands, courses, colors);
      && r[i] == store[i]
      && forall j :: |store| <= j < |r| ==> r[j].code != store[i].code
  {
    var r := Store.ImportInto(store, cands, courses, colors);
    assert r[i] == r[..|store|][i];
    assert store[i].code == Store.Codes(store)[i];
  }
}
