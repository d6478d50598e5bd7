// The search side of the catalogue client: the semester labels offered for
// searching, and the combination of parsed result lists (a subject search
// merges a code search with a name search and drops repeats; a subject plus
// instructor search keeps the courses both searches found).

module ServerApi {
  import opened Model
  import opened Text
  import opened Seqs

  // ---------------------------------------------------------------------------
  // Semesters
  // ---------------------------------------------------------------------------

  /** The template `${start}-${end}-${half}` the labels are written with. */
  function Template(start: int, end: int, half: string): string
  {
    IntToString(start) + "-" + IntToString(end) + "-" + half
  }

  /** A semester: the academic year starting in `start`, first (autumn) or
      second (spring) half. */
  datatype Semester = Semester(start: int, half: int)

  /** The label the search form sends. */
  function Label(s: Semester): string
  {
    Template(s.start, s.start + 1, IntToString(s.half))
  }

  /** The semester before `s`. */
  function Previous(s: Semester): (p: Semester)
    requires s.half == 1 || s.half == 2
    ensures p.half == 1 || p.half == 2
    ensures p != s
    ensures p.start == s.start || p.start == s.start - 1
  {
    if s.half == 2 then Semester(s.start, 1) else Semester(s.start - 1, 2)
  }

  /** The semester current in month `month` (0 for January) of `year`: the
      autumn one from July on, the spring one before. */
  function Current(year: int, month: int): (s: Semester)
    ensures s.half == 1 || s.half == 2
  {
    if month >= 6 then Semester(year, 1) else Semester(year - 1, 2)
  }

  lemma HalfDigits()
    ensures IntToString(1) == "1" && IntToString(2) == "2"
  {
  }

  /** `getSemesters()` for the given year and month: the current semester
      and the two before it, newest first. */
  method GetSemesters(year: int, month: int) returns (semesters: seq<string>)
    ensures var c := Current(year, month);
      semesters == [Label(c), Label(Previous(c)), Label(Previous(Previous(c)))]
  {
    HalfDigits();
    semesters := [];
    if month >= 6 {
      semesters := semesters + [Template(year, year + 1, "1")];
      semesters := semesters + [Template(year - 1, year, "2")];
      semesters := semesters + [Template(year - 1, year, "1")];
    } else {
      semesters := semesters + [Template(year - 1, year, "2")];
      semesters := semesters + [Template(year - 1, year, "1")];
      semesters := semesters + [Template(year - 2, year - 1, "2")];
    }
  }

  /** `getCurrentSemester()`: the first of the offered semesters. */
  method GetCurrentSemester(year: int, month: int) returns (semester: string)
    ensures semester == Label(Current(year, month))
  {
    var semesters := GetSemesters(year, month);
    semester := semesters[0];
  }

  /** A digit string followed by '-' is determined by where the '-' is. */
  lemma {:induction false} SplitAtDash(a: string, x: string, b: string, y: string)
    requires AllDigits(a) && AllDigits(b) && a + "-" + x == b + "-" + y
    ensures a == b && x == y
  {
    var l, r := a + "-" + x, b + "-" + y;
    assert forall k :: 0 <= k < |a| ==> l[k] == a[k] && l[k] != '-';
    assert forall k :: 0 <= k < |b| ==> r[k] == b[k] && r[k] != '-';
    assert l[|a|] == '-' && r[|b|] == '-';
    assert |a| == |b|;
    assert a == l[..|a|] && b == r[..|b|];
    assert x == l[|a| + 1..] && y == r[|b| + 1..];
  }

  /** Two digit strings, a dash, two more digit strings and a tail: the
      parts are determined by the whole. */
  lemma SplitTwoDashes(p: string, q: string, r: string, p2: string, q2: string, r2: string)
    requires AllDigits(p) && AllDigits(q) && AllDigits(p2) && AllDigits(q2)
    requires p + "-" + q + "-" + r == p2 + "-" + q2 + "-" + r2
    ensures p == p2 && q == q2 && r == r2
  {
    assert p + "-" + q + "-" + r == p + "-" + (q + "-" + r);
    assert p2 + "-" + q2 + "-" + r2 == p2 + "-" + (q2 + "-" + r2);
    SplitAtDash(p, q + "-" + r, p2, q2 + "-" + r2);
    SplitAtDash(q, r, q2, r2);
  }

  lemma NatRendering(n: nat)
    ensures IntToString(n) == NatToString(n) && AllDigits(IntToString(n))
  {
  }

  /** The template determines its start year and its half. */
  lemma TemplateInjective(a: nat, h: nat, b: nat, k: nat)
    requires Template(a, a + 1, IntToString(h)) == Template(b, b + 1, IntToString(k))
    ensures a == b && h == k
  {
    NatRendering(a);
    NatRendering(a + 1);
    NatRendering(b);
    NatRendering(b + 1);
    SplitTwoDashes(IntToString(a), IntToString(a + 1), IntToString(h),
                   IntToString(b), IntToString(b + 1), IntToString(k));
    IntToStringInjective(a, b);
    IntToStringInjective(h, k);
  }

  /** From the year 0 on, different semesters have different labels. */
  lemma LabelInjective(s: Semester, t: Semester)
    requires s.start >= 0 && t.start >= 0 && s.half >= 0 && t.half >= 0
    ensures Label(s) == Label(t) ==> s == t
  {
    if Label(s) == Label(t) {
      TemplateInjective(s.start, s.half, t.start, t.half);
    }
  }

  /** The three offered semesters are distinct whenever the year is 2 or later. */
  lemma SemestersDistinct(year: int, month: int)
    requires year >= 2
    ensures var c := Current(year, month);
      var p := Previous(c);
      var q := Previous(p);
      Label(c) != Label(p) && Label(p) != Label(q) && Label(c) != Label(q)
  {
    var c := Current(year, month);
    var p := Previous(c);
    var q := Previous(p);
    LabelInjective(c, p);
    LabelInjective(p, q);
    LabelInjective(c, q);
  }

  // ---------------------------------------------------------------------------
  // The eight fields that identify a course across searches
  // ---------------------------------------------------------------------------

  datatype Key = Key(subject: string, course: string, kind: string, day: string,
                     startTime: string, endTime: string, instructor: string, location: string)

  function KeyOf(c: ParsedCourse): Key
  {
    Key(c.subject, c.course, c.kind, c.day, c.startTime, c.endTime, c.instructor, c.location)
  }

  /** `self.findIndex(c => same eight fields as k)`, -1 when absent. */
  function FindIndex(cs: seq<ParsedCourse>, k: Key): (i: int)
    ensures -1 <= i < |cs|
    ensures i >= 0 ==> KeyOf(cs[i]) == k && forall j :: 0 <= j < i ==> KeyOf(cs[j]) != k
    ensures i == -1 ==> forall j :: 0 <= j < |cs| ==> KeyOf(cs[j]) != k
  {
    if cs == [] then -1
    else if KeyOf(cs[0]) == k then 0
    else
      var i := FindIndex(cs[1..], k);
      assert forall j :: 1 <= j < |cs| ==> cs[j] == cs[1..][j - 1];
      if i == -1 then -1 else i + 1
  }

  /** The courses at positions `from` on that are the first with their key. */
  function FirstOccurrences(cs: seq<ParsedCourse>, from: nat): seq<ParsedCourse>
    decreases |cs| - from
  {
    if from >= |cs| then []
    else (if FindIndex(cs, KeyOf(cs[from])) == from then [cs[from]] else []) + FirstOccurrences(cs, from + 1)
  }

  /** `cs.filter((course, index, self) => index === self.findIndex(…))`. */
  function Dedup(cs: seq<ParsedCourse>): seq<ParsedCourse>
  {
    FirstOccurrences(cs, 0)
  }

  /** Every kept course is the first course with its key, found at or after `from`. */
  lemma {:induction false} FirstOccurrencesAreFirst(cs: seq<ParsedCourse>, from: nat)
    ensures forall x :: x in FirstOccurrences(cs, from) ==>
      from <= FindIndex(cs, KeyOf(x)) && cs[FindIndex(cs, KeyOf(x))] == x
    decreases |cs| - from
  {
    if from < |cs| {
      FirstOccurrencesAreFirst(cs, from + 1);
    }
  }

  /** No two courses of `r` share a key. */
  predicate DistinctKeys(r: seq<ParsedCourse>)
  {
    forall i, j :: 0 <= i < j < |r| ==> KeyOf(r[i]) != KeyOf(r[j])
  }

  /** A kept course's key does not come back later among the kept ones. */
  lemma FirstKeyNotRepeated(cs: seq<ParsedCourse>, from: nat, x: ParsedCourse)
    requires from < |cs| && FindIndex(cs, KeyOf(cs[from])) == from
    requires x in FirstOccurrences(cs, from + 1)
    ensures KeyOf(x) != KeyOf(cs[from])
  {
    FirstOccurrencesAreFirst(cs, from + 1);
  }

  lemma ConsDistinctKeys(x: ParsedCourse, rest: seq<ParsedCourse>)
    requires DistinctKeys(rest) && forall y :: y in rest ==> KeyOf(y) != KeyOf(x)
    ensures DistinctKeys([x] + rest)
  {
    var r := [x] + rest;
    forall i, j | 0 <= i < j < |r| ensures KeyOf(r[i]) != KeyOf(r[j]) {
      assert r[j] == rest[j - 1];
      if i == 0 {
        assert rest[j - 1] in rest;
      } else {
        assert r[i] == rest[i - 1];
      }
    }
  }

  /** No two kept courses share a key. */
  lemma {:induction false} FirstOccurrencesDistinctKeys(cs: seq<ParsedCourse>, from: nat)
    ensures DistinctKeys(FirstOccurrences(cs, from))
    decreases |cs| - from
  {
    if from < |cs| {
      var rest := FirstOccurrences(cs, from + 1);
      FirstOccurrencesDistinctKeys(cs, from + 1);
      if FindIndex(cs, KeyOf(cs[from])) == from {
        forall y | y in rest ensures KeyOf(y) != KeyOf(cs[from]) {
          FirstKeyNotRepeated(cs, from, y);
        }
        ConsDistinctKeys(cs[from], rest);
      }
    }
  }

  /** Every course from `from` on whose key first appears at or after `from`
      is represented by that first course. */
  lemma {:induction false} FirstOccurrencesCover(cs: seq<ParsedCourse>, from: nat, i: int)
    requires from <= i < |cs| && FindIndex(cs, KeyOf(cs[i])) >= from
    ensures cs[FindIndex(cs, KeyOf(cs[i]))] in FirstOccurrences(cs, from)
    decreases |cs| - from
  {
    var f := FindIndex(cs, KeyOf(cs[i]));
    var head := if FindIndex(cs, KeyOf(cs[from])) == from then [cs[from]] else [];
    assert FirstOccurrences(cs, from) == head + FirstOccurrences(cs, from + 1);
    if f != from {
      assert i != from;
      FirstOccurrencesCover(cs, from + 1, i);
    } else {
      assert KeyOf(cs[from]) == KeyOf(cs[i]);
      assert head == [cs[f]];
    }
  }

  lemma {:induction false} FirstOccurrencesSubseq(cs: seq<ParsedCourse>, from: nat)
    requires from <= |cs|
    ensures IsSubseq(FirstOccurrences(cs, from), cs[from..])
    decreases |cs| - from
  {
    if from < |cs| {
      var rest := FirstOccurrences(cs, from + 1);
      FirstOccurrencesSubseq(cs, from + 1);
      FirstOccurrencesAreFirst(cs, from + 1);
      assert cs[from..][1..] == cs[from + 1..];
      assert cs[from..][0] == cs[from];
      if FindIndex(cs, KeyOf(cs[from])) == from {
        assert FirstOccurrences(cs, from) == [cs[from]] + rest;
        assert ([cs[from]] + rest)[1..] == rest;
      } else {
        assert FirstOccurrences(cs, from) == rest;
        if rest != [] {
          assert rest[0] in rest;
          assert rest[0] != cs[from];
        }
      }
    }
  }

  /** Dropping repeats keeps the order, leaves one course per key, and that
      course is the first one with the key. */
  lemma DedupFacts(cs: seq<ParsedCourse>)
    ensures var r := Dedup(cs);
      && IsSubseq(r, cs)
      && DistinctKeys(r)
      && (forall i :: 0 <= i < |cs| ==> cs[FindIndex(cs, KeyOf(cs[i]))] in r)
  {
    assert Dedup(cs) == FirstOccurrences(cs, 0);
    FirstOccurrencesSubseq(cs, 0);
    assert cs[0..] == cs;
    FirstOccurrencesDistinctKeys(cs, 0);
    forall i | 0 <= i < |cs| ensures cs[FindIndex(cs, KeyOf(cs[i]))] in Dedup(cs) {
      FirstOccurrencesCover(cs, 0, i);
    }
  }

  /** `cs.map((course, index) => ({...course, id: index}))`. */
  function Reindex(cs: seq<ParsedCourse>): (r: seq<ParsedCourse>)
    ensures |r| == |cs|
    ensures forall i :: 0 <= i < |cs| ==> r[i].id == i && KeyOf(r[i]) == KeyOf(cs[i])
    ensures forall i :: 0 <= i < |cs| ==> r[i] == cs[i].(id := i)
  {
    seq(|cs|, i requires 0 <= i < |cs| => cs[i].(id := i))
  }

  /** `searchCoursesBySubject`: the code search's courses, then the name
      search's, each key once, renumbered from 0. */
  function SearchBySubject(byCode: seq<ParsedCourse>, byName: seq<ParsedCourse>): seq<ParsedCourse>
  {
    Reindex(Dedup(byCode + byName))
  }

  /** A subject search lists every course either search found exactly once
      (by key), with ids 0, 1, 2, ... */
  lemma SearchBySubjectFacts(byCode: seq<ParsedCourse>, byName: seq<ParsedCourse>)
    ensures var r := SearchBySubject(byCode, byName);
      && (forall i :: 0 <= i < |r| ==> r[i].id == i)
      && DistinctKeys(r)
      && (forall c :: c in byCode + byName ==> exists i :: 0 <= i < |r| && KeyOf(r[i]) == KeyOf(c))
  {
    var all := byCode + byName;
    var d := Dedup(all);
    var r := SearchBySubject(byCode, byName);
    DedupFacts(all);
    forall c | c in all ensures exists i :: 0 <= i < |r| && KeyOf(r[i]) == KeyOf(c) {
      var p :| 0 <= p < |all| && all[p] == c;
      var first := all[FindIndex(all, KeyOf(c))];
      assert first in d;
      var i :| 0 <= i < |d| && d[i] == first;
      assert KeyOf(r[i]) == KeyOf(first);
    }
  }

  /** The courses of `cs` that have a same-key course in `others`. */
  function Intersect(cs: seq<ParsedCourse>, others: seq<ParsedCourse>): (r: seq<ParsedCourse>)
    ensures IsSubseq(r, cs)
    ensures forall c :: c in r <==> c in cs && exists d :: d in others && KeyOf(d) == KeyOf(c)
  {
    Filter(cs, (c: ParsedCourse) => exists d :: d in others && KeyOf(d) == KeyOf(c))
  }

  /** The subjects that have at least one of the given courses. */
  function RelevantSubjects(subjects: seq<ParsedSubject>, cs: seq<ParsedCourse>): (r: seq<ParsedSubject>)
    ensures IsSubseq(r, subjects)
    ensures forall s :: s in r <==> s in subjects && exists c :: c in cs && c.subject == s.code
  {
    Filter(subjects, (s: ParsedSubject) => exists c :: c in cs && c.subject == s.code)
  }

  /** `searchCoursesBySubjectAndInstructor`: from the subject search's
      result, the courses the instructor search also found, renumbered, and
      the subjects that still have a course. */
  function SearchBySubjectAndInstructor(subjectCourses: seq<ParsedCourse>, subjectSubjects: seq<ParsedSubject>,
                                        instructorCourses: seq<ParsedCourse>)
    : (r: (seq<ParsedCourse>, seq<ParsedSubject>))
  {
    var both := Intersect(subjectCourses, instructorCourses);
    (Reindex(both), RelevantSubjects(subjectSubjects, both))
  }

  /** The combined search renumbers from 0, and each of its courses was
      found by both searches. */
  lemma CombinedCoursesFoundByBoth(subjectCourses: seq<ParsedCourse>, subjectSubjects: seq<ParsedSubject>,
                                   instructorCourses: seq<ParsedCourse>, i: int)
    requires 0 <= i < |SearchBySubjectAndInstructor(subjectCourses, subjectSubjects, instructorCourses).0|
    ensures var courses := SearchBySubjectAndInstructor(subjectCourses, subjectSubjects, instructorCourses).0;
      && courses[i].id == i
      && (exists c :: c in subjectCourses && KeyOf(c) == KeyOf(courses[i]))
      && (exists d :: d in instructorCourses && KeyOf(d) == KeyOf(courses[i]))
  {
    var both := Intersect(subjectCourses, instructorCourses);
    assert both[i] in both;
  }

  /** Every subject the combined search keeps has one of its courses. */
  lemma CombinedSubjectsHaveCourses(subjectCourses: seq<ParsedCourse>, subjectSubjects: seq<ParsedSubject>,
                                    instructorCourses: seq<ParsedCourse>, s: ParsedSubject)
    requires s in SearchBySubjectAndInstructor(subjectCourses, subjectSubjects, instructorCourses).1
    ensures var courses := SearchBySubjectAndInstructor(subjectCourses, subjectSubjects, instructorCourses).0;
      s in subjectSubjects && exists i :: 0 <= i < |courses| && courses[i].subject == s.code
  {
    var both := Intersect(subjectCourses, instructorCourses);
    var courses := Reindex(both);
    var c :| c in both && c.subject == s.code;
    var i :| 0 <= i < |both| && both[i] == c;
    assert courses[i].subject == c.subject;
  }

  /** A course of the subject search that the instructor search also found
      is in the combined search. */
  lemma CombinedKeepsCommonCourses(subjectCourses: seq<ParsedCourse>, subjectSubjects: seq<ParsedSubject>,
                                   instructorCourses: seq<ParsedCourse>, c: ParsedCourse, d: ParsedCourse)
    requires c in subjectCourses && d in instructorCourses && KeyOf(d) == KeyOf(c)
    ensures var courses := SearchBySubjectAndInstructor(subjectCourses, subjectSubjects, instructorCourses).0;
      exists i :: 0 <= i < |courses| && KeyOf(courses[i]) == KeyOf(c)
  {
    var both := Intersect(subjectCourses, instructorCourses);
    assert c in both;
    var i :| 0 <= i < |both| && both[i] == c;
    assert KeyOf(Reindex(both)[i]) == KeyOf(c);
  }

  /** `fetchSubjectCourses`: only the courses of the requested subject. */
  function CoursesOfSubject(cs: seq<ParsedCourse>, code: string): (r: seq<ParsedCourse>)
    ensures IsSubseq(r, cs)
    ensures forall c :: c in r <==> c in cs && c.subject == code
  {
    Filter(cs, (c: ParsedCourse) => c.subject == code)
  }
}
