// The forms that create and edit subjects and courses, and the checks that
// decide whether a submission reaches the store: the subject adder's
// defaulting of code and name, and the course forms' required-field,
// reserved-code and time-order checks.

module Forms {
  import opened Model
  import opened Text

  /** The inputs every course form insists on; the type, the day and the notes are optional. */
  const RequiredNames: seq<string> := ["code", "instructor", "location", "startTime", "endTime"]

  const RequiredMessage := "Ennek a mezőnek a kitöltése kötelező!"
  const ReservedCodeMessage := "A kód nem lehet 0 vagy -1!"
  const EndNotAfterStartMessage := "A végidőpontnak nagyobbnak kell lennie, mint a kezdőidőpont!"

  /** The value of the `i`-th required input. */
  function FieldAt(f: CourseFields, i: int): string
    requires 0 <= i < |RequiredNames|
  {
    if i == 0 then f.course
    else if i == 1 then f.instructor
    else if i == 2 then f.location
    else if i == 3 then f.startTime
    else f.endTime
  }

  /** "0" and "-1" are the selection markers for "none" and "locked", so no
      course may carry them as its code. */
  predicate IsReservedCode(code: string) { code == "0" || code == "-1" }

  predicate HasEmptyRequired(f: CourseFields)
  {
    f.course == "" || f.instructor == "" || f.location == "" || f.startTime == "" || f.endTime == ""
  }

  lemma EmptyRequiredAt(f: CourseFields)
    ensures HasEmptyRequired(f) <==> exists i :: 0 <= i < |RequiredNames| && FieldAt(f, i) == ""
  {
    assert FieldAt(f, 0) == f.course && FieldAt(f, 1) == f.instructor && FieldAt(f, 2) == f.location;
    assert FieldAt(f, 3) == f.startTime && FieldAt(f, 4) == f.endTime;
  }

  /** The validity message each required input is left with by the check,
      listed in the order of `RequiredNames`. */
  function RequiredValidity(f: CourseFields): (m: seq<string>)
    ensures |m| == |RequiredNames|
    ensures forall i :: 0 <= i < |RequiredNames| ==>
      (m[i] == RequiredMessage <==> FieldAt(f, i) == "") && m[i] in {RequiredMessage, ""}
  {
    seq(|RequiredNames|, i requires 0 <= i < |RequiredNames| => if FieldAt(f, i) == "" then RequiredMessage else "")
  }

  /** The loop over the required inputs shared by the three course forms:
      each empty input gets the "required" message, each filled one has it
      cleared, and `emptyFields` records whether any was empty. */
  method CheckRequired(f: CourseFields) returns (validity: seq<string>, emptyFields: bool)
    ensures emptyFields <==> HasEmptyRequired(f)
    ensures validity == RequiredValidity(f)
  {
    validity := [];
    emptyFields := false;
    var i := 0;
    while i < |RequiredNames|
      invariant 0 <= i <= |RequiredNames|
      invariant validity == RequiredValidity(f)[..i]
      invariant emptyFields <==> exists j :: 0 <= j < i && FieldAt(f, j) == ""
    {
      if FieldAt(f, i) == "" {
        validity := validity + [RequiredMessage];
        emptyFields := true;
      } else {
        validity := validity + [""];
      }
      i := i + 1;
    }
    EmptyRequiredAt(f);
  }

  /** Which branch of a course form's `if` chain a submission takes. */
  datatype Verdict = ReservedCode | EmptyFields | EndNotAfterStart | Accepted

  /** The order of the checks: reserved code first, then empty inputs, then
      (only where `checkTimes` is set) start not before end. */
  function VerdictOf(f: CourseFields, checkTimes: bool): (v: Verdict)
    ensures v == Accepted <==>
      !IsReservedCode(f.course) && !HasEmptyRequired(f) && (checkTimes ==> LexLess(f.startTime, f.endTime))
    ensures IsReservedCode(f.course) <==> v == ReservedCode
    ensures v == EndNotAfterStart ==> checkTimes
  {
    if IsReservedCode(f.course) then ReservedCode
    else if HasEmptyRequired(f) then EmptyFields
    else if checkTimes && !LexLess(f.startTime, f.endTime) then EndNotAfterStart
    else Accepted
  }

  /** The subject form checks no time order; the course adder does: a
      filled form with an allowed code passes the first whatever its times,
      and the second exactly when the start comes before the end. */
  lemma SubjectFormSkipsTimeOrder(f: CourseFields)
    requires !IsReservedCode(f.course) && !HasEmptyRequired(f)
    ensures VerdictOf(f, false) == Accepted
    ensures VerdictOf(f, true) == Accepted <==> LexLess(f.startTime, f.endTime)
    ensures VerdictOf(f, true) == EndNotAfterStart <==> !LexLess(f.startTime, f.endTime)
  {
  }

  // ---------------------------------------------------------------------------
  // The course adder (`CourseAdder`)
  // ---------------------------------------------------------------------------

  /** `handleSubmit` of the course adder: the `addCourse` call it makes, if
      any, and the validity messages it leaves on the inputs. */
  method AdderSubmit(subjectId: int, f: CourseFields) returns (call: Option<(int, CourseFields)>, validity: seq<string>)
    ensures call.Some? <==> VerdictOf(f, true) == Accepted
    ensures call.Some? ==> call.value == (subjectId, f)
    ensures IsReservedCode(f.course) ==> validity == RequiredValidity(f)[0 := ReservedCodeMessage]
    ensures VerdictOf(f, true) == EndNotAfterStart ==>
      validity == RequiredValidity(f)[4 := EndNotAfterStartMessage]
    ensures VerdictOf(f, true) in {EmptyFields, Accepted} ==> validity == RequiredValidity(f)
  {
    var emptyFields;
    validity, emptyFields := CheckRequired(f);
    call := None;
    if IsReservedCode(f.course) {
      validity := validity[0 := ReservedCodeMessage];
    } else if emptyFields {
    } else if !LexLess(f.startTime, f.endTime) {
      validity := validity[4 := EndNotAfterStartMessage];
    } else {
      validity := validity[0 := ""];
      call := Some((subjectId, f));
    }
  }

  // ---------------------------------------------------------------------------
  // The course editor (`CourseModal`)
  // ---------------------------------------------------------------------------

  function FieldsOf(c: Course): CourseFields
  {
    CourseFields(c.course, c.kind, c.instructor, c.location, c.day, c.startTime, c.endTime, c.notes)
  }

  /** The error flag of each required input, in the order of `RequiredNames`. */
  function ErrorsFor(f: CourseFields): (e: seq<bool>)
    ensures |e| == |RequiredNames|
    ensures forall i :: 0 <= i < |RequiredNames| ==> (e[i] <==> FieldAt(f, i) == "")
  {
    seq(|RequiredNames|, i requires 0 <= i < |RequiredNames| => FieldAt(f, i) == "")
  }

  const NoErrors: seq<bool> := [false, false, false, false, false]

  /** The edit dialog of one course: the values in its inputs, the error flag
      of each required input, the message on the code input, and whether the
      dialog is open. */
  class CourseEditor {
    const subjectId: int
    var course: Course
    var form: CourseFields
    var errors: seq<bool>
    var codeValidity: string
    var open: bool

    constructor(subjectId: int, course: Course)
      ensures this.subjectId == subjectId && this.course == course
      ensures form == FieldsOf(course) && errors == NoErrors && codeValidity == "" && !open
    {
      this.subjectId := subjectId;
      this.course := course;
      form := FieldsOf(course);
      errors := NoErrors;
      codeValidity := "";
      open := false;
    }

    /** A re-render after the store changed: the course is looked up again
        by its id, while the inputs keep whatever they hold. */
    method CourseStored(c: Course)
      requires c.id == course.id
      modifies this
      ensures course == c
      ensures form == old(form) && errors == old(errors) && codeValidity == old(codeValidity) && open == old(open)
    {
      course := c;
    }

    /** Opening the dialog changes nothing but its visibility. */
    method ShowModal()
      modifies this
      ensures open && form == old(form) && errors == old(errors) && codeValidity == old(codeValidity)
      ensures course == old(course)
    {
      open := true;
    }

    /** Typing into an input. */
    method Edit(f: CourseFields)
      modifies this
      ensures form == f && open == old(open) && errors == old(errors) && codeValidity == old(codeValidity)
      ensures course == old(course)
    {
      form := f;
    }

    /** `handleSave`: flags each required input by emptiness, then runs the
        checks; only an accepted form closes the dialog and calls `updateCourse`. */
    method HandleSave() returns (call: Option<(int, int, CourseFields)>)
      modifies this
      ensures form == old(form) && course == old(course)
      ensures errors == ErrorsFor(form)
      ensures call.Some? <==> VerdictOf(form, true) == Accepted
      ensures call.Some? ==> call.value == (subjectId, course.id, form) && !open && codeValidity == ""
      ensures IsReservedCode(form.course) ==> codeValidity == ReservedCodeMessage && open == old(open)
      ensures VerdictOf(form, true) in {EmptyFields, EndNotAfterStart} ==>
        codeValidity == old(codeValidity) && open == old(open)
    {
      var emptyFields := false;
      var flags: seq<bool> := [];
      var i := 0;
      while i < |RequiredNames|
        invariant 0 <= i <= |RequiredNames|
        invariant flags == ErrorsFor(form)[..i]
        invariant emptyFields <==> exists j :: 0 <= j < i && FieldAt(form, j) == ""
      {
        if FieldAt(form, i) == "" {
          flags := flags + [true];
          emptyFields := true;
        } else {
          flags := flags + [false];
        }
        i := i + 1;
      }
      errors := flags;
      EmptyRequiredAt(form);
      call := None;
      if IsReservedCode(form.course) {
        codeValidity := ReservedCodeMessage;
      } else if emptyFields {
      } else if !LexLess(form.startTime, form.endTime) {
      } else {
        codeValidity := "";
        open := false;
        call := Some((subjectId, course.id, form));
      }
    }

    /** `handleCancel`: puts the values of the course as last stored back
        into the inputs, clears every error flag and closes the dialog. */
    method HandleCancel()
      modifies this
      ensures form == FieldsOf(course) && errors == NoErrors && !open
      ensures course == old(course) && codeValidity == old(codeValidity)
    {
      form := FieldsOf(course);
      errors := NoErrors;
      open := false;
    }
  }

  // ---------------------------------------------------------------------------
  // The subject adder (`SubjectAdder`)
  // ---------------------------------------------------------------------------

  /** `s.replace(/\s+/g, '_')`: every maximal run of whitespace becomes one underscore. */
  function CollapseSpaces(s: string): (r: string)
    ensures forall i :: 0 <= i < |r| ==> !IsSpace(r[i])
    ensures |r| <= |s|
    ensures s != [] ==> r != []
    decreases |s|
  {
    if s == [] then []
    else if IsSpace(s[0]) then "_" + CollapseSpaces(TrimStart(s[1..]))
    else [s[0]] + CollapseSpaces(s[1..])
  }

  predicate AllSpace(w: string)
  {
    forall i :: 0 <= i < |w| ==> IsSpace(w[i])
  }

  /** Trimming the front of a run of white space followed by text that does
      not start with white space leaves that text. */
  lemma {:induction false} TrimStartRun(w: string, b: string)
    requires AllSpace(w)
    requires b != [] ==> !IsSpace(b[0])
    ensures TrimStart(w + b) == b
    decreases |w|
  {
    if w == [] {
      assert w + b == b;
    } else {
      assert (w + b)[1..] == w[1..] + b;
      TrimStartRun(w[1..], b);
    }
  }

  /** A whole run of white space at the front becomes one `_`. */
  lemma CollapseLeadingRun(w: string, b: string)
    requires w != [] && AllSpace(w)
    requires b != [] ==> !IsSpace(b[0])
    ensures CollapseSpaces(w + b) == "_" + CollapseSpaces(b)
  {
    assert (w + b)[0] == w[0];
    assert (w + b)[1..] == w[1..] + b;
    TrimStartRun(w[1..], b);
  }

  /** A character that is not white space is copied. */
  lemma CollapseCons(c: char, y: string)
    requires !IsSpace(c)
    ensures CollapseSpaces([c] + y) == [c] + CollapseSpaces(y)
  {
    assert ([c] + y)[0] == c && ([c] + y)[1..] == y;
  }

  /** Text without white space is left unchanged. */
  lemma CollapseUnspaced(s: string)
    requires forall i :: 0 <= i < |s| ==> !IsSpace(s[i])
    ensures CollapseSpaces(s) == s
  {
    CollapseWord(s, []);
    assert s + [] == s;
  }

  /** The replacement works run by run: a word is copied, and the whole run
      of white space after it becomes a single `_`. Every string splits into
      such a word, a run and a rest, so this fixes the result everywhere. */
  lemma CollapseWordThenRun(a: string, w: string, b: string)
    requires forall i :: 0 <= i < |a| ==> !IsSpace(a[i])
    requires w != [] && AllSpace(w)
    requires b != [] ==> !IsSpace(b[0])
    ensures CollapseSpaces(a + w + b) == a + "_" + CollapseSpaces(b)
  {
    var t := w + b;
    var rest := CollapseSpaces(b);
    assert a + w + b == a + t;
    CollapseLeadingRun(w, b);
    CollapseWord(a, t);
    assert a + ("_" + rest) == a + "_" + rest;
  }

  /** A word in front is copied unchanged. */
  lemma {:induction false} CollapseWord(a: string, t: string)
    requires forall i :: 0 <= i < |a| ==> !IsSpace(a[i])
    ensures CollapseSpaces(a + t) == a + CollapseSpaces(t)
    decreases |a|
  {
    if a == [] {
      assert a + t == t;
    } else {
      var tail := a[1..];
      var c := CollapseSpaces(t);
      assert CollapseSpaces(a + t) == [a[0]] + CollapseSpaces(tail + t) by {
        assert a + t == [a[0]] + (tail + t);
        assert !IsSpace(a[0]);
        CollapseCons(a[0], tail + t);
      }
      assert CollapseSpaces(tail + t) == tail + c by {
        forall i | 0 <= i < |tail| ensures !IsSpace(tail[i]) {
          assert tail[i] == a[i + 1];
        }
        CollapseWord(tail, t);
      }
      assert [a[0]] + (tail + c) == a + c;
    }
  }

  lemma ToLowerAppend(x: string, y: string)
    ensures ToLower(x + y) == ToLower(x) + ToLower(y)
  {
    assert forall i :: 0 <= i < |x + y| ==> ToLower(x + y)[i] == (ToLower(x) + ToLower(y))[i];
  }

  lemma UnderscoreIsLower()
    ensures ToLower("_") == "_"
  {
    assert !('A' <= '_' <= 'Z');
  }

  /** The derived code, run by run: the lower-cased word, `_` for the run
      of white space, then the code of the rest. */
  lemma CodeFromNameRun(a: string, w: string, b: string)
    requires forall i :: 0 <= i < |a| ==> !IsSpace(a[i])
    requires w != [] && AllSpace(w)
    requires b != [] ==> !IsSpace(b[0])
    ensures CodeFromName(a + w + b) == ToLower(a) + "_" + CodeFromName(b)
  {
    var rest := CollapseSpaces(b);
    CollapseWordThenRun(a, w, b);
    ToLowerAppend(a + "_", rest);
    ToLowerAppend(a, "_");
    UnderscoreIsLower();
    assert CodeFromName(a + w + b) == ToLower(a + "_" + rest);
  }

  /** The code derived from a name when only the name is given. */
  function CodeFromName(name: string): string
  {
    ToLower(CollapseSpaces(name))
  }

  /** `onClick` of the subject adder: the `addSubject(code, name)` call it
      makes, if any. */
  method SubjectAdderClick(subjectCode: string, subjectName: string) returns (call: Option<(string, string)>)
    ensures subjectCode == "" && subjectName == "" <==> call.None?
    ensures call.Some? ==> call.value.0 != "" && call.value.1 != ""
    ensures call.Some? && subjectCode != "" ==> call.value.0 == subjectCode
    ensures call.Some? && subjectName != "" ==> call.value.1 == subjectName
    ensures call.Some? && subjectName == "" ==> call.value.1 == subjectCode
    ensures call.Some? && subjectCode == "" ==> call.value.0 == CodeFromName(subjectName)
    ensures call.Some? && subjectCode == "" ==> forall i :: 0 <= i < |call.value.0| ==> !IsSpace(call.value.0[i])
  {
    var code := subjectCode;
    var name := subjectName;
    if code == "" && name == "" {
      return None;
    }
    if name == "" { name := code; }
    if code == "" { code := CodeFromName(name); }
    call := Some((code, name));
    SlugHasNoSpace(subjectName);
  }

  /** Lower-casing keeps whitespace out of a derived code. */
  lemma SlugHasNoSpace(name: string)
    ensures forall i :: 0 <= i < |CodeFromName(name)| ==> !IsSpace(CodeFromName(name)[i])
  {
    var c := CollapseSpaces(name);
    forall i | 0 <= i < |c| ensures !IsSpace(ToLowerChar(c[i])) {
      LowerKeepsNonSpace(c[i]);
    }
  }

  lemma LowerKeepsNonSpace(c: char)
    requires !IsSpace(c)
    ensures !IsSpace(ToLowerChar(c))
  {
  }
}
