// One subject's panel in the subject list: the status colour that sums up its
// selection, the mode icon, the inline course form and the show/hide toggle.

module SubjectView {
  import opened Model
  import opened Text
  import opened Seqs
  import opened Forms
  import Store

  const Success := "bg-success text-base-300"
  const Info := "bg-info text-base-300"

  // ---------------------------------------------------------------------------
  // Status
  // ---------------------------------------------------------------------------

  /** `subject.courses.map(course => course.type)`. */
  function Kinds(cs: seq<Course>): (ks: seq<string>)
    ensures |ks| == |cs|
    ensures forall i :: 0 <= i < |cs| ==> ks[i] == cs[i].kind
  {
    seq(|cs|, i requires 0 <= i < |cs| => cs[i].kind)
  }

  /** `[...new Set(xs)]`: each value once, in order of first occurrence. */
  function Distinct(xs: seq<string>): (r: seq<string>)
    ensures forall x :: x in r <==> x in xs
    ensures forall i, j :: 0 <= i < j < |r| ==> r[i] != r[j]
  {
    if xs == [] then []
    else
      var d := Distinct(xs[..|xs| - 1]);
      assert forall x :: x in xs ==> x in xs[..|xs| - 1] || x == xs[|xs| - 1];
      if xs[|xs| - 1] in d then d else d + [xs[|xs| - 1]]
  }

  /** The values come out in the order in which each first occurs in `xs`;
      with the members and the absence of repeats this fixes `Distinct(xs)`. */
  lemma {:induction false} DistinctFirstOccurrenceOrder(xs: seq<string>)
    ensures forall i, j :: 0 <= i < j < |Distinct(xs)| ==>
      FirstIndex(xs, Distinct(xs)[i]) < FirstIndex(xs, Distinct(xs)[j])
  {
    if xs != [] {
      var n := |xs| - 1;
      var init := xs[..n];
      var d := Distinct(init);
      DistinctFirstOccurrenceOrder(init);
      forall x | x in d ensures FirstIndex(xs, x) == FirstIndex(init, x) < n {
        FirstIndexPrefix(xs, n, x);
      }
      if xs[n] !in d {
        assert xs[n] !in init;
        assert xs[..n] == init;
        assert FirstIndex(xs, xs[n]) == n;
      }
    }
  }

  /** `choosen[type] !== 0`: a missing key (`undefined`) counts as chosen. */
  predicate CountsAsChosen(m: map<string, Val>, t: string)
  {
    Lookup(m, t) != Num(0)
  }

  /** The counter of the `forEach`: how many of `ts` count as chosen. */
  function CountChosen(m: map<string, Val>, ts: seq<string>): (n: nat)
    ensures n <= |ts|
  {
    if ts == [] then 0
    else CountChosen(m, ts[..|ts| - 1]) + if CountsAsChosen(m, ts[|ts| - 1]) then 1 else 0
  }

  lemma {:induction false} CountChosenAll(m: map<string, Val>, ts: seq<string>)
    ensures CountChosen(m, ts) == |ts| <==> forall t :: t in ts ==> CountsAsChosen(m, t)
  {
    if ts != [] {
      var init := ts[..|ts| - 1];
      CountChosenAll(m, init);
      assert forall t :: t in ts <==> t in init || t == ts[|ts| - 1];
    }
  }

  lemma {:induction false} CountChosenSome(m: map<string, Val>, ts: seq<string>)
    ensures CountChosen(m, ts) > 0 <==> exists t :: t in ts && CountsAsChosen(m, t)
  {
    if ts != [] {
      var init := ts[..|ts| - 1];
      CountChosenSome(m, init);
      assert forall t :: t in ts <==> t in init || t == ts[|ts| - 1];
    }
  }

  /** `getStatus()`: the status class of a subject panel. */
  function StatusClass(s: Subject): string
  {
    match s.status.chosen
    case PerType(m) =>
      var types := Distinct(Kinds(s.courses));
      var chosen := CountChosen(m, types);
      if chosen == |types| then Success else if chosen > 0 then Info else ""
    case Scalar(v) => if v != Num(0) then Success else ""
  }

  /** `getStatus`, with the set of types built and the chosen ones counted by loops. */
  method GetStatus(s: Subject) returns (cls: string)
    ensures cls == StatusClass(s)
  {
    if s.status.chosen.PerType? {
      var m := s.status.chosen.m;
      var kinds := Kinds(s.courses);
      var types: seq<string> := [];
      var i := 0;
      while i < |kinds|
        invariant 0 <= i <= |kinds|
        invariant types == Distinct(kinds[..i])
      {
        assert kinds[..i + 1][..i] == kinds[..i];
        if kinds[i] !in types {
          types := types + [kinds[i]];
        }
        i := i + 1;
      }
      assert kinds[..i] == kinds;
      var chosen := 0;
      var j := 0;
      while j < |types|
        invariant 0 <= j <= |types|
        invariant chosen == CountChosen(m, types[..j])
      {
        assert types[..j + 1][..j] == types[..j];
        if Lookup(m, types[j]) != Num(0) {
          chosen := chosen + 1;
        }
        j := j + 1;
      }
      assert types[..j] == types;
      if chosen == |types| {
        return Success;
      } else if chosen > 0 {
        return Info;
      }
    } else if s.status.chosen.v != Num(0) {
      return Success;
    }
    return "";
  }

  /** The distinct types are exactly the types of the courses. */
  lemma {:induction false} DistinctKindsMembers(cs: seq<Course>, t: string)
    ensures t in Distinct(Kinds(cs)) <==> exists c :: c in cs && c.kind == t
  {
    var ks := Kinds(cs);
    if t in ks {
      var i :| 0 <= i < |ks| && ks[i] == t;
      assert cs[i] in cs;
    }
    if exists c :: c in cs && c.kind == t {
      var c :| c in cs && c.kind == t;
      var i :| 0 <= i < |cs| && cs[i] == c;
      assert ks[i] == t;
    }
  }

  lemma {:induction false} AllTypesChosen(s: Subject)
    requires s.status.chosen.PerType?
    ensures var m := s.status.chosen.m;
      (forall t :: t in Distinct(Kinds(s.courses)) ==> CountsAsChosen(m, t))
      <==> (forall c :: c in s.courses ==> CountsAsChosen(m, c.kind))
  {
    var m := s.status.chosen.m;
    forall c | c in s.courses ensures c.kind in Distinct(Kinds(s.courses)) {
      DistinctKindsMembers(s.courses, c.kind);
    }
    forall t | t in Distinct(Kinds(s.courses)) ensures exists c :: c in s.courses && c.kind == t {
      DistinctKindsMembers(s.courses, t);
    }
  }

  lemma {:induction false} SomeTypeChosen(s: Subject, chosen: bool)
    requires s.status.chosen.PerType?
    ensures var m := s.status.chosen.m;
      (exists t :: t in Distinct(Kinds(s.courses)) && CountsAsChosen(m, t) == chosen)
      <==> (exists c :: c in s.courses && CountsAsChosen(m, c.kind) == chosen)
  {
    var m := s.status.chosen.m;
    if exists t :: t in Distinct(Kinds(s.courses)) && CountsAsChosen(m, t) == chosen {
      var t :| t in Distinct(Kinds(s.courses)) && CountsAsChosen(m, t) == chosen;
      DistinctKindsMembers(s.courses, t);
    }
    if exists c :: c in s.courses && CountsAsChosen(m, c.kind) == chosen {
      var c :| c in s.courses && CountsAsChosen(m, c.kind) == chosen;
      DistinctKindsMembers(s.courses, c.kind);
    }
  }

  /** In per-type mode: success iff every course's type counts as chosen,
      partial iff some do and some do not, and nothing iff none does. */
  lemma {:induction false} StatusPerType(s: Subject)
    requires s.status.chosen.PerType?
    ensures var m := s.status.chosen.m;
      && (StatusClass(s) == Success <==> forall c :: c in s.courses ==> CountsAsChosen(m, c.kind))
      && (StatusClass(s) == Info <==>
            (exists c :: c in s.courses && CountsAsChosen(m, c.kind))
            && (exists c :: c in s.courses && !CountsAsChosen(m, c.kind)))
      && (StatusClass(s) == "" <==> s.courses != [] && forall c :: c in s.courses ==> !CountsAsChosen(m, c.kind))
  {
    var m := s.status.chosen.m;
    var types := Distinct(Kinds(s.courses));
    CountChosenAll(m, types);
    CountChosenSome(m, types);
    AllTypesChosen(s);
    SomeTypeChosen(s, true);
    SomeTypeChosen(s, false);
    if s.courses != [] {
      assert s.courses[0] in s.courses;
    }
  }

  /** A per-type subject without courses already shows success: 0 of 0 types chosen. */
  lemma NoCoursesIsSuccess(s: Subject)
    requires s.status.chosen.PerType? && s.courses == []
    ensures StatusClass(s) == Success
  {
    StatusPerType(s);
  }

  /** A type missing from the per-type map counts as chosen, so a subject whose
      map lacks every type of its courses shows success. */
  lemma MissingTypesAreSuccess(s: Subject)
    requires s.status.chosen.PerType?
    requires forall c :: c in s.courses ==> c.kind !in s.status.chosen.m
    ensures StatusClass(s) == Success
  {
    StatusPerType(s);
  }

  /** In scalar mode: success iff the selection is not 0, so the locked mode
      (-1) shows success too. */
  lemma StatusScalar(s: Subject)
    requires s.status.chosen.Scalar?
    ensures StatusClass(s) == Success <==> s.status.chosen.v != Num(0)
    ensures StatusClass(s) != Success ==> StatusClass(s) == ""
  {
  }

  // ---------------------------------------------------------------------------
  // Icon
  // ---------------------------------------------------------------------------

  /** Whether JavaScript's `Number(s)` is a non-negative integer, a negative
      one, or not an integer this model reads (`None`, treated as `NaN`). */
  function NonNegativeNumber(s: string): (r: Option<bool>)
    ensures AllDigits(s) ==> r == Some(true)
  {
    var t := Trim(s);
    assert AllDigits(s) ==> t == s by {
      if AllDigits(s) {
        assert s != [] ==> IsDigit(s[0]) && IsDigit(s[|s| - 1]);
        TrimUnspaced(s);
      }
    }
    if t == "" then Some(true)
    else if AllDigits(t) then Some(true)
    else if t[0] == '+' && |t| > 1 && AllDigits(t[1..]) then Some(true)
    else if t[0] == '-' && |t| > 1 && AllDigits(t[1..]) then Some(DigitsValue(t[1..]) == 0)
    else None
  }

  /** A minus sign before digits reads as a negative number (or zero), and a
      single character that is neither a digit nor white space as `NaN`. */
  lemma NonNegativeNumberCases(s: string)
    ensures |s| > 1 && s[0] == '-' && AllDigits(s[1..]) ==> NonNegativeNumber(s) == Some(DigitsValue(s[1..]) == 0)
    ensures |s| == 1 && !IsDigit(s[0]) && !IsSpace(s[0]) ==> NonNegativeNumber(s).None?
  {
    if |s| > 1 && s[0] == '-' && AllDigits(s[1..]) {
      assert IsDigit(s[1..][|s| - 2]);
      TrimUnspaced(s);
    }
    if |s| == 1 && !IsSpace(s[0]) {
      TrimUnspaced(s);
    }
  }

  /** `v >= 0` with JavaScript's conversion of the left operand to a number. */
  predicate AtLeastZero(v: Val)
  {
    match v
    case Num(n) => n >= 0
    case Str(s) => NonNegativeNumber(s) == Some(true)
    case Undef => false
  }

  /** `getIcon()` as written: `choosen >= 0` on a course code compares the
      code as a number. */
  function GetIcon(ch: Chosen): (icon: string)
    ensures ch.PerType? <==> icon == "list"
    ensures ch == Scalar(Num(-1)) ==> icon == "lock"
    ensures ch == Scalar(Num(0)) ==> icon == "check-circle"
  {
    match ch
    case PerType(_) => "list"
    case Scalar(v) => if AtLeastZero(v) then "check-circle" else "lock"
  }

  /** The icon by mode: a list for per-type selection, a lock for the locked
      mode, a check mark for the single selection (empty or a code). */
  function IconOf(ch: Chosen): (icon: string)
    ensures icon == "list" <==> ch.PerType?
    ensures icon == "lock" <==> ch == Scalar(Num(-1))
    ensures icon == "check-circle" <==> ch.Scalar? && ch.v != Num(-1)
  {
    match ch
    case PerType(_) => "list"
    case Scalar(v) => if v == Num(-1) then "lock" else "check-circle"
  }

  /** A subject whose one chosen course has the code "A" shows the lock icon
      as written, although it is not in the locked mode. */
  lemma GetIconLocksTextCodes()
    ensures GetIcon(Scalar(Str("A"))) == "lock"
    ensures IconOf(Scalar(Str("A"))) == "check-circle"
  {
    LetterIsNotANumber();
  }

  /** `Number("A")` is `NaN`. */
  lemma LetterIsNotANumber()
    ensures NonNegativeNumber("A").None?
  {
    assert Trim("A") == "A";
    assert !AllDigits("A");
  }

  /** For the markers and for digit codes the two agree. */
  lemma GetIconAgreesOnDigitCodes(ch: Chosen)
    requires ch.Scalar? ==> ch.v in {Num(0), Num(-1)} || (ch.v.Str? && AllDigits(ch.v.s))
    ensures GetIcon(ch) == IconOf(ch)
  {
  }

  // ---------------------------------------------------------------------------
  // The inline course form and the show toggle
  // ---------------------------------------------------------------------------

  /** `handleSubmit` of the subject panel: like the course adder but without
      the time-order check. */
  method SubjectSubmit(subjectId: int, f: CourseFields) returns (call: Option<(int, CourseFields)>, validity: seq<string>)
    ensures call.Some? <==> VerdictOf(f, false) == Accepted
    ensures call.Some? ==> call.value == (subjectId, f)
    ensures IsReservedCode(f.course) ==> validity == RequiredValidity(f)[0 := ReservedCodeMessage]
    ensures !IsReservedCode(f.course) ==> validity == RequiredValidity(f)
  {
    var emptyFields;
    validity, emptyFields := CheckRequired(f);
    call := None;
    if IsReservedCode(f.course) {
      validity := validity[0 := ReservedCodeMessage];
    } else if emptyFields {
    } else {
      validity := validity[0 := ""];
      call := Some((subjectId, f));
    }
  }

  /** `handleChange`: the arguments it passes to `updateShowSubject`. */
  function HandleChange(s: Subject): (call: (int, bool))
    ensures call.0 == s.id && call.1 != s.status.show
  {
    (s.id, !s.status.show)
  }

  /** Toggling a subject's visibility twice gives back the store. */
  lemma {:induction false} HandleChangeTwice(store: seq<Subject>, i: int)
    requires Store.WellFormed(store) && 0 <= i < |store|
    ensures var once := Store.UpdateShowSubjectIn(store, HandleChange(store[i]).0, HandleChange(store[i]).1);
      Store.UpdateShowSubjectIn(once, HandleChange(once[i]).0, HandleChange(once[i]).1) == store
  {
    var id := store[i].id;
    var once := Store.UpdateShowSubjectIn(store, id, !store[i].status.show);
    var twice := Store.UpdateShowSubjectIn(once, id, !once[i].status.show);
    forall j | 0 <= j < |store| ensures twice[j] == store[j] {
      if j != i {
        assert Store.SubjectKey(store[j]) != Store.SubjectKey(store[i]);
      }
    }
  }
}
