// The records the timetable planner keeps in its store: subjects, each with
// its course sections and a selection status, plus the records produced by
// parsing the university's course listing.

module Model {

  datatype Option<T> = None | Some(value: T)

  /** A JavaScript value as it appears in a selection: a number, a string
      (a course code) or `undefined` (a missing key, or an unknown label). */
  datatype Val = Num(n: int) | Str(s: string) | Undef

  /** `status.choosen`: either one scalar for the whole subject (`0` none,
      `-1` locked, a course code) or an object from course type to value. */
  datatype Chosen = Scalar(v: Val) | PerType(m: map<string, Val>)

  /** `m[k]` on a JavaScript object: `undefined` when the key is absent. */
  function Lookup(m: map<string, Val>, k: string): (v: Val)
    ensures k in m ==> v == m[k]
    ensures k !in m ==> v == Undef
  {
    if k in m then m[k] else Undef
  }

  /** A course section of a subject (`type` is spelled `kind` here). */
  datatype Course = Course(
    id: int,
    course: string,
    kind: string,
    instructor: string,
    location: string,
    day: string,
    startTime: string,
    endTime: string,
    notes: string,
    show: bool)

  datatype Status = Status(color: string, show: bool, chosen: Chosen)

  datatype Subject = Subject(
    id: int,
    code: string,
    name: string,
    courses: seq<Course>,
    status: Status)

  /** The user-editable fields of a course, in the order the forms pass them. */
  datatype CourseFields = CourseFields(
    course: string,
    kind: string,
    instructor: string,
    location: string,
    day: string,
    startTime: string,
    endTime: string,
    notes: string)

  /** The course types the per-type selection starts with. */
  const Practice := "Gyakorlat"
  const Lecture := "Előadás"
  const Other := "Egyéb"

  /** The all-zero per-type selection given to every new subject. */
  const DefaultChosen: Chosen := PerType(map[Practice := Num(0), Lecture := Num(0), Other := Num(0)])

  /** A course row parsed from the listing; `subject` is the subject code it belongs to. */
  datatype ParsedCourse = ParsedCourse(
    id: int,
    subject: string,
    name: string,
    course: string,
    kind: string,
    instructor: string,
    location: string,
    day: string,
    startTime: string,
    endTime: string,
    notes: string,
    show: bool)

  datatype ParsedSubject = ParsedSubject(id: int, code: string, name: string)
}
