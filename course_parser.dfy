// Turning the rows of the course catalogue's result table into course
// records. Each row arrives as the text of its five cells; the regular
// expressions the reader applies are written out as string functions that
// follow the regex engine's leftmost, lazy/greedy matching for these
// particular patterns. Subjects met along the way are collected in a shared
// accumulator that hands out ids 0, 1, 2, ... to new subject codes.

module CourseParser {
  import opened Model
  import opened Text
  import opened Seqs
  import TimetableUtils

  /** The cell texts of one result row: time, code-and-type, subject name,
      place, and instructor. */
  datatype Row = Row(timeInfo: string, codeInfo: string, courseName: string, location: string, instructor: string)

  predicate IsPrefix(p: string, s: string) { |p| <= |s| && s[..|p|] == p }

  // ---------------------------------------------------------------------------
  // The weekday: (Hétfő|Hétfo|Kedd|Szerda|Csütörtök|Péntek|Szombat|Vasárnap)
  // ---------------------------------------------------------------------------

  /** The alternatives in the order the pattern lists them; "Hétfo" is the
      catalogue's misspelling of Monday. */
  const DayNames: seq<string> := ["Hétfő", "Hétfo", "Kedd", "Szerda", "Csütörtök", "Péntek", "Szombat", "Vasárnap"]

  /** The first alternative that matches at the start of `s`. */
  function FirstPrefix(names: seq<string>, s: string): (r: Option<string>)
    ensures r.Some? ==> r.value in names && IsPrefix(r.value, s)
    ensures r.None? ==> forall n :: n in names ==> !IsPrefix(n, s)
  {
    if names == [] then None
    else if IsPrefix(names[0], s) then Some(names[0])
    else FirstPrefix(names[1..], s)
  }

  /** The leftmost weekday name in `s`. */
  function FindDay(s: string): (r: Option<string>)
    ensures r.Some? ==> r.value in DayNames
  {
    match FirstPrefix(DayNames, s)
    case Some(n) => Some(n)
    case None => if s == [] then None else FindDay(s[1..])
  }

  /** The day found is the leftmost occurrence of a weekday name, and when
      none is found no weekday name occurs anywhere in `s`. */
  lemma {:induction false} FindDayIsLeftmost(s: string)
    ensures FindDay(s).Some? ==> exists i :: (0 <= i <= |s| && IsPrefix(FindDay(s).value, s[i..])
                                 && forall j, n :: 0 <= j < i && n in DayNames ==> !IsPrefix(n, s[j..]))
    ensures FindDay(s).None? ==> forall i, n :: 0 <= i <= |s| && n in DayNames ==> !IsPrefix(n, s[i..])
  {
    if FirstPrefix(DayNames, s).Some? {
      assert s[0..] == s;
    } else if s != [] {
      FindDayIsLeftmost(s[1..]);
      assert forall i :: 1 <= i <= |s| ==> s[i..] == s[1..][i - 1..];
      assert s[0..] == s;
      if FindDay(s).Some? {
        var i :| 0 <= i <= |s[1..]| && IsPrefix(FindDay(s).value, s[1..][i..])
                 && forall j, n :: 0 <= j < i && n in DayNames ==> !IsPrefix(n, s[1..][j..]);
        assert IsPrefix(FindDay(s).value, s[i + 1..]);
        forall j, n | 0 <= j < i + 1 && n in DayNames ensures !IsPrefix(n, s[j..]) {
          if j > 0 {
            assert s[j..] == s[1..][j - 1..];
          }
        }
      }
    }
  }

  /** The day as stored: the misspelling is corrected. */
  function NormalizeDay(day: string): string
  {
    if day == "Hétfo" then "Hétfő" else day
  }

  /** Every weekday the reader can extract is one the calendar can place. */
  lemma ParsedDayIsKnown(day: string)
    requires day in DayNames
    ensures TimetableUtils.DayIndex(NormalizeDay(day)).Some?
  {
  }

  // ---------------------------------------------------------------------------
  // The time range: (\d{1,2}):(\d{2})-(\d{1,2}):(\d{2})
  //
  // At a given position the hour group settles deterministically: two digits
  // when a ':' follows them, else one digit when a ':' follows it. Trying
  // the other length after a later failure can never succeed, because the
  // character after the shorter hour would be a digit rather than ':'.
  // ---------------------------------------------------------------------------

  /** `(\d{1,2}):(\d{2})` at the start of `s`: the hour and minute digits. */
  function ClockAt(s: string): (r: Option<(string, string)>)
    ensures r.Some? ==>
      && 1 <= |r.value.0| <= 2 && AllDigits(r.value.0)
      && |r.value.1| == 2 && AllDigits(r.value.1)
      && IsPrefix(r.value.0 + ":" + r.value.1, s)
  {
    var h := if |s| >= 3 && IsDigit(s[0]) && IsDigit(s[1]) && s[2] == ':' then 2
             else if |s| >= 2 && IsDigit(s[0]) && s[1] == ':' then 1
             else 0;
    if h == 0 || |s| < h + 3 || !IsDigit(s[h + 1]) || !IsDigit(s[h + 2]) then None
    else
      assert s[..h + 3] == s[..h] + ":" + s[h + 1..h + 3];
      Some((s[..h], s[h + 1..h + 3]))
  }

  /** Hour and minute groups of the shapes the pattern admits. */
  predicate TimeGroups(g: (string, string, string, string))
  {
    && 1 <= |g.0| <= 2 && AllDigits(g.0)
    && |g.1| == 2 && AllDigits(g.1)
    && 1 <= |g.2| <= 2 && AllDigits(g.2)
    && |g.3| == 2 && AllDigits(g.3)
  }

  /** The whole time pattern at the start of `s`: the four groups. */
  function TimeAt(s: string): (r: Option<(string, string, string, string)>)
    ensures r.Some? ==> TimeGroups(r.value)
  {
    match ClockAt(s)
    case None => None
    case Some(start) =>
      var k := |start.0| + 3;
      if k < |s| && s[k] == '-' then
        match ClockAt(s[k + 1..])
        case None => None
        case Some(end) => Some((start.0, start.1, end.0, end.1))
      else None
  }

  /** The leftmost time range in `s`. */
  function FindTime(s: string): (r: Option<(string, string, string, string)>)
    ensures r.Some? ==> TimeGroups(r.value)
  {
    if TimeAt(s).Some? then TimeAt(s)
    else if s == [] then None
    else FindTime(s[1..])
  }

  /** The time found is the pattern's match at the leftmost position where it matches. */
  lemma {:induction false} FindTimeIsLeftmost(s: string)
    ensures FindTime(s).Some? ==> exists i :: (0 <= i <= |s| && TimeAt(s[i..]) == FindTime(s)
                                  && forall j :: 0 <= j < i ==> TimeAt(s[j..]).None?)
    ensures FindTime(s).None? ==> forall i :: 0 <= i <= |s| ==> TimeAt(s[i..]).None?
  {
    assert s[0..] == s;
    if TimeAt(s).None? && s != [] {
      FindTimeIsLeftmost(s[1..]);
      assert forall i :: 1 <= i <= |s| ==> s[i..] == s[1..][i - 1..];
      if FindTime(s).Some? {
        var i :| 0 <= i <= |s[1..]| && TimeAt(s[1..][i..]) == FindTime(s)
                 && forall j :: 0 <= j < i ==> TimeAt(s[1..][j..]).None?;
        assert TimeAt(s[i + 1..]) == FindTime(s);
        forall j | 0 <= j < i + 1 ensures TimeAt(s[j..]).None? {
          if j > 0 {
            assert s[j..] == s[1..][j - 1..];
          }
        }
      }
    }
  }

  /** `${parseInt(h).toString().padStart(2, "0")}:${parseInt(m).toString().padStart(2, "0")}`. */
  function Clock(h: string, m: string): string
    requires AllDigits(h) && AllDigits(m)
  {
    PadStart2(NatToString(DigitsValue(h))) + ":" + PadStart2(NatToString(DigitsValue(m)))
  }

  /** The stored times are the matched digits with the hour zero-padded:
      always five characters `HH:MM`. */
  lemma ClockIsPaddedDigits(h: string, m: string)
    requires 1 <= |h| <= 2 && AllDigits(h) && |m| == 2 && AllDigits(m)
    ensures Clock(h, m) == PadStart2(h) + ":" + m
    ensures |Clock(h, m)| == 5 && Clock(h, m)[2] == ':'
    ensures forall i :: 0 <= i < 5 && i != 2 ==> IsDigit(Clock(h, m)[i])
  {
    PadStart2Reparse(h);
    PadStart2Reparse(m);
  }

  // ---------------------------------------------------------------------------
  // Code and type: (.*?)\s+\((.*?)\)
  // ---------------------------------------------------------------------------

  /** The end of the run of `\s` characters that starts at `q`. */
  function SpaceRunEnd(t: string, q: nat): (r: nat)
    requires q <= |t|
    ensures q <= r <= |t|
    ensures forall j :: q <= j < r ==> IsSpace(t[j])
    ensures r < |t| ==> !IsSpace(t[r])
    decreases |t| - q
  {
    if q < |t| && IsSpace(t[q]) then SpaceRunEnd(t, q + 1) else q
  }

  /** The first ')' from `k` on, provided no line break comes first (`.`
      does not match one). */
  function CloseParen(t: string, k: nat): (r: Option<nat>)
    ensures r.Some? ==> k <= r.value < |t| && t[r.value] == ')'
    ensures r.Some? ==> forall j :: k <= j < r.value ==> t[j] != ')' && !IsLineTerminator(t[j])
    decreases |t| - k
  {
    if k >= |t| then None
    else if t[k] == ')' then Some(k)
    else if IsLineTerminator(t[k]) then None
    else CloseParen(t, k + 1)
  }

  /** `\s+\((.*?)\)` at position `q`: the parenthesised text. The space run is
      taken whole, since a shorter one would leave a space where '(' must be. */
  function ParenGroupAt(t: string, q: nat): (r: Option<string>)
    requires q <= |t|
    ensures r.Some? ==> ')' !in r.value
  {
    if q < |t| && IsSpace(t[q]) then
      var r := SpaceRunEnd(t, q);
      if r < |t| && t[r] == '(' then
        match CloseParen(t, r + 1)
        case None => None
        case Some(e) => Some(t[r + 1..e])
      else None
    else None
  }

  /** The text `\s+\((g)\)` at `q`, with '(' at `a`: a non-empty run of
      white space up to `a`, '(' and then `g` closed by the first ')' after
      it, with no line break inside `g`. */
  ghost predicate GroupAfterSpaces(t: string, q: nat, a: nat, g: string)
  {
    && q < a && a + |g| + 1 < |t|
    && (forall j :: q <= j < a ==> IsSpace(t[j]))
    && t[a] == '(' && t[a + 1..a + 1 + |g|] == g && t[a + 1 + |g|] == ')'
    && (forall j :: 0 <= j < |g| ==> g[j] != ')' && !IsLineTerminator(g[j]))
  }

  /** What `ParenGroupAt` finds is such a group. */
  lemma ParenGroupShape(t: string, q: nat)
    requires q <= |t| && ParenGroupAt(t, q).Some?
    ensures exists a :: GroupAfterSpaces(t, q, a, ParenGroupAt(t, q).value)
  {
    var a := SpaceRunEnd(t, q);
    var e := CloseParen(t, a + 1).value;
    var g := t[a + 1..e];
    assert forall j :: 0 <= j < |g| ==> g[j] == t[a + 1 + j];
    assert GroupAfterSpaces(t, q, a, g);
  }

  /** The first ')' from `k` on is found when one comes before any line break. */
  lemma {:induction false} CloseParenFinds(t: string, k: nat, e: nat)
    requires k <= e < |t| && t[e] == ')'
    requires forall j :: k <= j < e ==> !IsLineTerminator(t[j])
    ensures CloseParen(t, k).Some? && CloseParen(t, k).value <= e
    decreases e - k
  {
    if t[k] != ')' {
      CloseParenFinds(t, k + 1, e);
    }
  }

  /** Conversely, white space up to a '(' followed by a ')' before any line
      break is always found. */
  lemma ParenGroupFinds(t: string, q: nat, a: nat, e: nat)
    requires q < a < e < |t|
    requires forall j :: q <= j < a ==> IsSpace(t[j])
    requires t[a] == '(' && t[e] == ')'
    requires forall j :: a < j < e ==> !IsLineTerminator(t[j])
    ensures ParenGroupAt(t, q).Some?
  {
    assert !IsSpace('(');
    assert SpaceRunEnd(t, q) == a;
    CloseParenFinds(t, a + 1, e);
  }

  /** The lazy first group: the shortest line-break-free prefix after which
      the rest of the pattern matches. */
  function LazyCode(t: string, q: nat): (r: Option<(string, string)>)
    requires q <= |t|
    ensures r.Some? ==> IsPrefix(r.value.0, t) && ')' !in r.value.1
    ensures r.Some? ==> forall j :: q <= j < |r.value.0| ==> !IsLineTerminator(t[j])
    decreases |t| - q
  {
    match ParenGroupAt(t, q)
    case Some(g) => Some((t[..q], g))
    case None =>
      if q < |t| && !IsLineTerminator(t[q]) then LazyCode(t, q + 1) else None
  }

  /** The lazy group is the shortest: the pattern's tail matches where it
      ends and at no earlier position, and it holds no line break. */
  lemma {:induction false} LazyCodeShortest(t: string, q: nat)
    requires q <= |t|
    ensures var r := LazyCode(t, q);
      r.Some? ==>
        && q <= |r.value.0|
        && ParenGroupAt(t, |r.value.0|) == Some(r.value.1)
        && forall k :: q <= k < |r.value.0| ==> ParenGroupAt(t, k).None? && !IsLineTerminator(t[k])
    decreases |t| - q
  {
    if ParenGroupAt(t, q).None? && q < |t| && !IsLineTerminator(t[q]) {
      LazyCodeShortest(t, q + 1);
    }
  }

  /** The lazy group is found whenever the tail matches at some position
      before any line break. */
  lemma {:induction false} LazyCodeFinds(t: string, q: nat, k: nat)
    requires q <= k <= |t| && ParenGroupAt(t, k).Some?
    requires forall j :: q <= j < k ==> !IsLineTerminator(t[j])
    ensures LazyCode(t, q).Some? && |LazyCode(t, q).value.0| <= k
    decreases k - q
  {
    if q < k && ParenGroupAt(t, q).None? {
      LazyCodeFinds(t, q + 1, k);
    }
  }

  /** `codeInfo.match(/(.*?)\s+\((.*?)\)/)`: the leftmost match's two groups. */
  function CodeMatch(s: string): (r: Option<(string, string)>)
    ensures r.Some? ==> ')' !in r.value.1
  {
    match LazyCode(s, 0)
    case Some(g) => Some(g)
    case None => if s == [] then None else CodeMatch(s[1..])
  }

  /** The match starts at the first position from which the pattern
      matches: its groups are those of the lazy match from there. */
  lemma {:induction false} CodeMatchLeftmost(s: string, i: nat)
    requires i <= |s| && LazyCode(s[i..], 0).Some?
    requires forall k :: 0 <= k < i ==> LazyCode(s[k..], 0).None?
    ensures CodeMatch(s) == LazyCode(s[i..], 0)
    decreases i
  {
    assert s[0..] == s;
    if i > 0 {
      forall k | 0 <= k < i - 1
        ensures LazyCode(s[1..][k..], 0).None?
      {
        assert s[1..][k..] == s[k + 1..];
      }
      assert s[1..][i - 1..] == s[i..];
      CodeMatchLeftmost(s[1..], i - 1);
    }
  }

  /** There is no match exactly when the pattern matches from no position. */
  lemma {:induction false} CodeMatchNone(s: string)
    ensures CodeMatch(s).None? <==> forall i :: 0 <= i <= |s| ==> LazyCode(s[i..], 0).None?
    decreases |s|
  {
    assert s[0..] == s;
    if s != [] && LazyCode(s, 0).None? {
      CodeMatchNone(s[1..]);
      forall i | 1 <= i <= |s|
        ensures s[i..] == s[1..][i - 1..]
      {
      }
    }
  }

  /** The code a row's code text stands for: the first group when the text
      matches, the whole text otherwise. */
  function CodeOf(codeInfo: string): string
  {
    var cm := CodeMatch(codeInfo);
    if cm.Some? then cm.value.0 else codeInfo
  }

  // ---------------------------------------------------------------------------
  // Subject code: ^(.*?)\s*-\s*\d+$    course number: -(\d+)$
  // ---------------------------------------------------------------------------

  /** `\s*-\s*\d+$` matches the whole of `u`. */
  predicate DashNumberTail(u: string)
  {
    var v := TrimStart(u);
    && |v| > 0 && v[0] == '-'
    && var w := TrimStart(v[1..]);
       |w| > 0 && AllDigits(w)
  }

  function LazySubject(s: string, q: nat): (r: Option<string>)
    requires q <= |s|
    ensures r.Some? ==> IsPrefix(r.value, s) && DashNumberTail(s[|r.value|..])
    decreases |s| - q
  {
    if DashNumberTail(s[q..]) then Some(s[..q])
    else if q < |s| && !IsLineTerminator(s[q]) then LazySubject(s, q + 1)
    else None
  }

  /** The lazy group is the shortest: no earlier cut leaves a "-digits"
      tail, and the group holds no line break. */
  lemma {:induction false} LazySubjectShortest(s: string, q: nat)
    requires q <= |s|
    ensures var r := LazySubject(s, q);
      r.Some? ==>
        && q <= |r.value|
        && forall k :: q <= k < |r.value| ==> !DashNumberTail(s[k..]) && !IsLineTerminator(s[k])
    decreases |s| - q
  {
    if !DashNumberTail(s[q..]) && q < |s| && !IsLineTerminator(s[q]) {
      LazySubjectShortest(s, q + 1);
    }
  }

  /** The lazy group is found whenever some cut before any line break leaves
      a "-digits" tail. */
  lemma {:induction false} LazySubjectFinds(s: string, q: nat, k: nat)
    requires q <= k <= |s| && DashNumberTail(s[k..])
    requires forall j :: q <= j < k ==> !IsLineTerminator(s[j])
    ensures LazySubject(s, q).Some? && |LazySubject(s, q).value| <= k
    decreases k - q
  {
    if q < k && !DashNumberTail(s[q..]) {
      LazySubjectFinds(s, q + 1, k);
    }
  }

  /** `code.match(/^(.*?)\s*-\s*\d+$/)`: the text before the last
      "-digits", without the spaces around the dash. */
  function SubjectMatch(s: string): (r: Option<string>)
    ensures r.Some? ==> IsPrefix(r.value, s) && DashNumberTail(s[|r.value|..])
  {
    LazySubject(s, 0)
  }

  /** `code.match(/-(\d+)$/)`: the digits after the dash that ends the code. */
  function NumberMatch(s: string): (r: Option<string>)
    ensures r.Some? ==> |r.value| >= 1 && AllDigits(r.value) && |r.value| < |s|
    ensures r.Some? ==> s[|s| - |r.value|..] == r.value && s[|s| - |r.value| - 1] == '-'
  {
    if |s| >= 2 && s[0] == '-' && AllDigits(s[1..]) then Some(s[1..])
    else if s == [] then None
    else
      var r := NumberMatch(s[1..]);
      if r.Some? then
        assert s[1..][|s[1..]| - |r.value|..] == s[|s| - |r.value|..];
        r
      else r
  }

  /** Digits contain no '-', so `-(\d+)$` can match in one place only:
      wherever a dash is followed by nothing but digits, the match is the
      digits after it. */
  lemma {:induction false} NumberMatchAt(s: string, p: nat)
    requires p + 1 < |s| && s[p] == '-' && AllDigits(s[p + 1..])
    ensures NumberMatch(s) == Some(s[p + 1..])
    decreases p
  {
    if p > 0 {
      assert s[1..][p - 1] == '-';
      assert s[1..][p..] == s[p + 1..];
      NumberMatchAt(s[1..], p - 1);
    }
  }

  /** The subject a course code belongs to: the "-digits" suffix stripped,
      then only the first space-separated word. */
  function SubjectOf(code: string): (subject: string)
    ensures ' ' !in subject
  {
    var m := SubjectMatch(code);
    var subject := if m.Some? then m.value else code;
    if ' ' in subject then FirstSpaceToken(subject) else subject
  }

  /** `subject.split(" ")[0]`: the subject is the stripped code up to its
      first space. */
  lemma SubjectOfIsFirstWord(code: string)
    ensures var m := SubjectMatch(code);
      var stripped := if m.Some? then m.value else code;
      var subject := SubjectOf(code);
      && IsPrefix(subject, stripped)
      && (|subject| < |stripped| ==> stripped[|subject|] == ' ')
  {
  }

  // ---------------------------------------------------------------------------
  // One row
  // ---------------------------------------------------------------------------

  /** The course a row at position `index` yields, if it has a day and a time. */
  function ParseRow(row: Row, index: int): (r: Option<ParsedCourse>)
    ensures r.Some? <==> FindDay(row.timeInfo).Some? && FindTime(row.timeInfo).Some?
    ensures r.Some? ==> r.value.id == index
  {
    match (FindDay(row.timeInfo), FindTime(row.timeInfo))
    case (Some(day), Some(t)) =>
      var cm := CodeMatch(row.codeInfo);
      var code := CodeOf(row.codeInfo);
      var kind := if cm.Some? then cm.value.1 else "";
      var nm := NumberMatch(code);
      Some(ParsedCourse(
        index,
        SubjectOf(code),
        row.courseName,
        if nm.Some? then nm.value else code,
        Capitalize(kind),
        Trim(row.instructor),
        row.location,
        NormalizeDay(day),
        Clock(t.0, t.1),
        Clock(t.2, t.3),
        "",
        true))
    case _ => None
  }

  /** The fields a produced course copies or fixes: name, place, the trimmed
      instructor, empty notes, shown, a one-word subject, the corrected day. */
  lemma ParsedRowFields(row: Row, index: int)
    requires ParseRow(row, index).Some?
    ensures var c := ParseRow(row, index).value;
      && c.name == row.courseName
      && c.location == row.location
      && c.instructor == Trim(row.instructor)
      && c.notes == "" && c.show
      && ' ' !in c.subject
      && c.day == NormalizeDay(FindDay(row.timeInfo).value)
  {
  }

  /** The subject and the course number a produced course takes from its
      code: the subject per `SubjectOf`, the number after the final dash, or
      the whole code when there is none. */
  lemma ParsedRowCodes(row: Row, index: int)
    requires ParseRow(row, index).Some?
    ensures var c := ParseRow(row, index).value;
      var code := CodeOf(row.codeInfo);
      && c.subject == SubjectOf(code)
      && c.course == (if NumberMatch(code).Some? then NumberMatch(code).value else code)
  {
  }

  /** A produced course always has a day the calendar can place and two
      `HH:MM` times. */
  lemma ParsedRowIsWellShaped(row: Row, index: int)
    requires ParseRow(row, index).Some?
    ensures var c := ParseRow(row, index).value;
      && TimetableUtils.DayIndex(c.day).Some?
      && |c.startTime| == 5 && c.startTime[2] == ':'
      && |c.endTime| == 5 && c.endTime[2] == ':'
  {
    var t := FindTime(row.timeInfo).value;
    ClockIsPaddedDigits(t.0, t.1);
    ClockIsPaddedDigits(t.2, t.3);
    ParsedDayIsKnown(FindDay(row.timeInfo).value);
  }

  /** The course type as stored: first letter upper case, the rest lower case;
      empty when the code carries no "(type)". */
  lemma ParsedKindIsCapitalized(row: Row, index: int)
    requires ParseRow(row, index).Some?
    ensures var c := ParseRow(row, index).value;
      && (CodeMatch(row.codeInfo).None? ==> c.kind == "")
      && (CodeMatch(row.codeInfo).Some? ==> c.kind == Capitalize(CodeMatch(row.codeInfo).value.1))
  {
  }

  // ---------------------------------------------------------------------------
  // The whole table
  // ---------------------------------------------------------------------------

  /** What each row yields, position by position. */
  function Outcomes(rows: seq<Row>): (outs: seq<Option<ParsedCourse>>)
    ensures |outs| == |rows|
    ensures forall i :: 0 <= i < |rows| ==> outs[i] == ParseRow(rows[i], i)
  {
    seq(|rows|, i requires 0 <= i < |rows| => ParseRow(rows[i], i))
  }

  /** The produced courses among the outcomes, in order. */
  function Produced(outs: seq<Option<ParsedCourse>>): (cs: seq<ParsedCourse>)
    ensures |cs| <= |outs|
    decreases |outs|
  {
    if outs == [] then []
    else
      var n := |outs| - 1;
      Produced(outs[..n]) + (match outs[n] case Some(c) => [c] case None => [])
  }

  /** The courses of the rows, in row order; row positions become course ids. */
  function ParsedRows(rows: seq<Row>): (cs: seq<ParsedCourse>)
    ensures |cs| <= |rows|
  {
    Produced(Outcomes(rows))
  }

  function CourseId(c: ParsedCourse): int { c.id }

  /** Outcomes whose courses carry their own position as id. */
  ghost predicate IdsArePositions(outs: seq<Option<ParsedCourse>>)
  {
    forall i :: 0 <= i < |outs| && outs[i].Some? ==> outs[i].value.id == i
  }

  lemma {:induction false} ProducedAtPositions(outs: seq<Option<ParsedCourse>>)
    requires IdsArePositions(outs)
    ensures var cs := Produced(outs);
      && (forall k :: 0 <= k < |cs| ==> 0 <= cs[k].id < |outs| && outs[cs[k].id] == Some(cs[k]))
      && StrictlyIncreasing(cs, CourseId)
    decreases |outs|
  {
    if outs != [] {
      var n := |outs| - 1;
      var prev := Produced(outs[..n]);
      assert IdsArePositions(outs[..n]);
      ProducedAtPositions(outs[..n]);
      assert forall k :: 0 <= k < |prev| ==> outs[..n][prev[k].id] == outs[prev[k].id];
    }
  }

  /** Nothing is dropped: every course an outcome holds is produced. */
  lemma {:induction false} ProducedKeepsAll(outs: seq<Option<ParsedCourse>>)
    ensures forall i :: 0 <= i < |outs| && outs[i].Some? ==> outs[i].value in Produced(outs)
    decreases |outs|
  {
    if outs != [] {
      var n := |outs| - 1;
      ProducedKeepsAll(outs[..n]);
      assert forall i :: 0 <= i < n ==> outs[..n][i] == outs[i];
    }
  }

  /** Every produced course is what its own row yields, ids are row
      positions, and they increase (with gaps where rows yield nothing);
      every row that yields a course has it among the results. */
  lemma ParsedRowsAreRowPositions(rows: seq<Row>)
    ensures var cs := ParsedRows(rows);
      && (forall k :: 0 <= k < |cs| ==> 0 <= cs[k].id < |rows| && ParseRow(rows[cs[k].id], cs[k].id) == Some(cs[k]))
      && StrictlyIncreasing(cs, CourseId)
      && (forall i :: 0 <= i < |rows| && ParseRow(rows[i], i).Some? ==> ParseRow(rows[i], i).value in cs)
  {
    ProducedAtPositions(Outcomes(rows));
    ProducedKeepsAll(Outcomes(rows));
  }

  /** A row that yields nothing leaves a gap: the row after it keeps its own
      position as id. */
  lemma ProducedAfterSkip(outs: seq<Option<ParsedCourse>>)
    requires |outs| == 2 && outs[0].None? && outs[1].Some?
    ensures Produced(outs) == [outs[1].value]
  {
    assert outs[..1][..0] == [];
    assert Produced(outs[..1]) == [];
  }

  lemma SkippedRowLeavesGap(rows: seq<Row>)
    requires |rows| == 2 && ParseRow(rows[0], 0).None? && ParseRow(rows[1], 1).Some?
    ensures ParsedRows(rows) == [ParseRow(rows[1], 1).value]
    ensures ParsedRows(rows)[0].id == 1
  {
    ProducedAfterSkip(Outcomes(rows));
  }


  // ---------------------------------------------------------------------------
  // The subject accumulator
  // ---------------------------------------------------------------------------

  /** Ids are positions and codes are unique. */
  ghost predicate AccumulatorShape(entries: seq<ParsedSubject>)
  {
    && (forall i :: 0 <= i < |entries| ==> entries[i].id == i)
    && (forall i, j :: 0 <= i < j < |entries| ==> entries[i].code != entries[j].code)
  }

  predicate HasCode(entries: seq<ParsedSubject>, code: string)
  {
    exists e :: e in entries && e.code == code
  }

  /** The accumulator after meeting a course of subject `code` named `name`:
      a new entry only for an unseen code, with the next id. */
  function Noted(entries: seq<ParsedSubject>, code: string, name: string): (r: seq<ParsedSubject>)
    ensures HasCode(r, code)
    ensures |entries| <= |r| <= |entries| + 1 && r[..|entries|] == entries
    ensures HasCode(entries, code) <==> r == entries
  {
    if HasCode(entries, code) then entries
    else
      var r := entries + [ParsedSubject(|entries|, code, name)];
      assert r[|entries|] in r;
      r
  }

  lemma NotedKeepsShape(entries: seq<ParsedSubject>, code: string, name: string)
    requires AccumulatorShape(entries)
    ensures AccumulatorShape(Noted(entries, code, name))
  {
    if !HasCode(entries, code) {
      var r := Noted(entries, code, name);
      forall i, j | 0 <= i < j < |r| ensures r[i].code != r[j].code {
        if j == |entries| {
          assert r[i] in entries;
        }
      }
    }
  }

  /** The accumulator after meeting the produced courses among `outs`. */
  function AccumulatedFrom(entries: seq<ParsedSubject>, outs: seq<Option<ParsedCourse>>): (r: seq<ParsedSubject>)
    decreases |outs|
  {
    if outs == [] then entries
    else
      var n := |outs| - 1;
      var before := AccumulatedFrom(entries, outs[..n]);
      match outs[n]
      case Some(c) => Noted(before, c.subject, c.name)
      case None => before
  }

  /** The accumulator after reading all of `rows`. */
  function Accumulated(entries: seq<ParsedSubject>, rows: seq<Row>): seq<ParsedSubject>
  {
    AccumulatedFrom(entries, Outcomes(rows))
  }

  lemma {:induction false} AccumulatedFromFacts(entries: seq<ParsedSubject>, outs: seq<Option<ParsedCourse>>)
    requires AccumulatorShape(entries)
    ensures var r := AccumulatedFrom(entries, outs);
      && AccumulatorShape(r)
      && |entries| <= |r| && r[..|entries|] == entries
      && forall c :: c in Produced(outs) ==> HasCode(r, c.subject)
    decreases |outs|
  {
    if outs != [] {
      var n := |outs| - 1;
      var before := AccumulatedFrom(entries, outs[..n]);
      AccumulatedFromFacts(entries, outs[..n]);
      match outs[n]
      case Some(c) =>
        NotedKeepsShape(before, c.subject, c.name);
        var r := Noted(before, c.subject, c.name);
        assert r[..|entries|] == before[..|entries|];
        forall d | d in Produced(outs) ensures HasCode(r, d.subject) {
          if d in Produced(outs[..n]) {
            var e :| e in before && e.code == d.subject;
            var k :| 0 <= k < |before| && before[k] == e;
            assert r[k] == e;
          }
        }
      case None =>
    }
  }

  /** Reading rows keeps ids equal to positions and codes unique, never
      changes an earlier entry, and ends with every produced course's subject
      present. */
  lemma AccumulatedFacts(entries: seq<ParsedSubject>, rows: seq<Row>)
    requires AccumulatorShape(entries)
    ensures var r := Accumulated(entries, rows);
      && AccumulatorShape(r)
      && |entries| <= |r| && r[..|entries|] == entries
      && forall c :: c in ParsedRows(rows) ==> HasCode(r, c.subject)
  {
    AccumulatedFromFacts(entries, Outcomes(rows));
  }

  class SubjectAccumulator {
    var entries: seq<ParsedSubject>

    constructor()
      ensures entries == []
    {
      entries := [];
    }

    /** Push an entry for `code` unless one is already there. */
    method Note(code: string, name: string)
      modifies this
      ensures entries == Noted(old(entries), code, name)
    {
      if !(exists e :: e in entries && e.code == code) {
        entries := entries + [ParsedSubject(|entries|, code, name)];
      }
    }
  }

  /** Reading the outcome at `i` after those before it. */
  lemma ReadOneMore(entries: seq<ParsedSubject>, outs: seq<Option<ParsedCourse>>, i: int)
    requires 0 <= i < |outs|
    ensures outs[i].Some? ==> Produced(outs[..i + 1]) == Produced(outs[..i]) + [outs[i].value]
    ensures outs[i].None? ==> Produced(outs[..i + 1]) == Produced(outs[..i])
    ensures outs[i].Some? ==> AccumulatedFrom(entries, outs[..i + 1])
                              == Noted(AccumulatedFrom(entries, outs[..i]), outs[i].value.subject, outs[i].value.name)
    ensures outs[i].None? ==> AccumulatedFrom(entries, outs[..i + 1]) == AccumulatedFrom(entries, outs[..i])
  {
    assert outs[..i + 1][..i] == outs[..i];
  }

  /** `parseCourseData(data, acc)`: `None` stands for a response without a
      result table. */
  method ParseCourseData(table: Option<seq<Row>>, acc: SubjectAccumulator) returns (courses: seq<ParsedCourse>)
    modifies acc
    ensures table.None? ==> courses == [] && acc.entries == old(acc.entries)
    ensures table.Some? ==> courses == ParsedRows(table.value)
    ensures table.Some? ==> acc.entries == Accumulated(old(acc.entries), table.value)
  {
    if table.None? {
      return [];
    }
    var rows := table.value;
    ghost var outs := Outcomes(rows);
    courses := [];
    var index := 0;
    while index < |rows|
      invariant 0 <= index <= |rows|
      invariant courses == Produced(outs[..index])
      invariant acc.entries == AccumulatedFrom(old(acc.entries), outs[..index])
    {
      var outcome := ParseRow(rows[index], index);
      ReadOneMore(old(acc.entries), outs, index);
      if outcome.Some? {
        acc.Note(outcome.value.subject, outcome.value.name);
        courses := courses + [outcome.value];
      }
      index := index + 1;
    }
    assert outs[..|rows|] == outs;
  }
}
