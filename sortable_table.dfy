// The sortable course table: the header's ascending/descending toggle and
// icons, the comparators used for the default order and for a header click,
// and the table state that is replaced by a sorted copy.
//
// A table row is the course object seen as a field map; a field that is
// `null` or `undefined` is a key missing from the map.

module SortableTable {
  import opened Model
  import opened Text

  // ---------------------------------------------------------------------------
  // The header
  // ---------------------------------------------------------------------------

  datatype Column = Column(title: string, accessor: string, sortable: bool, sortbyOrder: string)

  /** The order a click on `accessor` asks for: descending only when that
      column is the sorted one and is ascending. */
  function NextOrder(accessor: string, sortField: string, order: string): (r: string)
    ensures r == "desc" <==> accessor == sortField && order == "asc"
    ensures r == "asc" <==> !(accessor == sortField && order == "asc")
  {
    if accessor == sortField && order == "asc" then "desc" else "asc"
  }

  /** The suffix of a column's sort icon. */
  function SortIcon(col: Column, sortField: string, order: string): (cl: string)
    ensures cl == "-up" <==> col.sortable && col.accessor == sortField && order == "asc"
    ensures cl == "-down" <==> col.sortable && col.accessor == sortField && order == "desc"
    ensures cl == "" <==> !(col.sortable && col.accessor == sortField && (order == "asc" || order == "desc"))
  {
    if col.sortable then
      if col.accessor == sortField && order == "asc" then "-up"
      else if col.accessor == sortField && order == "desc" then "-down"
      else ""
    else ""
  }

  /** The click handler of a column header: the accessor it sorts by, none
      for a column that is not sortable. */
  function ClickTarget(col: Column): (t: Option<string>)
    ensures t.Some? <==> col.sortable
    ensures t.Some? ==> t.value == col.accessor
  {
    if col.sortable then Some(col.accessor) else None
  }

  class TableHead {
    var sortField: string
    var order: string

    constructor()
      ensures sortField == "" && order == "asc"
    {
      sortField := "";
      order := "asc";
    }

    /** `handleSortingChange(accessor)`: records the clicked column and its
        new order, and returns the arguments passed on to `handleSorting`. */
    method HandleSortingChange(accessor: string) returns (call: (string, string))
      modifies this
      ensures sortField == accessor
      ensures order == NextOrder(accessor, old(sortField), old(order))
      ensures call == (accessor, order)
    {
      var sortOrder := if accessor == sortField && order == "asc" then "desc" else "asc";
      sortField := accessor;
      order := sortOrder;
      call := (accessor, sortOrder);
    }
  }

  /** Clicking the same column again and again alternates ascending and
      descending, starting with ascending. */
  lemma ClicksAlternate(accessor: string, sortField: string, order: string)
    ensures var first := NextOrder(accessor, sortField, order);
      var second := NextOrder(accessor, accessor, first);
      && (first == "asc" ==> second == "desc")
      && (first == "desc" ==> second == "asc")
      && NextOrder(accessor, accessor, second) == first
  {
  }

  /** After a click on a sortable column, that column shows an arrow and
      every other column shows the plain icon. */
  lemma IconFollowsClick(clicked: Column, other: Column, sortField: string, order: string)
    requires clicked.sortable && other.accessor != clicked.accessor
    ensures var next := NextOrder(clicked.accessor, sortField, order);
      && SortIcon(clicked, clicked.accessor, next) in {"-up", "-down"}
      && (SortIcon(clicked, clicked.accessor, next) == "-down" <==> clicked.accessor == sortField && order == "asc")
      && SortIcon(other, clicked.accessor, next) == ""
  {
  }

  // ---------------------------------------------------------------------------
  // The comparators
  // ---------------------------------------------------------------------------

  type Row = map<string, string>

  /** `["Hétfő", …, "Vasárnap"].indexOf(day)`. */
  function DayPos(day: string): (p: int)
    ensures -1 <= p < 7
    ensures p == -1 <==> day !in ["Hétfő", "Kedd", "Szerda", "Csütörtök", "Péntek", "Szombat", "Vasárnap"]
    ensures p >= 0 ==> ["Hétfő", "Kedd", "Szerda", "Csütörtök", "Péntek", "Szombat", "Vasárnap"][p] == day
  {
    if day == "Hétfő" then 0
    else if day == "Kedd" then 1
    else if day == "Szerda" then 2
    else if day == "Csütörtök" then 3
    else if day == "Péntek" then 4
    else if day == "Szombat" then 5
    else if day == "Vasárnap" then 6
    else -1
  }

  function Sign(order: string): int
  {
    if order == "asc" then 1 else -1
  }

  /** The header-click comparator as written: the first missing field
      decides, so two rows both missing the field each claim to come after
      the other (the later "both missing" test is never reached). */
  function CompareAsWritten(field: string, order: string, a: Row, b: Row): int
  {
    if field !in a then 1
    else if field !in b then -1
    else if field == "day" then (DayPos(a[field]) - DayPos(b[field])) * Sign(order)
    else LexCmp(a[field], b[field]) * Sign(order)
  }

  /** The header-click comparator with the "both missing" case in its
      evidently intended place: such rows are equal. */
  function Compare(field: string, order: string, a: Row, b: Row): (r: int)
    ensures field !in a && field !in b ==> r == 0
    ensures field !in a && field in b ==> r == 1
    ensures field in a && field !in b ==> r == -1
    ensures field in a && field in b && field == "day" ==>
      r == (DayPos(a[field]) - DayPos(b[field])) * Sign(order)
  {
    if field !in a && field !in b then 0
    else CompareAsWritten(field, order, a, b)
  }

  /** The default-order comparator as written: like the header-click one,
      the first missing field decides and the "both missing" test after it
      is never reached. */
  function DefaultCompareAsWritten(field: string, order: string, a: Row, b: Row): int
  {
    if field !in a then 1
    else if field !in b then -1
    else LexCmp(a[field], b[field]) * Sign(order)
  }

  /** The default-order comparator with the "both missing" case in its
      evidently intended place; otherwise the same as the header-click one
      without the weekday special case. */
  function DefaultCompare(field: string, order: string, a: Row, b: Row): (r: int)
    ensures field !in a && field !in b ==> r == 0
    ensures field !in a && field in b ==> r == 1
    ensures field in a && field !in b ==> r == -1
  {
    if field !in a && field !in b then 0
    else DefaultCompareAsWritten(field, order, a, b)
  }

  /** Two rows without the field: both comparators as written put each
      after the other, so no order of them is consistent with them; the
      corrected ones call them equal. */
  lemma AsWrittenMissingPairInconsistent(field: string, order: string, a: Row, b: Row)
    requires field !in a && field !in b
    ensures CompareAsWritten(field, order, a, b) == 1 && CompareAsWritten(field, order, b, a) == 1
    ensures DefaultCompareAsWritten(field, order, a, b) == 1 && DefaultCompareAsWritten(field, order, b, a) == 1
    ensures Compare(field, order, a, b) == 0 && Compare(field, order, b, a) == 0
    ensures DefaultCompare(field, order, a, b) == 0 && DefaultCompare(field, order, b, a) == 0
  {
  }

  /** The corrected comparators are antisymmetric. */
  lemma CompareAntisymmetric(field: string, order: string, a: Row, b: Row)
    ensures Compare(field, order, a, b) == -Compare(field, order, b, a)
    ensures DefaultCompare(field, order, a, b) == -DefaultCompare(field, order, b, a)
  {
    if field in a && field in b {
      var x, y := a[field], b[field];
      LexCmpAntisymmetric(x, y);
      assert LexCmp(x, y) * Sign(order) == -(LexCmp(y, x) * Sign(order));
      if field == "day" {
        assert (DayPos(x) - DayPos(y)) * Sign(order) == -((DayPos(y) - DayPos(x)) * Sign(order));
      }
    }
  }

  /** Descending negates the ascending comparison of two rows that have the field. */
  lemma DescNegatesAsc(field: string, a: Row, b: Row)
    requires field in a && field in b
    ensures Compare(field, "desc", a, b) == -Compare(field, "asc", a, b)
    ensures DefaultCompare(field, "desc", a, b) == -DefaultCompare(field, "asc", a, b)
  {
  }

  /** Off the weekday column the two comparators agree. */
  lemma DefaultCompareAgrees(field: string, order: string, a: Row, b: Row)
    requires field != "day"
    ensures DefaultCompare(field, order, a, b) == Compare(field, order, a, b)
  {
  }

  // ---------------------------------------------------------------------------
  // Sorting
  // ---------------------------------------------------------------------------

  /** Which comparator a sort uses. */
  datatype Ordering = Ordering(field: string, order: string, days: bool)

  function Cmp(o: Ordering, a: Row, b: Row): int
  {
    if o.days then Compare(o.field, o.order, a, b) else DefaultCompare(o.field, o.order, a, b)
  }

  ghost predicate Sorted(o: Ordering, rs: seq<Row>)
  {
    forall i :: 0 <= i < |rs| - 1 ==> Cmp(o, rs[i], rs[i + 1]) <= 0
  }

  /** Places `x` before the first row it does not come after. */
  function Insert(o: Ordering, x: Row, rs: seq<Row>): (r: seq<Row>)
    ensures |r| == |rs| + 1
    ensures multiset(r) == multiset(rs) + multiset{x}
  {
    if rs == [] then [x]
    else if Cmp(o, x, rs[0]) <= 0 then [x] + rs
    else
      assert rs == [rs[0]] + rs[1..];
      [rs[0]] + Insert(o, x, rs[1..])
  }

  /** The sorted copy the table gets: a permutation of the rows in the
      comparator's order. */
  function Sort(o: Ordering, rs: seq<Row>): (r: seq<Row>)
    ensures multiset(r) == multiset(rs)
  {
    if rs == [] then []
    else
      assert rs == [rs[0]] + rs[1..];
      Insert(o, rs[0], Sort(o, rs[1..]))
  }

  lemma SortedTail(o: Ordering, rs: seq<Row>)
    requires Sorted(o, rs) && rs != []
    ensures Sorted(o, rs[1..])
  {
    forall i | 0 <= i < |rs[1..]| - 1 ensures Cmp(o, rs[1..][i], rs[1..][i + 1]) <= 0 {
      assert rs[1..][i] == rs[i + 1] && rs[1..][i + 1] == rs[i + 2];
    }
  }

  lemma ConsSorted(o: Ordering, y: Row, tail: seq<Row>)
    requires Sorted(o, tail) && (tail != [] ==> Cmp(o, y, tail[0]) <= 0)
    ensures Sorted(o, [y] + tail)
  {
    var r := [y] + tail;
    forall i | 0 <= i < |r| - 1 ensures Cmp(o, r[i], r[i + 1]) <= 0 {
      if i > 0 {
        assert r[i] == tail[i - 1] && r[i + 1] == tail[i];
      }
    }
  }

  lemma {:induction false} InsertSorted(o: Ordering, x: Row, rs: seq<Row>)
    requires Sorted(o, rs)
    ensures Sorted(o, Insert(o, x, rs))
    ensures |rs| > 0 ==> Insert(o, x, rs)[0] == x || Insert(o, x, rs)[0] == rs[0]
  {
    if rs != [] {
      if Cmp(o, x, rs[0]) <= 0 {
        ConsSorted(o, x, rs);
      } else {
        SortedTail(o, rs);
        InsertSorted(o, x, rs[1..]);
        CompareAntisymmetric(o.field, o.order, x, rs[0]);
        ConsSorted(o, rs[0], Insert(o, x, rs[1..]));
      }
    }
  }

  lemma {:induction false} SortSorted(o: Ordering, rs: seq<Row>)
    ensures Sorted(o, Sort(o, rs))
  {
    if rs != [] {
      SortSorted(o, rs[1..]);
      InsertSorted(o, rs[0], Sort(o, rs[1..]));
    }
  }

  /** In a sorted table, rows missing the field come after all rows that have it,
      in either order. */
  lemma {:induction false} MissingFieldSortsLast(o: Ordering, rs: seq<Row>, i: int, j: int)
    requires Sorted(o, rs) && 0 <= i < j < |rs| && o.field !in rs[i]
    ensures o.field !in rs[j]
    decreases j - i
  {
    assert Cmp(o, rs[i], rs[i + 1]) <= 0;
    if j > i + 1 {
      MissingFieldSortsLast(o, rs, i + 1, j);
    }
  }

  /** Sorting by the weekday column orders the rows by the weekday's place
      in the week, ascending or descending. */
  lemma DaySortFollowsWeek(order: string, rs: seq<Row>, i: int)
    requires Sorted(Ordering("day", order, true), rs) && 0 <= i < |rs| - 1
    requires "day" in rs[i] && "day" in rs[i + 1]
    ensures order == "asc" ==> DayPos(rs[i]["day"]) <= DayPos(rs[i + 1]["day"])
    ensures order != "asc" ==> DayPos(rs[i]["day"]) >= DayPos(rs[i + 1]["day"])
  {
    assert Cmp(Ordering("day", order, true), rs[i], rs[i + 1]) <= 0;
  }

  // ---------------------------------------------------------------------------
  // The table
  // ---------------------------------------------------------------------------

  /** The course table's columns; only the code column carries a default order. */
  const Columns: seq<Column> := [
    Column("Kód", "course", true, "asc"),
    Column("Típus", "type", true, ""),
    Column("Oktató", "instructor", true, ""),
    Column("Helyszín", "location", true, ""),
    Column("Nap", "day", true, ""),
    Column("Időpont", "time", false, ""),
    Column("Megjegyzés", "notes", false, ""),
    Column("", "actions", false, "")]

  /** `Object.assign({}, ...columns with a sortbyOrder)`, read with the
      defaults `id` and `asc`: the last such column wins. */
  function DefaultOrdering(columns: seq<Column>): (o: Ordering)
    ensures !o.days
    ensures (forall c :: c in columns ==> c.sortbyOrder == "") ==> o == Ordering("id", "asc", false)
  {
    if columns == [] then Ordering("id", "asc", false)
    else
      var last := columns[|columns| - 1];
      if last.sortbyOrder != "" then Ordering(last.accessor, last.sortbyOrder, false)
      else DefaultOrdering(columns[..|columns| - 1])
  }

  /** The default order is by course code, ascending. */
  lemma DefaultIsByCode()
    ensures DefaultOrdering(Columns) == Ordering("course", "asc", false)
  {
    var cs := Columns;
    assert DefaultOrdering(cs) == DefaultOrdering(cs[..7]);
    assert cs[..7][..6] == cs[..6];
    assert DefaultOrdering(cs[..7]) == DefaultOrdering(cs[..6]);
    assert cs[..6][..5] == cs[..5];
    assert DefaultOrdering(cs[..6]) == DefaultOrdering(cs[..5]);
    assert cs[..5][..4] == cs[..4];
    assert DefaultOrdering(cs[..5]) == DefaultOrdering(cs[..4]);
    assert cs[..4][..3] == cs[..3];
    assert DefaultOrdering(cs[..4]) == DefaultOrdering(cs[..3]);
    assert cs[..3][..2] == cs[..2];
    assert DefaultOrdering(cs[..3]) == DefaultOrdering(cs[..2]);
    assert cs[..2][..1] == cs[..1];
    assert DefaultOrdering(cs[..2]) == DefaultOrdering(cs[..1]);
  }

  class CourseTable {
    var tableData: seq<Row>

    /** The table starts with the default order of its data. */
    constructor(data: seq<Row>)
      ensures tableData == Sort(DefaultOrdering(Columns), data)
    {
      tableData := Sort(DefaultOrdering(Columns), data);
    }

    /** The effect on a change of data: the default order again. */
    method DataChanged(data: seq<Row>)
      modifies this
      ensures tableData == Sort(DefaultOrdering(Columns), data)
    {
      tableData := Sort(DefaultOrdering(Columns), data);
    }

    /** `handleSorting(sortField, sortOrder)`: an empty field leaves the table
        as it is; otherwise the rows are replaced by a sorted copy. */
    method HandleSorting(sortField: string, sortOrder: string)
      modifies this
      ensures sortField == "" ==> tableData == old(tableData)
      ensures sortField != "" ==> tableData == Sort(Ordering(sortField, sortOrder, true), old(tableData))
    {
      if sortField != "" {
        var copy := tableData;
        tableData := Sort(Ordering(sortField, sortOrder, true), copy);
      }
    }
  }

  /** After a header click the table holds the same rows, sorted by the
      clicked column, with the rows missing that column last. */
  lemma HandleSortingResult(rows: seq<Row>, sortField: string, sortOrder: string)
    requires sortField != ""
    ensures var r := Sort(Ordering(sortField, sortOrder, true), rows);
      && multiset(r) == multiset(rows)
      && Sorted(Ordering(sortField, sortOrder, true), r)
      && forall i, j :: 0 <= i < j < |r| && sortField !in r[i] ==> sortField !in r[j]
  {
    var o := Ordering(sortField, sortOrder, true);
    var r := Sort(o, rows);
    SortSorted(o, rows);
    forall i, j | 0 <= i < j < |r| && sortField !in r[i] ensures sortField !in r[j] {
      MissingFieldSortsLast(o, r, i, j);
    }
  }
}
