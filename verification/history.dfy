/** The student's attendance history: the filtered query, the reset of
    the filters, and the CSV export of the records on screen. */
module History {
  import opened Wrappers
  import opened Text
  import opened Calendar

  /** An attendance row joined with its class: `className` is `None` when
      the join found no class. */
  datatype Record = Record(studentId: string, classId: string, className: Option<string>, markedAt: int)

  /** The filter controls: a class id or "all", and optional first and
      last days (each an instant inside the chosen day). */
  datatype Filters = Filters(selectedClass: string, dateFrom: Option<int>, dateTo: Option<int>)

  /** The select's value that stands for every class. */
  const AllClasses := "all"

  // ---------------------------------------------------------------------
  // The query
  // ---------------------------------------------------------------------

  /** One condition of the request. */
  datatype Condition =
    | StudentIs(studentId: string)
    | ClassIs(classId: string)
    | MarkedFrom(instant: int)
    | MarkedUntil(instant: int)

  predicate Holds(c: Condition, r: Record) {
    match c
    case StudentIs(id) => r.studentId == id
    case ClassIs(id) => r.classId == id
    case MarkedFrom(t) => r.markedAt >= t
    case MarkedUntil(t) => r.markedAt <= t
  }

  predicate HoldsAll(cs: seq<Condition>, r: Record) {
    forall i :: 0 <= i < |cs| ==> Holds(cs[i], r)
  }

  /** The conditions `fetchAttendance` chains onto the request: always the
      student, the class unless "all" is chosen, the first day from the
      instant picked, and the last day up to 23:59:59.999 local time. */
  function Query(studentId: string, f: Filters, offset: int): (cs: seq<Condition>)
    ensures |cs| >= 1 && cs[0] == StudentIs(studentId)
  {
    [StudentIs(studentId)]
    + (if f.selectedClass != AllClasses then [ClassIs(f.selectedClass)] else [])
    + (if f.dateFrom.Some? then [MarkedFrom(f.dateFrom.value)] else [])
    + (if f.dateTo.Some? then [MarkedUntil(EndOfDay(f.dateTo.value, offset))] else [])
  }

  /** What the filters mean: the student's rows of the chosen class,
      marked no earlier than the from-instant and on or before the local
      day of the to-date. */
  predicate Selected(studentId: string, f: Filters, offset: int, r: Record) {
    && r.studentId == studentId
    && (f.selectedClass == AllClasses || r.classId == f.selectedClass)
    && (f.dateFrom.Some? ==> r.markedAt >= f.dateFrom.value)
    && (f.dateTo.Some? ==> LocalDay(r.markedAt, offset) <= LocalDay(f.dateTo.value, offset))
  }

  /** The request's conditions select exactly the rows the filters mean:
      in particular every row of the last chosen day is kept, whatever its
      time. */
  lemma QueryMeaning(studentId: string, f: Filters, offset: int, r: Record)
    ensures HoldsAll(Query(studentId, f, offset), r) <==> Selected(studentId, f, offset, r)
  {
    var a := [StudentIs(studentId)];
    var b := if f.selectedClass != AllClasses then [ClassIs(f.selectedClass)] else [];
    var c := if f.dateFrom.Some? then [MarkedFrom(f.dateFrom.value)] else [];
    var d := if f.dateTo.Some? then [MarkedUntil(EndOfDay(f.dateTo.value, offset))] else [];
    assert Query(studentId, f, offset) == a + b + c + d;
    HoldsAllAppend(a, b, r);
    HoldsAllAppend(a + b, c, r);
    HoldsAllAppend(a + b + c, d, r);
    assert HoldsAll(a, r) <==> r.studentId == studentId by { assert Holds(a[0], r) == HoldsAll(a, r); }
    assert HoldsAll(b, r) <==> f.selectedClass == AllClasses || r.classId == f.selectedClass by {
      if f.selectedClass != AllClasses { assert Holds(b[0], r) == HoldsAll(b, r); }
    }
    assert HoldsAll(c, r) <==> f.dateFrom.Some? ==> r.markedAt >= f.dateFrom.value by {
      if f.dateFrom.Some? { assert Holds(c[0], r) == HoldsAll(c, r); }
    }
    if f.dateTo.Some? {
      assert Holds(d[0], r) == HoldsAll(d, r);
      NotAfterEndOfDay(r.markedAt, f.dateTo.value, offset);
    }
  }

  lemma HoldsAllAppend(xs: seq<Condition>, ys: seq<Condition>, r: Record)
    ensures HoldsAll(xs + ys, r) <==> HoldsAll(xs, r) && HoldsAll(ys, r)
  {
    assert forall i :: 0 <= i < |xs| ==> xs[i] == (xs + ys)[i];
    assert forall i :: 0 <= i < |ys| ==> ys[i] == (xs + ys)[|xs| + i];
  }

  /** After "Reset" the filters are the initial ones. */
  function Reset(): (f: Filters)
    ensures forall studentId, offset, r :: Selected(studentId, f, offset, r) <==> r.studentId == studentId
  {
    Filters(AllClasses, None, None)
  }

  // ---------------------------------------------------------------------
  // Fetching
  // ---------------------------------------------------------------------

  /** The rows of `table` meeting every condition, in table order. */
  function Where(table: seq<Record>, cs: seq<Condition>): (r: seq<Record>)
    ensures forall x :: x in r <==> x in table && HoldsAll(cs, x)
    ensures forall x :: multiset(r)[x] == if HoldsAll(cs, x) then multiset(table)[x] else 0
    ensures |r| <= |table|
  {
    if |table| == 0 then []
    else
      var rest := Where(table[1..], cs);
      assert forall x :: x in table <==> x == table[0] || x in table[1..];
      var head := if HoldsAll(cs, table[0]) then [table[0]] else [];
      WhereCount(table, cs, head, rest);
      head + rest
  }

  /** The count of each row in one step of `Where`. */
  lemma WhereCount(table: seq<Record>, cs: seq<Condition>, head: seq<Record>, rest: seq<Record>)
    requires |table| > 0
    requires head == if HoldsAll(cs, table[0]) then [table[0]] else []
    requires forall x :: multiset(rest)[x] == if HoldsAll(cs, x) then multiset(table[1..])[x] else 0
    ensures forall x :: multiset(head + rest)[x] == if HoldsAll(cs, x) then multiset(table)[x] else 0
  {
    assert table == [table[0]] + table[1..];
    assert multiset(table) == multiset{table[0]} + multiset(table[1..]);
    assert multiset(head + rest) == multiset(head) + multiset(rest);
  }

  /** Newest first. */
  predicate NewestFirst(rs: seq<Record>) {
    forall i, j :: 0 <= i < j < |rs| ==> rs[i].markedAt >= rs[j].markedAt
  }

  function InsertNewestFirst(rs: seq<Record>, x: Record): (r: seq<Record>)
    requires NewestFirst(rs)
    ensures NewestFirst(r)
    ensures multiset(r) == multiset(rs) + multiset{x}
  {
    if |rs| == 0 || x.markedAt >= rs[0].markedAt then
      PrependNewer(x, rs);
      [x] + rs
    else
      assert NewestFirst(rs[1..]);
      var t := InsertNewestFirst(rs[1..], x);
      PrependHead(rs, x, t);
      [rs[0]] + t
  }

  /** A record no older than the head can go in front. */
  lemma PrependNewer(x: Record, rs: seq<Record>)
    requires NewestFirst(rs) && (|rs| == 0 || x.markedAt >= rs[0].markedAt)
    ensures NewestFirst([x] + rs)
  {
    var r := [x] + rs;
    forall i, j | 0 <= i < j < |r|
      ensures r[i].markedAt >= r[j].markedAt
    {
      assert r[j] == rs[j - 1];
      if i > 0 {
        assert r[i] == rs[i - 1];
      } else if j > 1 {
        assert rs[0].markedAt >= rs[j - 1].markedAt;
      }
    }
  }

  /** The head is no older than anything inserted into the tail after it. */
  lemma PrependHead(rs: seq<Record>, x: Record, t: seq<Record>)
    requires NewestFirst(rs) && |rs| > 0 && x.markedAt < rs[0].markedAt
    requires NewestFirst(t) && multiset(t) == multiset(rs[1..]) + multiset{x}
    ensures NewestFirst([rs[0]] + t)
    ensures multiset([rs[0]] + t) == multiset(rs) + multiset{x}
  {
    forall k | 0 <= k < |t|
      ensures rs[0].markedAt >= t[k].markedAt
    {
      assert t[k] in multiset(t);
      if t[k] != x {
        assert t[k] in multiset(rs[1..]);
        var j :| 0 <= j < |rs[1..]| && rs[1..][j] == t[k];
        assert rs[j + 1] == t[k];
      }
    }
    var r := [rs[0]] + t;
    forall i, j | 0 <= i < j < |r|
      ensures r[i].markedAt >= r[j].markedAt
    {
      if i > 0 {
        assert r[i] == t[i - 1] && r[j] == t[j - 1];
      } else {
        assert r[j] == t[j - 1];
      }
    }
    assert rs == [rs[0]] + rs[1..];
  }

  /** `.order("marked_at", { ascending: false })`. Rows with equal
      instants may come back in any order, so only the order of instants
      and the rows themselves are promised. */
  function OrderNewestFirst(rs: seq<Record>): (r: seq<Record>)
    ensures NewestFirst(r)
    ensures multiset(r) == multiset(rs)
  {
    if |rs| == 0 then []
    else
      assert rs == [rs[0]] + rs[1..];
      InsertNewestFirst(OrderNewestFirst(rs[1..]), rs[0])
  }

  /** `fetchAttendance`: the records shown after a request with filters
      `f`, given the records shown before it. A failed request keeps what
      was shown. */
  function Fetch(table: seq<Record>, studentId: string, f: Filters, offset: int,
                 failed: bool, shown: seq<Record>): (r: seq<Record>)
    ensures failed ==> r == shown
    ensures !failed ==> NewestFirst(r)
    ensures !failed ==> forall x :: x in r <==> x in table && Selected(studentId, f, offset, x)
    ensures !failed ==> multiset(r) == multiset(Where(table, Query(studentId, f, offset)))
  {
    if failed then shown
    else
      var cs := Query(studentId, f, offset);
      var r := OrderNewestFirst(Where(table, cs));
      assert forall x :: x in r <==> x in multiset(r);
      forall x ensures HoldsAll(cs, x) <==> Selected(studentId, f, offset, x) {
        QueryMeaning(studentId, f, offset, x);
      }
      r
  }

  // ---------------------------------------------------------------------
  // CSV export
  // ---------------------------------------------------------------------

  const CsvHeader := "Class,Date,Time"

  /** The class cell: the class's name, or "N/A" when it is missing or
      empty. */
  function ClassCell(r: Record): (s: string)
    ensures s == "N/A" <==> r.className.None? || r.className.value in {"", "N/A"}
    ensures s != "N/A" ==> r.className == Some(s)
  {
    if r.className.None? || r.className.value == "" then "N/A" else r.className.value
  }

  /** The three cells of a record's line; `dateText` and `timeText` stand
      for the browser's locale rendering of an instant. */
  function Cells(r: Record, dateText: int -> string, timeText: int -> string): seq<string> {
    [ClassCell(r), dateText(r.markedAt), timeText(r.markedAt)]
  }

  function Lines(rs: seq<Record>, dateText: int -> string, timeText: int -> string): (ls: seq<string>)
    ensures |ls| == |rs|
    ensures forall i :: 0 <= i < |rs| ==> ls[i] == Join(Cells(rs[i], dateText, timeText), ',')
  {
    if |rs| == 0 then [] else [Join(Cells(rs[0], dateText, timeText), ',')] + Lines(rs[1..], dateText, timeText)
  }

  /** `exportToCSV`: refused when no records are shown; otherwise the
      header and one line per record, in the order shown. */
  function ExportCsv(rs: seq<Record>, dateText: int -> string, timeText: int -> string): (r: Result<string, string>)
    ensures r.Err? <==> |rs| == 0
    ensures r.Err? ==> r.error == "No records to export"
  {
    if |rs| == 0 then Err("No records to export")
    else Ok(Join([CsvHeader] + Lines(rs, dateText, timeText), '\n'))
  }

  /** No cell of any record contains `c`. */
  predicate CellsFree(rs: seq<Record>, dateText: int -> string, timeText: int -> string, c: char) {
    forall i, k :: 0 <= i < |rs| && 0 <= k < 3 ==> c !in Cells(rs[i], dateText, timeText)[k]
  }

  /** Reading the file back: when no cell holds a line break, it splits
      into the header followed by one line per record, and when no cell
      holds a comma either, each line splits into that record's three
      cells. */
  lemma ExportReadsBack(rs: seq<Record>, dateText: int -> string, timeText: int -> string)
    requires |rs| > 0
    requires CellsFree(rs, dateText, timeText, '\n')
    ensures var lines := Split(ExportCsv(rs, dateText, timeText).value, '\n');
      && |lines| == |rs| + 1
      && lines[0] == CsvHeader
      && (forall i :: 0 <= i < |rs| ==> lines[i + 1] == Join(Cells(rs[i], dateText, timeText), ','))
      && (CellsFree(rs, dateText, timeText, ',') ==>
            forall i :: 0 <= i < |rs| ==> Split(lines[i + 1], ',') == Cells(rs[i], dateText, timeText))
  {
    var ls := [CsvHeader] + Lines(rs, dateText, timeText);
    forall i | 0 <= i < |ls| ensures '\n' !in ls[i] {
      if i > 0 {
        var cs := Cells(rs[i - 1], dateText, timeText);
        JoinThree(cs[0], cs[1], cs[2], ',');
        assert cs == [cs[0], cs[1], cs[2]];
        assert '\n' !in cs[0] && '\n' !in cs[1] && '\n' !in cs[2];
      }
    }
    SplitJoin(ls, '\n');
    if CellsFree(rs, dateText, timeText, ',') {
      forall i | 0 <= i < |rs| ensures Split(ls[i + 1], ',') == Cells(rs[i], dateText, timeText) {
        var cs := Cells(rs[i], dateText, timeText);
        assert forall k :: 0 <= k < |cs| ==> ',' !in cs[k];
        SplitJoin(cs, ',');
      }
    }
  }

  lemma JoinThree(a: string, b: string, c: string, sep: char)
    ensures Join([a, b, c], sep) == a + [sep] + (b + [sep] + c)
  {
    assert [a, b, c][1..] == [b, c];
    assert [b, c][1..] == [c];
    assert Join([c], sep) == c;
    assert Join([b, c], sep) == b + [sep] + c;
  }

  /** A record's line has exactly three fields precisely when none of its
      cells contains a comma: the export does no quoting. */
  lemma LineFieldCount(r: Record, dateText: int -> string, timeText: int -> string)
    ensures var cs := Cells(r, dateText, timeText);
      |Split(Join(cs, ','), ',')| == 3 <==> ',' !in cs[0] && ',' !in cs[1] && ',' !in cs[2]
  {
    var cs := Cells(r, dateText, timeText);
    FieldCount(cs, ',');
    assert (forall i :: 0 <= i < |cs| ==> ',' !in cs[i]) <==> ',' !in cs[0] && ',' !in cs[1] && ',' !in cs[2];
  }
}
