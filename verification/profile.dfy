/** The student profile aggregation: from one student's attendance rows
    (newest first, each joined with its class name) compute per-class
    counts, overall totals and rate, the current day streak and a six-month
    trend. */
module Profile {
  import opened Calendar
  import opened Seqs

  /** One attendance row: the class name it is joined with, the QR session
      it was recorded for, and the instant it was marked. */
  datatype Mark = Mark(className: string, sessionId: string, markedAt: int)

  /** An exact percentage: the displayed value is 100 * num / den. */
  datatype Percent = Percent(num: nat, den: nat)

  /** The per-class line of the profile table. */
  datatype ClassStat = ClassStat(className: string, total: nat, present: nat, percentage: Percent)

  /** The distinct sessions seen for one class name. */
  datatype Group = Group(className: string, sessions: set<string>)

  datatype MonthCount = MonthCount(month: YearMonth, count: nat)

  datatype Overall = Overall(totalClasses: nat, totalPresent: nat, attendanceRate: Percent, currentStreak: nat)

  datatype Stats = Stats(classStats: seq<ClassStat>, monthlyTrends: seq<MonthCount>, overall: Overall)

  const ZeroPercent := Percent(0, 1)

  /** The figures shown before any aggregation has run. */
  const InitialStats := Stats([], [], Overall(0, 0, ZeroPercent, 0))

  // ---------------------------------------------------------------------
  // Reference definitions
  // ---------------------------------------------------------------------

  function ClassNames(marks: seq<Mark>): (r: seq<string>)
    ensures |r| == |marks| && forall i :: 0 <= i < |marks| ==> r[i] == marks[i].className
  {
    seq(|marks|, i requires 0 <= i < |marks| => marks[i].className)
  }

  /** The rows of one class, in order. */
  function MarksOfClass(marks: seq<Mark>, name: string): (r: seq<Mark>)
    ensures forall i :: 0 <= i < |r| ==> r[i] in marks && r[i].className == name
  {
    if |marks| == 0 then []
    else
      var last := marks[|marks| - 1];
      MarksOfClass(marks[..|marks| - 1], name) + (if last.className == name then [last] else [])
  }

  /** The distinct session ids among the rows of one class. */
  function SessionsOf(marks: seq<Mark>, name: string): set<string> {
    set i | 0 <= i < |marks| && marks[i].className == name :: marks[i].sessionId
  }

  lemma SessionsOfSnoc(marks: seq<Mark>, m: Mark, name: string)
    ensures SessionsOf(marks + [m], name)
         == SessionsOf(marks, name) + (if m.className == name then {m.sessionId} else {})
  {
    var xs := marks + [m];
    forall s | s in SessionsOf(marks, name)
      ensures s in SessionsOf(xs, name)
    {
      var i :| 0 <= i < |marks| && marks[i].className == name && marks[i].sessionId == s;
      assert xs[i] == marks[i];
    }
    if m.className == name {
      assert xs[|marks|] == m;
    }
  }

  /** No two rows share a session id. */
  predicate UniqueSessions(marks: seq<Mark>) {
    forall i, j :: 0 <= i < j < |marks| ==> marks[i].sessionId != marks[j].sessionId
  }

  /** A class has at most as many distinct sessions as rows. */
  lemma {:induction false} SessionsAtMostRows(marks: seq<Mark>, name: string)
    ensures |SessionsOf(marks, name)| <= |MarksOfClass(marks, name)|
  {
    if |marks| == 0 {
      assert SessionsOf(marks, name) == {};
    } else {
      var pre := marks[..|marks| - 1];
      var m := marks[|marks| - 1];
      LastSplit(marks);
      SessionsAtMostRows(pre, name);
      SessionsOfSnoc(pre, m, name);
    }
  }

  /** When session ids are unique, a class has exactly as many distinct
      sessions as rows. */
  lemma {:induction false} SessionsEqualRows(marks: seq<Mark>, name: string)
    requires UniqueSessions(marks)
    ensures |SessionsOf(marks, name)| == |MarksOfClass(marks, name)|
  {
    if |marks| == 0 {
      assert SessionsOf(marks, name) == {};
    } else {
      var pre := marks[..|marks| - 1];
      var m := marks[|marks| - 1];
      LastSplit(marks);
      assert UniqueSessions(pre);
      SessionsEqualRows(pre, name);
      forall i | 0 <= i < |pre|
        ensures pre[i].sessionId != m.sessionId
      {
        assert pre[i] == marks[i];
      }
      SessionsEqualStep(pre, m, name);
    }
  }

  /** A row with a new session id adds one session and one row to its class. */
  lemma SessionsEqualStep(pre: seq<Mark>, m: Mark, name: string)
    requires |SessionsOf(pre, name)| == |MarksOfClass(pre, name)|
    requires forall i :: 0 <= i < |pre| ==> pre[i].sessionId != m.sessionId
    ensures |SessionsOf(pre + [m], name)| == |MarksOfClass(pre + [m], name)|
  {
    SessionsOfSnoc(pre, m, name);
    assert (pre + [m])[..|pre|] == pre;
    if m.className == name {
      assert m.sessionId !in SessionsOf(pre, name);
    }
  }

  /** A class that has a row has a session. */
  lemma SessionsNonEmpty(marks: seq<Mark>, name: string)
    requires name in ClassNames(marks)
    ensures |SessionsOf(marks, name)| >= 1
  {
    var i :| 0 <= i < |marks| && ClassNames(marks)[i] == name;
    assert marks[i].sessionId in SessionsOf(marks, name);
  }

  // ---------------------------------------------------------------------
  // Per-class statistics, as the page computes them
  // ---------------------------------------------------------------------

  function StatNames(stats: seq<ClassStat>): (r: seq<string>)
    ensures |r| == |stats| && forall k :: 0 <= k < |stats| ==> r[k] == stats[k].className
  {
    seq(|stats|, k requires 0 <= k < |stats| => stats[k].className)
  }

  function GroupNames(groups: seq<Group>): (r: seq<string>)
    ensures |r| == |groups| && forall k :: 0 <= k < |groups| ==> r[k] == groups[k].className
  {
    seq(|groups|, k requires 0 <= k < |groups| => groups[k].className)
  }

  lemma ClassNamesSnoc(marks: seq<Mark>)
    requires |marks| > 0
    ensures ClassNames(marks) == ClassNames(marks[..|marks| - 1]) + [marks[|marks| - 1].className]
  {
  }

  /** A class without rows has no rows to count. */
  lemma NoRowsOfAbsentClass(marks: seq<Mark>, name: string)
    ensures name !in ClassNames(marks) ==> MarksOfClass(marks, name) == []
  {
    var r := MarksOfClass(marks, name);
    if |r| > 0 {
      var i :| 0 <= i < |marks| && marks[i] == r[0];
      assert ClassNames(marks)[i] == name;
    }
  }

  /** One step of the `classMap` pass: a new class gets an entry, and the
      row's class has its `present` count raised by one. */
  function CountRow(stats: seq<ClassStat>, name: string): (r: seq<ClassStat>)
    requires Distinct(StatNames(stats))
    ensures StatNames(r) == if name in StatNames(stats) then StatNames(stats) else StatNames(stats) + [name]
    ensures forall k :: 0 <= k < |stats| ==>
      r[k].present == stats[k].present + (if stats[k].className == name then 1 else 0)
    ensures name !in StatNames(stats) ==> r[|stats|].present == 1
    ensures forall k :: 0 <= k < |stats| ==>
      r[k] == if stats[k].className == name then stats[k].(present := stats[k].present + 1) else stats[k]
    ensures name !in StatNames(stats) ==> r[|stats|] == ClassStat(name, 0, 1, ZeroPercent)
  {
    var k := IndexOf(StatNames(stats), name);
    if k < 0 then stats + [ClassStat(name, 0, 1, ZeroPercent)]
    else stats[k := stats[k].(present := stats[k].present + 1)]
  }

  /** The `classMap` pass: one entry per class name in order of first
      appearance, `present` counting that class's rows. */
  function Tally(marks: seq<Mark>): (r: seq<ClassStat>)
    ensures StatNames(r) == Dedupe(ClassNames(marks))
    ensures forall k :: 0 <= k < |r| ==> r[k].present == |MarksOfClass(marks, r[k].className)|
  {
    if |marks| == 0 then []
    else
      var p := Tally(marks[..|marks| - 1]);
      CountRowStep(marks, p);
      CountRow(p, marks[|marks| - 1].className)
  }

  lemma CountRowStep(marks: seq<Mark>, p: seq<ClassStat>)
    requires |marks| > 0
    requires StatNames(p) == Dedupe(ClassNames(marks[..|marks| - 1]))
    requires forall k :: 0 <= k < |p| ==> p[k].present == |MarksOfClass(marks[..|marks| - 1], p[k].className)|
    ensures Distinct(StatNames(p))
    ensures var r := CountRow(p, marks[|marks| - 1].className);
      && StatNames(r) == Dedupe(ClassNames(marks))
      && forall k :: 0 <= k < |r| ==> r[k].present == |MarksOfClass(marks, r[k].className)|
  {
    var pre := marks[..|marks| - 1];
    var m := marks[|marks| - 1];
    LastSplit(marks);
    CountRowNames(pre, m, p);
    forall k | 0 <= k < |CountRow(p, m.className)|
      ensures CountRow(p, m.className)[k].present == |MarksOfClass(marks, CountRow(p, m.className)[k].className)|
    {
      CountRowAt(pre, m, p, k);
    }
  }

  lemma CountRowNames(pre: seq<Mark>, m: Mark, p: seq<ClassStat>)
    requires StatNames(p) == Dedupe(ClassNames(pre))
    ensures Distinct(StatNames(p))
    ensures StatNames(CountRow(p, m.className)) == Dedupe(ClassNames(pre + [m]))
  {
    var marks := pre + [m];
    assert marks[..|marks| - 1] == pre;
    ClassNamesSnoc(marks);
    DedupeSnoc(ClassNames(pre), m.className);
  }

  lemma CountRowAt(pre: seq<Mark>, m: Mark, p: seq<ClassStat>, k: nat)
    requires StatNames(p) == Dedupe(ClassNames(pre))
    requires forall k :: 0 <= k < |p| ==> p[k].present == |MarksOfClass(pre, p[k].className)|
    requires k < |CountRow(p, m.className)|
    ensures CountRow(p, m.className)[k].present == |MarksOfClass(pre + [m], CountRow(p, m.className)[k].className)|
  {
    CountRowNames(pre, m, p);
    var r := CountRow(p, m.className);
    var marks := pre + [m];
    assert marks[..|marks| - 1] == pre;
    assert MarksOfClass(marks, r[k].className)
        == MarksOfClass(pre, r[k].className) + (if m.className == r[k].className then [m] else []);
    if k == |p| {
      assert m.className !in StatNames(p);
      assert m.className !in ClassNames(pre);
      NoRowsOfAbsentClass(pre, m.className);
    } else {
      assert r[k].className == p[k].className;
    }
  }

  /** One step of the `sessionsByClass` pass. */
  function AddSession(groups: seq<Group>, m: Mark): (r: seq<Group>)
    requires Distinct(GroupNames(groups))
    ensures GroupNames(r) == if m.className in GroupNames(groups) then GroupNames(groups) else GroupNames(groups) + [m.className]
    ensures forall k :: 0 <= k < |groups| ==>
      r[k].sessions == groups[k].sessions + (if groups[k].className == m.className then {m.sessionId} else {})
    ensures m.className !in GroupNames(groups) ==> r[|groups|].sessions == {m.sessionId}
  {
    var k := IndexOf(GroupNames(groups), m.className);
    if k < 0 then groups + [Group(m.className, {m.sessionId})]
    else groups[k := groups[k].(sessions := groups[k].sessions + {m.sessionId})]
  }

  /** The `sessionsByClass` pass: the distinct session ids of every class,
      in order of first appearance. */
  function GroupSessions(marks: seq<Mark>): (r: seq<Group>)
    ensures GroupNames(r) == Dedupe(ClassNames(marks))
    ensures forall k :: 0 <= k < |r| ==> r[k].sessions == SessionsOf(marks, r[k].className)
  {
    if |marks| == 0 then []
    else
      var pre := marks[..|marks| - 1];
      var m := marks[|marks| - 1];
      var p := GroupSessions(pre);
      LastSplit(marks);
      AddSessionStep(pre, m, p);
      AddSession(p, m)
  }

  lemma AddSessionStep(pre: seq<Mark>, m: Mark, p: seq<Group>)
    requires GroupNames(p) == Dedupe(ClassNames(pre))
    requires forall k :: 0 <= k < |p| ==> p[k].sessions == SessionsOf(pre, p[k].className)
    ensures GroupNames(AddSession(p, m)) == Dedupe(ClassNames(pre + [m]))
    ensures forall k :: 0 <= k < |AddSession(p, m)| ==>
      AddSession(p, m)[k].sessions == SessionsOf(pre + [m], AddSession(p, m)[k].className)
  {
    AddSessionNames(pre, m, p);
    forall k | 0 <= k < |AddSession(p, m)|
      ensures AddSession(p, m)[k].sessions == SessionsOf(pre + [m], AddSession(p, m)[k].className)
    {
      AddSessionSetAt(pre, m, p, k);
    }
  }

  lemma AddSessionNames(pre: seq<Mark>, m: Mark, p: seq<Group>)
    requires GroupNames(p) == Dedupe(ClassNames(pre))
    ensures GroupNames(AddSession(p, m)) == Dedupe(ClassNames(pre + [m]))
  {
    var marks := pre + [m];
    assert marks[..|marks| - 1] == pre;
    ClassNamesSnoc(marks);
    DedupeSnoc(ClassNames(pre), m.className);
  }

  lemma AddSessionSetAt(pre: seq<Mark>, m: Mark, p: seq<Group>, k: nat)
    requires GroupNames(p) == Dedupe(ClassNames(pre))
    requires forall k :: 0 <= k < |p| ==> p[k].sessions == SessionsOf(pre, p[k].className)
    requires k < |AddSession(p, m)|
    ensures AddSession(p, m)[k].sessions == SessionsOf(pre + [m], AddSession(p, m)[k].className)
  {
    var r := AddSession(p, m);
    SessionsOfSnoc(pre, m, r[k].className);
    if k == |p| {
      assert m.className !in GroupNames(p);
      assert r[k].className == m.className by { AddSessionNames(pre, m, p); }
      assert m.className !in ClassNames(pre);
      NoSessionsOfAbsentClass(pre, m.className);
    }
  }

  /** A class without rows has no sessions. */
  lemma NoSessionsOfAbsentClass(marks: seq<Mark>, name: string)
    ensures name !in ClassNames(marks) ==> SessionsOf(marks, name) == {}
  {
    forall i | 0 <= i < |marks| && name !in ClassNames(marks)
      ensures marks[i].className != name
    {
      assert ClassNames(marks)[i] == marks[i].className;
    }
  }

  /** One step of the final pass: the entry of the group's class gets its
      distinct-session total and its percentage. */
  function SetTotal(stats: seq<ClassStat>, g: Group): (r: seq<ClassStat>)
    requires Distinct(StatNames(stats))
    ensures StatNames(r) == StatNames(stats)
    ensures forall k :: 0 <= k < |r| ==> r[k].present == stats[k].present
    ensures forall k :: 0 <= k < |r| ==>
      if stats[k].className == g.className
      then r[k].total == |g.sessions| && r[k].percentage == Percent(stats[k].present, |g.sessions|)
      else r[k] == stats[k]
  {
    var k := IndexOf(StatNames(stats), g.className);
    if k < 0 then stats
    else stats[k := stats[k].(total := |g.sessions|, percentage := Percent(stats[k].present, |g.sessions|))]
  }

  /** The final pass over `sessionsByClass`: every class entry that has a
      group takes that group's size as its total. */
  function ApplyTotals(stats: seq<ClassStat>, groups: seq<Group>): (r: seq<ClassStat>)
    requires Distinct(StatNames(stats)) && Distinct(GroupNames(groups))
    ensures StatNames(r) == StatNames(stats)
    ensures forall k :: 0 <= k < |r| ==> r[k].present == stats[k].present
    ensures forall k, j :: 0 <= k < |r| && 0 <= j < |groups| && groups[j].className == r[k].className ==>
      r[k].total == |groups[j].sessions| && r[k].percentage == Percent(r[k].present, r[k].total)
    ensures forall k :: 0 <= k < |r| && r[k].className !in GroupNames(groups) ==> r[k] == stats[k]
  {
    if |groups| == 0 then stats
    else
      var pre := groups[..|groups| - 1];
      var g := groups[|groups| - 1];
      assert GroupNames(groups) == GroupNames(pre) + [g.className];
      SetTotal(ApplyTotals(stats, pre), g)
  }

  /** The `classStats` the page shows: one entry per class name in order of
      first appearance, `present` = the class's rows, `total` = its
      distinct sessions, and the percentage their ratio. */
  function ClassStats(marks: seq<Mark>): (r: seq<ClassStat>)
    ensures StatNames(r) == Dedupe(ClassNames(marks))
    ensures forall k :: 0 <= k < |r| ==>
      && r[k].present == |MarksOfClass(marks, r[k].className)|
      && r[k].total == |SessionsOf(marks, r[k].className)|
      && r[k].percentage == Percent(r[k].present, r[k].total)
      && 1 <= r[k].total <= r[k].present
  {
    var t := Tally(marks);
    var groups := GroupSessions(marks);
    var r := ApplyTotals(t, groups);
    forall k | 0 <= k < |r|
      ensures r[k].total == |SessionsOf(marks, r[k].className)|
      ensures 1 <= |SessionsOf(marks, r[k].className)| <= r[k].present
    {
      assert GroupNames(groups)[k] == StatNames(r)[k];
      assert groups[k].className == r[k].className;
      SessionsAtMostRows(marks, r[k].className);
      assert r[k].className in ClassNames(marks);
      SessionsNonEmpty(marks, r[k].className);
    }
    r
  }

  // ---------------------------------------------------------------------
  // Overall figures
  // ---------------------------------------------------------------------

  function SumTotals(stats: seq<ClassStat>): nat {
    if |stats| == 0 then 0 else stats[0].total + SumTotals(stats[1..])
  }

  function SumPresent(stats: seq<ClassStat>): nat {
    if |stats| == 0 then 0 else stats[0].present + SumPresent(stats[1..])
  }

  /** `totalSessions`: the sum of the distinct-session counts. */
  function TotalSessions(groups: seq<Group>): nat {
    if |groups| == 0 then 0 else |groups[0].sessions| + TotalSessions(groups[1..])
  }

  lemma {:induction false} SumPresentBump(stats: seq<ClassStat>, k: nat)
    requires k < |stats|
    ensures SumPresent(stats[k := stats[k].(present := stats[k].present + 1)]) == SumPresent(stats) + 1
  {
    if k > 0 {
      SumPresentBump(stats[1..], k - 1);
      assert stats[k := stats[k].(present := stats[k].present + 1)][1..]
          == stats[1..][k - 1 := stats[k].(present := stats[k].present + 1)];
    }
  }

  lemma {:induction false} SumPresentAppend(stats: seq<ClassStat>, s: ClassStat)
    ensures SumPresent(stats + [s]) == SumPresent(stats) + s.present
  {
    if |stats| > 0 {
      assert (stats + [s])[1..] == stats[1..] + [s];
      SumPresentAppend(stats[1..], s);
    }
  }

  /** Every row is counted in exactly one class. */
  lemma {:induction false} TallyCountsEveryRow(marks: seq<Mark>)
    ensures SumPresent(Tally(marks)) == |marks|
  {
    if |marks| > 0 {
      var pre := marks[..|marks| - 1];
      var m := marks[|marks| - 1];
      TallyCountsEveryRow(pre);
      var p := Tally(pre);
      assert Tally(marks) == CountRow(p, m.className);
      CountRowAddsOne(p, m.className);
    }
  }

  /** Counting a row adds one to the total of the present counts. */
  lemma CountRowAddsOne(stats: seq<ClassStat>, name: string)
    requires Distinct(StatNames(stats))
    ensures SumPresent(CountRow(stats, name)) == SumPresent(stats) + 1
  {
    var k := IndexOf(StatNames(stats), name);
    if k < 0 {
      assert CountRow(stats, name) == stats + [ClassStat(name, 0, 1, ZeroPercent)];
      SumPresentAppend(stats, ClassStat(name, 0, 1, ZeroPercent));
    } else {
      assert CountRow(stats, name) == stats[k := stats[k].(present := stats[k].present + 1)];
      SumPresentBump(stats, k);
    }
  }

  lemma {:induction false} SumPresentSame(a: seq<ClassStat>, b: seq<ClassStat>)
    requires |a| == |b| && forall k :: 0 <= k < |a| ==> a[k].present == b[k].present
    ensures SumPresent(a) == SumPresent(b)
  {
    if |a| > 0 {
      SumPresentSame(a[1..], b[1..]);
    }
  }

  lemma {:induction false} SumTotalsAtMostPresent(stats: seq<ClassStat>)
    requires forall k :: 0 <= k < |stats| ==> stats[k].total <= stats[k].present
    ensures SumTotals(stats) <= SumPresent(stats)
  {
    if |stats| > 0 {
      SumTotalsAtMostPresent(stats[1..]);
    }
  }

  lemma {:induction false} TotalSessionsIsSumTotals(groups: seq<Group>, stats: seq<ClassStat>)
    requires |groups| == |stats|
    requires forall k :: 0 <= k < |stats| ==> stats[k].total == |groups[k].sessions|
    ensures TotalSessions(groups) == SumTotals(stats)
  {
    if |groups| > 0 {
      TotalSessionsIsSumTotals(groups[1..], stats[1..]);
    }
  }

  /** `totalSessions` is the sum of the per-class totals in the table. */
  lemma TotalSessionsMatchesTable(marks: seq<Mark>)
    ensures TotalSessions(GroupSessions(marks)) == SumTotals(ClassStats(marks))
  {
    var groups := GroupSessions(marks);
    var r := ClassStats(marks);
    assert |groups| == |r|;
    forall k | 0 <= k < |r|
      ensures r[k].total == |groups[k].sessions|
    {
      assert GroupNames(groups)[k] == StatNames(r)[k];
    }
    TotalSessionsIsSumTotals(groups, r);
  }

  /** The `present` counts of the table add up to the number of rows. */
  lemma TablePresentIsRows(marks: seq<Mark>)
    ensures SumPresent(ClassStats(marks)) == |marks|
  {
    var r := ClassStats(marks);
    var t := Tally(marks);
    assert |r| == |t|;
    TallyCountsEveryRow(marks);
    SumPresentSame(t, r);
  }

  /** `totalSessions` equals the sum of the per-class totals shown in the
      table, and lies between 1 and the number of rows when there are rows. */
  lemma OverallTotals(marks: seq<Mark>)
    ensures TotalSessions(GroupSessions(marks)) == SumTotals(ClassStats(marks))
    ensures SumPresent(ClassStats(marks)) == |marks|
    ensures SumTotals(ClassStats(marks)) <= |marks|
    ensures |marks| > 0 ==> SumTotals(ClassStats(marks)) > 0
  {
    TotalSessionsMatchesTable(marks);
    TablePresentIsRows(marks);
    TotalsAtMostPresent(marks);
    TableTotalPositive(marks);
  }

  lemma TotalsAtMostPresent(marks: seq<Mark>)
    ensures SumTotals(ClassStats(marks)) <= SumPresent(ClassStats(marks))
  {
    SumTotalsAtMostPresent(ClassStats(marks));
  }

  /** A student with rows has a class with at least one session. */
  lemma TableTotalPositive(marks: seq<Mark>)
    ensures |marks| > 0 ==> SumTotals(ClassStats(marks)) > 0
  {
    var r := ClassStats(marks);
    if |marks| > 0 {
      assert ClassNames(marks)[0] in Dedupe(ClassNames(marks));
      assert SumTotals(r) >= r[0].total;
    }
  }

  /** When every row has its own session, every class shows 100 percent. */
  lemma UniqueSessionsFullAttendance(marks: seq<Mark>)
    requires UniqueSessions(marks)
    ensures forall k :: 0 <= k < |ClassStats(marks)| ==>
      ClassStats(marks)[k].total == ClassStats(marks)[k].present
  {
    var r := ClassStats(marks);
    forall k | 0 <= k < |r|
      ensures r[k].total == r[k].present
    {
      SessionsEqualRows(marks, r[k].className);
    }
  }

  // ---------------------------------------------------------------------
  // Status badge
  // ---------------------------------------------------------------------

  datatype Status = Good | Fair | Poor

  /** The badge of a class: Good from 75 percent, Fair from 60 percent. */
  function StatusOf(p: Percent): (s: Status)
    requires p.den > 0
    ensures s == Good <==> 100 * p.num >= 75 * p.den
    ensures s == Fair <==> 60 * p.den <= 100 * p.num < 75 * p.den
    ensures s == Poor <==> 100 * p.num < 60 * p.den
  {
    if 100 * p.num >= 75 * p.den then Good
    else if 100 * p.num >= 60 * p.den then Fair
    else Poor
  }

  /** Because `total` counts only sessions the student has rows for, every
      class is at or above 100 percent and the badge is always Good. */
  lemma ClassStatusAlwaysGood(marks: seq<Mark>)
    ensures forall k :: 0 <= k < |ClassStats(marks)| ==>
      ClassStats(marks)[k].percentage.den > 0 && StatusOf(ClassStats(marks)[k].percentage) == Good
  {
  }

  // ---------------------------------------------------------------------
  // Current streak
  // ---------------------------------------------------------------------

  /** The local days of the rows, in row order. */
  function MarkDays(marks: seq<Mark>, offset: int): (r: seq<int>)
    ensures |r| == |marks| && forall i :: 0 <= i < |marks| ==> r[i] == LocalDay(marks[i].markedAt, offset)
  {
    seq(|marks|, i requires 0 <= i < |marks| => LocalDay(marks[i].markedAt, offset))
  }

  /** `sortedDates`: the distinct marked days, latest first. */
  function SortedDays(marks: seq<Mark>, offset: int): (r: seq<int>)
    ensures StrictlyDecreasing(r)
    ensures forall d :: d in r <==> d in MarkDays(marks, offset)
  {
    var r := SortDesc(Dedupe(MarkDays(marks, offset)));
    assert forall d :: d in r <==> d in multiset(r);
    r
  }

  /** `n` is what the streak loop computes on `days`: the first `n` days
      are today, yesterday, ..., and day `n` (if any) breaks the run. */
  predicate IsStreak(days: seq<int>, today: int, n: nat) {
    && n <= |days|
    && (forall i :: 0 <= i < n ==> days[i] == today - i)
    && (n < |days| ==> days[n] != today - n)
  }

  /** The streak loop: count while the i-th latest day is today minus i. */
  method CurrentStreak(days: seq<int>, today: int) returns (streak: nat)
    ensures IsStreak(days, today, streak)
  {
    streak := 0;
    var i := 0;
    while i < |days|
      invariant 0 <= i <= |days| && streak == i
      invariant forall j :: 0 <= j < i ==> days[j] == today - j
    {
      if days[i] == today - i {
        streak := streak + 1;
      } else {
        break;
      }
      i := i + 1;
    }
  }

  /** The loop's result is determined by its input. */
  lemma StreakUnique(days: seq<int>, today: int, a: nat, b: nat)
    requires IsStreak(days, today, a) && IsStreak(days, today, b)
    ensures a == b
  {
  }

  /** With no day after today, the streak is the length of the run of
      consecutive marked days ending today: every day of the run is marked
      and the day before it is not. */
  lemma StreakIsRunEndingToday(days: seq<int>, today: int, n: nat)
    requires StrictlyDecreasing(days)
    requires forall i :: 0 <= i < |days| ==> days[i] <= today
    requires IsStreak(days, today, n)
    ensures forall d :: today - n < d <= today ==> d in days
    ensures today - n !in days
    ensures today !in days ==> n == 0
  {
    forall d | today - n < d <= today
      ensures d in days
    {
      assert days[today - d] == d;
    }
    if n > 0 {
      assert days[0] == today;
    }
    forall i | 0 <= i < |days|
      ensures days[i] != today - n
    {
      if n < i {
        if n == 0 {
          assert days[i] < days[0];
        } else {
          assert days[n] < days[n - 1] == today - n + 1;
          assert days[i] < days[n];
        }
      }
    }
  }

  /** Without a mark today the streak is 0, and it never exceeds the
      number of distinct marked days. */
  lemma StreakBounds(marks: seq<Mark>, offset: int, today: int, n: nat)
    requires IsStreak(SortedDays(marks, offset), today, n)
    ensures n <= |SortedDays(marks, offset)|
    ensures (forall i :: 0 <= i < |marks| ==> LocalDay(marks[i].markedAt, offset) != today) ==> n == 0
  {
    var days := SortedDays(marks, offset);
    if n > 0 {
      assert days[0] == today;
      assert today in MarkDays(marks, offset);
    }
  }

  /** Two strictly decreasing sequences with the same elements are equal. */
  lemma {:induction false} SortedUnique(a: seq<int>, b: seq<int>)
    requires StrictlyDecreasing(a) && StrictlyDecreasing(b)
    requires multiset(a) == multiset(b)
    ensures a == b
  {
    if |a| > 0 {
      SortedTails(a, b);
      SortedUnique(a[1..], b[1..]);
      assert a == [a[0]] + a[1..];
      assert b == [b[0]] + b[1..];
    } else {
      assert |b| == |multiset(b)| == 0;
    }
  }

  /** Such sequences agree on their heads, and their tails again have the
      same elements. */
  lemma SortedTails(a: seq<int>, b: seq<int>)
    requires StrictlyDecreasing(a) && StrictlyDecreasing(b)
    requires multiset(a) == multiset(b) && |a| > 0
    ensures |b| > 0 && a[0] == b[0]
    ensures StrictlyDecreasing(a[1..]) && StrictlyDecreasing(b[1..])
    ensures multiset(a[1..]) == multiset(b[1..])
  {
    HeadIsMax(b, a[0]);
    HeadIsMax(a, b[0]);
    TailDecreasing(a);
    TailDecreasing(b);
    assert multiset(a[1..]) == multiset(a) - multiset{a[0]};
    assert multiset(b[1..]) == multiset(b) - multiset{b[0]};
  }

  /** The head of a strictly decreasing sequence is its largest element. */
  lemma HeadIsMax(a: seq<int>, x: int)
    requires StrictlyDecreasing(a) && x in multiset(a)
    ensures |a| > 0 && x <= a[0]
  {
    var i :| 0 <= i < |a| && a[i] == x;
  }

  /** Marks on today, yesterday and three days ago (in any order) give a
      streak of 2. */
  lemma StreakWithGap(days: seq<int>, today: int, n: nat)
    requires Distinct(days)
    requires multiset(days) == multiset{today, today - 1, today - 3}
    requires IsStreak(SortDesc(days), today, n)
    ensures n == 2
  {
    var s := SortDesc(days);
    SortedThree(s, today);
    assert s[2] != today - 2;
  }

  /** The days today, yesterday and three days ago, latest first. */
  lemma SortedThree(s: seq<int>, today: int)
    requires StrictlyDecreasing(s)
    requires multiset(s) == multiset{today, today - 1, today - 3}
    ensures s == [today, today - 1, today - 3]
  {
    var t := [today, today - 1, today - 3];
    assert multiset(t) == multiset{today, today - 1, today - 3};
    SortedUnique(s, t);
  }

  // ---------------------------------------------------------------------
  // Monthly trend
  // ---------------------------------------------------------------------

  /** The six buckets: five months before the current one up to the
      current one, oldest first. */
  function TrendWindow(current: YearMonth): (w: seq<YearMonth>)
    ensures |w| == 6
    ensures forall k :: 0 <= k < 6 ==> ValidMonth(w[k]) && MonthIndex(w[k]) == MonthIndex(current) - 5 + k
  {
    seq(6, k requires 0 <= k < 6 => MonthsBefore(current, 5 - k))
  }

  /** The rows whose local month is one of `window`. */
  function MarksInWindow(marks: seq<Mark>, window: seq<YearMonth>, offset: int): seq<Mark> {
    if |marks| == 0 then []
    else
      var last := marks[|marks| - 1];
      MarksInWindow(marks[..|marks| - 1], window, offset)
        + (if LocalMonth(last.markedAt, offset) in window then [last] else [])
  }

  /** The rows marked in month `ym`. */
  function MarksInMonth(marks: seq<Mark>, ym: YearMonth, offset: int): seq<Mark> {
    if |marks| == 0 then []
    else
      var last := marks[|marks| - 1];
      MarksInMonth(marks[..|marks| - 1], ym, offset)
        + (if LocalMonth(last.markedAt, offset) == ym then [last] else [])
  }

  function Sum(xs: seq<nat>): nat {
    if |xs| == 0 then 0 else xs[0] + Sum(xs[1..])
  }

  lemma {:induction false} SumBump(xs: seq<nat>, k: nat)
    requires k < |xs|
    ensures Sum(xs[k := xs[k] + 1]) == Sum(xs) + 1
  {
    if k > 0 {
      SumBump(xs[1..], k - 1);
      assert xs[k := xs[k] + 1][1..] == xs[1..][k - 1 := xs[k] + 1];
    }
  }

  lemma {:induction false} SumZeros(n: nat)
    ensures Sum(seq(n, _ => 0)) == 0
  {
    if n > 0 {
      assert seq(n, _ => 0)[1..] == seq(n - 1, _ => 0);
      SumZeros(n - 1);
    }
  }

  /** The counting pass: each row whose month is a bucket raises that
      bucket by one; other rows are ignored. */
  function MonthlyCounts(marks: seq<Mark>, window: seq<YearMonth>, offset: int): (c: seq<nat>)
    requires Distinct(window)
    ensures |c| == |window|
    ensures forall k :: 0 <= k < |c| ==> c[k] == |MarksInMonth(marks, window[k], offset)|
    ensures Sum(c) == |MarksInWindow(marks, window, offset)|
  {
    if |marks| == 0 then
      SumZeros(|window|);
      seq(|window|, _ => 0)
    else
      var pre := marks[..|marks| - 1];
      var ym := LocalMonth(marks[|marks| - 1].markedAt, offset);
      var p := MonthlyCounts(pre, window, offset);
      var k := IndexOf(window, ym);
      if k < 0 then p
      else
        SumBump(p, k);
        p[k := p[k] + 1]
  }

  /** The six-month trend, oldest first, zero-filled. */
  function MonthlyTrend(marks: seq<Mark>, now: int, offset: int): (t: seq<MonthCount>)
    ensures |t| == 6
    ensures t[5].month == LocalMonth(now, offset)
    ensures forall k :: 0 <= k < 5 ==> MonthIndex(t[k + 1].month) == MonthIndex(t[k].month) + 1
    ensures forall k :: 0 <= k < 6 ==>
      ValidMonth(t[k].month) && t[k].count == |MarksInMonth(marks, t[k].month, offset)|
  {
    var current := LocalMonth(now, offset);
    var w := TrendWindow(current);
    assert Distinct(w);
    MonthIndexRoundTrip(current);
    var c := MonthlyCounts(marks, w, offset);
    seq(6, k requires 0 <= k < 6 => MonthCount(w[k], c[k]))
  }

  function TrendCounts(t: seq<MonthCount>): (r: seq<nat>)
    ensures |r| == |t| && forall k :: 0 <= k < |t| ==> r[k] == t[k].count
  {
    seq(|t|, k requires 0 <= k < |t| => t[k].count)
  }

  /** The trend counts add up to the rows marked within the six months. */
  lemma TrendSum(marks: seq<Mark>, now: int, offset: int)
    ensures Sum(TrendCounts(MonthlyTrend(marks, now, offset)))
         == |MarksInWindow(marks, TrendWindow(LocalMonth(now, offset)), offset)|
  {
    var w := TrendWindow(LocalMonth(now, offset));
    assert Distinct(w);
    var c := MonthlyCounts(marks, w, offset);
    assert TrendCounts(MonthlyTrend(marks, now, offset)) == c;
  }

  // ---------------------------------------------------------------------
  // The whole aggregation
  // ---------------------------------------------------------------------

  /** `calculateStats` for the rows of one student, at instant `now`, in a
      zone `offset` ms ahead of UTC. */
  method CalculateStats(marks: seq<Mark>, now: int, offset: int) returns (s: Stats)
    ensures StatNames(s.classStats) == Dedupe(ClassNames(marks))
    ensures forall k :: 0 <= k < |s.classStats| ==>
      && s.classStats[k].present == |MarksOfClass(marks, s.classStats[k].className)|
      && s.classStats[k].total == |SessionsOf(marks, s.classStats[k].className)|
      && s.classStats[k].percentage == Percent(s.classStats[k].present, s.classStats[k].total)
      && 1 <= s.classStats[k].total <= s.classStats[k].present
    ensures s.classStats == ClassStats(marks)
    ensures s.overall.totalPresent == |marks|
    ensures s.overall.totalClasses == SumTotals(s.classStats) <= |marks|
    ensures s.overall.totalClasses > 0 ==> s.overall.attendanceRate == Percent(|marks|, s.overall.totalClasses)
    ensures s.overall.totalClasses == 0 ==> |marks| == 0 && s.overall.attendanceRate == ZeroPercent
    ensures IsStreak(SortedDays(marks, offset), LocalDay(now, offset), s.overall.currentStreak)
    ensures |s.monthlyTrends| == 6 && s.monthlyTrends[5].month == LocalMonth(now, offset)
    ensures forall k :: 0 <= k < 5 ==>
      MonthIndex(s.monthlyTrends[k + 1].month) == MonthIndex(s.monthlyTrends[k].month) + 1
    ensures forall k :: 0 <= k < 6 ==>
      s.monthlyTrends[k].count == |MarksInMonth(marks, s.monthlyTrends[k].month, offset)|
    ensures s.monthlyTrends == MonthlyTrend(marks, now, offset)
  {
    var totalPresent := |marks|;
    var groups := GroupSessions(marks);
    var totalSessions := TotalSessions(groups);
    var classStats := ClassStats(marks);
    OverallTotals(marks);
    var streak := CurrentStreak(SortedDays(marks, offset), LocalDay(now, offset));
    var trends := MonthlyTrend(marks, now, offset);
    var rate := if totalSessions > 0 then Percent(totalPresent, totalSessions) else ZeroPercent;
    s := Stats(classStats, trends, Overall(totalSessions, totalPresent, rate, streak));
  }

  /** The figures on the page after its records arrive: the aggregation
      runs only when there is at least one row; otherwise the page keeps
      the figures it was showing (`shown`), which on first mount are the
      initial zeros. */
  method ProfileStats(marks: seq<Mark>, now: int, offset: int, shown: Stats) returns (s: Stats)
    ensures |marks| == 0 ==> s == shown
    ensures |marks| == 0 && shown == InitialStats ==> s.classStats == [] && s.monthlyTrends == []
    ensures |marks| == 0 && shown == InitialStats ==>
      && s.overall.totalClasses == 0 && s.overall.totalPresent == 0
      && s.overall.attendanceRate == ZeroPercent && s.overall.currentStreak == 0
    ensures |marks| > 0 ==> |s.monthlyTrends| == 6 && s.overall.totalPresent == |marks|
    ensures |marks| > 0 ==> 0 < s.overall.totalClasses <= s.overall.totalPresent
    ensures |marks| > 0 ==> s.overall.totalClasses == SumTotals(s.classStats)
    ensures |marks| > 0 ==> s.classStats == ClassStats(marks) && s.monthlyTrends == MonthlyTrend(marks, now, offset)
    ensures |marks| > 0 ==> IsStreak(SortedDays(marks, offset), LocalDay(now, offset), s.overall.currentStreak)
    ensures |marks| > 0 ==> s.overall.attendanceRate == Percent(|marks|, s.overall.totalClasses)
  {
    if |marks| == 0 {
      s := shown;
    } else {
      s := CalculateStats(marks, now, offset);
    }
  }
}
