/** The side-by-side reports of one process: one line per assembly, the first
    outcome decided for it, in order. */
module SxsQueue {
  import opened Options
  import opened Texts
  import opened Sxs

  /** A report whose assembly fits its buffer. */
  type Line = r: Report | |r.assembly| < NAME_MAX witness Report("", "", "", "none", "not-found")

  predicate Same(a: Report, b: Report) {
    Lower(a.assembly) == Lower(b.assembly)
  }

  ghost predicate Known(accepted: seq<Line>, r: Report) {
    exists i :: 0 <= i < |accepted| && Same(accepted[i], r)
  }

  /** The lines an unbounded history of outcomes lets through. */
  ghost function Accepted(log: seq<Line>): (a: seq<Line>)
    ensures |a| <= SLOTS && |a| <= |log|
  {
    if log == [] then []
    else
      var a, r := Accepted(log[..|log| - 1]), log[|log| - 1];
      if Known(a, r) || |a| == SLOTS then a else a + [r]
  }

  ghost function Names(log: seq<Line>): set<string> {
    set r | r in log :: Lower(r.assembly)
  }

  /** No assembly is reported twice. */
  lemma {:induction false} OnePerAssembly(log: seq<Line>, i: nat, j: nat)
    requires i < j < |Accepted(log)|
    ensures !Same(Accepted(log)[i], Accepted(log)[j])
  {
    var before := Accepted(log[..|log| - 1]);
    if j < |before| { OnePerAssembly(log[..|log| - 1], i, j); }
  }

  /** A line is the first outcome of its assembly. */
  lemma {:induction false} FirstOutcome(log: seq<Line>, i: nat) returns (k: nat)
    requires i < |Accepted(log)|
    ensures k < |log| && log[k] == Accepted(log)[i]
    ensures forall j :: 0 <= j < k ==> !Same(log[j], log[k])
  {
    var n := |log| - 1;
    var before := Accepted(log[..n]);
    if i < |before| {
      k := FirstOutcome(log[..n], i);
    } else {
      k := n;
      forall j | 0 <= j < n ensures !Same(log[j], log[n]) {
        Covered(log[..n], j);
        var m :| 0 <= m < |before| && Same(before[m], log[..n][j]);
        assert !Same(before[m], log[n]);
      }
    }
  }

  /** Until there are eight lines, every assembly has one. */
  lemma {:induction false} Covered(log: seq<Line>, j: nat)
    requires j < |log| && |Accepted(log)| < SLOTS
    ensures Known(Accepted(log), log[j])
  {
    var n := |log| - 1;
    var before := Accepted(log[..n]);
    if j < n {
      Covered(log[..n], j);
      var m :| 0 <= m < |before| && Same(before[m], log[j]);
      assert Same(Accepted(log)[m], log[j]);
    } else if !Known(before, log[n]) {
      assert Same(Accepted(log)[|before|], log[n]);
    }
  }

  lemma {:induction false} NamesGrow(log: seq<Line>, r: Line)
    ensures Names(log + [r]) == Names(log) + {Lower(r.assembly)}
    ensures Known(log, r) <==> Lower(r.assembly) in Names(log)
  {
    if Lower(r.assembly) in Names(log) {
      var q :| q in log && Lower(q.assembly) == Lower(r.assembly);
      var i :| 0 <= i < |log| && log[i] == q;
      assert Same(log[i], r);
    }
  }

  lemma {:induction false} NameCount(log: seq<Line>)
    ensures |Names(Accepted(log))| == |Accepted(log)| && Names(Accepted(log)) <= Names(log)
  {
    if log == [] {
      assert Names(Accepted(log)) == {};
    } else {
      var n := |log| - 1;
      NameCount(log[..n]);
      assert log == log[..n] + [log[n]];
      AcceptedNext(log[..n], log[n]);
      OneMoreName(log[..n], Accepted(log[..n]), log[n]);
    }
  }

  lemma {:induction false} OneMoreName(log: seq<Line>, a: seq<Line>, r: Line)
    requires |Names(a)| == |a| && Names(a) <= Names(log)
    ensures Names(a) <= Names(log + [r])
    ensures !Known(a, r) ==> |Names(a + [r])| == |a| + 1 && Names(a + [r]) <= Names(log + [r])
  {
    NamesGrow(log, r);
    NamesGrow(a, r);
  }

  /** As long as a process asks about at most eight assemblies, each of them is
      reported. */
  lemma {:induction false} NoneLost(log: seq<Line>)
    requires |Names(log)| <= SLOTS
    ensures Names(Accepted(log)) == Names(log)
  {
    NameCount(log);
    var a, b := Names(Accepted(log)), Names(log);
    assert b == a + (b - a) && |b| == |a| + |b - a|;
    if |Accepted(log)| == SLOTS {
      assert b - a == {};
    } else {
      forall n | n in b ensures n in a {
        var r :| r in log && Lower(r.assembly) == n;
        var j :| 0 <= j < |log| && log[j] == r;
        Covered(log, j);
      }
    }
  }

  lemma {:induction false} AcceptedNext(log: seq<Line>, r: Line)
    ensures var a := Accepted(log);
      Accepted(log + [r]) == if Known(a, r) || |a| == SLOTS then a else a + [r]
  {
    assert (log + [r])[..|log|] == log;
  }

  class ReportQueue {
    const reports: array<Report>
    const reported: array<string>
    var reportedCount: nat
    var pending: nat
    /** Every outcome decided, and how many lines have been taken. */
    ghost var log: seq<Line>
    ghost var taken: nat

    ghost predicate Valid()
      reads this, reports, reported
    {
      && reports.Length == SLOTS && reported.Length == SLOTS && reports as object != reported
      && reportedCount == |Accepted(log)| && taken + pending == reportedCount
      && reports[..pending] == Accepted(log)[taken..]
      && forall i :: 0 <= i < reportedCount ==> reported[i] == Accepted(log)[i].assembly
    }

    constructor ()
      ensures Valid() && log == [] && taken == 0 && fresh(reports) && fresh(reported)
    {
      reports := new Report[SLOTS](_ => Report("", "", "", "none", "not-found"));
      reported := new string[SLOTS](_ => "");
      reportedCount, pending, log, taken := 0, 0, [], 0;
    }

    method AlreadyReported(report: Line) returns (found: bool)
      requires Valid()
      ensures found <==> Known(Accepted(log), report)
    {
      for i := 0 to reportedCount
        invariant forall k :: 0 <= k < i ==> !Same(Accepted(log)[k], report)
      {
        if Lower(reported[i]) == Lower(report.assembly) {
          assert Same(Accepted(log)[i], report);
          return true;
        }
      }
      return false;
    }

    method Queue(report: Line)
      requires Valid()
      modifies this`reportedCount, this`pending, this`log, reports, reported
      ensures Valid() && log == old(log) + [report]
    {
      AcceptedNext(log, report);
      ghost var next := Accepted(log + [report]);
      var found := AlreadyReported(report);
      if !found {
        Store(report, next);
      }
      log := log + [report];
    }

    /** Remembers the assembly and appends the line, unless there are eight. */
    method Store(report: Line, ghost next: seq<Line>)
      requires Valid() && next == if |Accepted(log)| == SLOTS then Accepted(log) else Accepted(log) + [report]
      modifies this`reportedCount, this`pending, reports, reported
      ensures reportedCount == |next| && taken + pending == reportedCount
      ensures reports[..pending] == next[taken..]
      ensures forall i :: 0 <= i < reportedCount ==> reported[i] == next[i].assembly
    {
      if reportedCount >= SLOTS {
        return;
      }
      ghost var was := Accepted(log);
      reported[reportedCount] := report.assembly;
      reportedCount := reportedCount + 1;
      if pending >= SLOTS {
        return;
      }
      reports[pending] := report;
      pending := pending + 1;
      assert reports[..pending] == old(reports[..pending]) + [report];
    }

    /** Moves every pending line but the first one slot towards the front. */
    method MoveUp()
      requires 0 < pending <= reports.Length
      modifies reports
      ensures reports[..pending - 1] == old(reports[1..pending])
    {
      for i := 1 to pending
        invariant reports[..i - 1] == old(reports[1..i])
        invariant forall k :: i - 1 <= k < pending ==> reports[k] == old(reports[k])
      {
        reports[i - 1] := reports[i];
      }
    }

    /** The oldest line not yet taken. */
    method TakeReport() returns (line: Option<Report>)
      requires Valid()
      modifies this`pending, this`taken, reports
      ensures Valid() && log == old(log)
      ensures if old(taken) == |Accepted(log)| then line == None && taken == old(taken)
        else line == Some(Accepted(log)[old(taken)]) && taken == old(taken) + 1
    {
      if pending == 0 {
        return None;
      }
      ghost var was := reports[..pending];
      line := Some(reports[0]);
      MoveUp();
      pending := pending - 1;
      assert was[1..] == Accepted(log)[taken + 1..];
      taken := taken + 1;
    }
  }
}
