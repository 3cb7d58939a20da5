/** Planning a guest mapping at host-page granularity: which host pages are
    already owned and kept, and which have to be mapped. */
module MapPlan {
  import opened Options
  import opened Numbers
  import opened Bits

  const WORD := 64
  lemma {:induction false} WordIs64()
    ensures Pow2(WORD) == UINT64_MAX + 1
  {
    assert Pow2(8) == 0x100;
    PowAdds(8, 8);
    PowAdds(16, 16);
    PowAdds(32, 32);
  }

  /** x & ~(p - 1) on a 64-bit word. */
  function Down(x: nat, p: nat): nat
    requires 0 < p <= UINT64_MAX + 1
  {
    And(x, UINT64_MAX - (p - 1))
  }

  lemma {:induction false} DownIsFloor(x: Uint64, p: nat)
    requires IsPow2(p) && p <= UINT64_MAX + 1
    ensures Down(x, p) <= x < Down(x, p) + p && Multiple(Down(x, p), p)
  {
    WordIs64();
    MaskRoundsDown(x, p, WORD);
  }

  /** A question about the half-open range from its first argument to its second. */
  type Range = (int, int) -> bool

  datatype Status = Ok | InvalidRequest | GapOccupied

  datatype Run = Run(start: Uint64, length: Uint64, reused: bool)

  // ----- What a plan has to say -----

  /** The `n` pages from `start`, as maximal runs in order. */
  ghost predicate Plans(runs: seq<Run>, start: int, p: int, n: nat, covered: Range) {
    && (n == 0 <==> runs == [])
    && (runs != [] ==> runs[0].start == start && Tail(runs) == start + n * p)
    && (forall i :: 0 <= i < |runs| - 1 ==> Joint(runs, i))
    && (forall i :: 0 <= i < |runs| ==> Uniform(runs[i], start, p, covered))
  }

  ghost function Tail(runs: seq<Run>): int
    requires runs != []
  {
    var last := runs[|runs| - 1];
    last.start + last.length
  }

  /** A run meets the next one, which disagrees with it. */
  ghost predicate Joint(runs: seq<Run>, i: nat)
    requires i + 1 < |runs|
  {
    && runs[i].start + runs[i].length == runs[i + 1].start
    && runs[i].reused != runs[i + 1].reused
  }

  /** A run is whole pages, and agrees with the query on every one of them. */
  ghost predicate Uniform(run: Run, start: int, p: int, covered: Range) {
    exists a: nat, b: nat :: Pages(run, start, p, a, b, covered)
  }

  ghost predicate Pages(run: Run, start: int, p: int, a: nat, b: nat, covered: Range) {
    && a < b && run.start == start + a * p && run.start + run.length == start + b * p
    && forall i :: a <= i < b ==> Tracked(start, p, i, covered) == run.reused
  }

  predicate Tracked(start: int, p: int, i: int, covered: Range) {
    covered(start + i * p, start + i * p + p)
  }

  /** A run agrees with the query on every host page it has. */
  lemma {:induction false} RunAgrees(run: Run, start: int, p: int, covered: Range, page: int)
    requires 0 < p && Uniform(run, start, p, covered)
    requires run.start <= page < run.start + run.length && Multiple(page - start, p)
    ensures covered(page, page + p) == run.reused
  {
    var a: nat, b: nat :| Pages(run, start, p, a, b, covered);
    var i: int :| page - start == i * p;
    if i < a { Rising(i, a, p); }
    if b < i { Rising(b, i, p); }
    assert Tracked(start, p, i, covered) == run.reused;
  }

  /** How many of the first `n` pages are tracked. */
  function TrackedPages(start: int, p: int, n: nat, covered: Range): (k: nat)
    ensures k <= n
  {
    if n == 0 then 0
    else TrackedPages(start, p, n - 1, covered) + (if Tracked(start, p, n - 1, covered) then 1 else 0)
  }

  /** The bytes of the runs of one kind. */
  function RunBytes(runs: seq<Run>, reused: bool): (n: nat) {
    if runs == [] then 0
    else
      var last := runs[|runs| - 1];
      RunBytes(runs[..|runs| - 1], reused) + (if last.reused == reused then last.length else 0)
  }

  lemma {:induction false} OneMoreRun(runs: seq<Run>, run: Run, reused: bool)
    ensures RunBytes(runs + [run], reused) == RunBytes(runs, reused) + (if run.reused == reused then run.length else 0)
  {
    assert (runs + [run])[..|runs|] == runs;
  }

  lemma {:induction false} LastRunGrown(runs: seq<Run>, run: Run, reused: bool)
    requires runs != [] && run.reused == runs[|runs| - 1].reused
    ensures RunBytes(runs[|runs| - 1 := run], reused)
      == RunBytes(runs, reused) + (if run.reused == reused then run.length - runs[|runs| - 1].length else 0)
  {
    var rest := runs[..|runs| - 1];
    assert runs == rest + [runs[|runs| - 1]] && runs[|runs| - 1 := run] == rest + [run];
    OneMoreRun(rest, runs[|runs| - 1], reused);
    OneMoreRun(rest, run, reused);
  }

  ghost predicate HasRun(runs: seq<Run>, reused: bool) {
    exists i :: 0 <= i < |runs| && runs[i].reused == reused
  }

  lemma {:induction false} NoBytesNoRun(runs: seq<Run>, reused: bool)
    requires forall i :: 0 <= i < |runs| ==> 0 < runs[i].length
    ensures RunBytes(runs, reused) == 0 <==> !HasRun(runs, reused)
  {
    if runs != [] {
      var rest, last := runs[..|runs| - 1], runs[|runs| - 1];
      NoBytesNoRun(rest, reused);
      if HasRun(rest, reused) {
        var i :| 0 <= i < |rest| && rest[i].reused == reused;
        assert runs[i].reused == reused;
      }
      if last.reused == reused { assert runs[|runs| - 1].reused == reused; }
    }
  }

  ghost predicate AllFree(runs: seq<Run>, free: Range) {
    forall i :: 0 <= i < |runs| && !runs[i].reused ==> free(runs[i].start, runs[i].start + runs[i].length)
  }

  /** The runs leave nothing to choose: two plans of the same pages are equal. */
  lemma {:induction false} OnePlan(r: seq<Run>, s: seq<Run>, start: int, p: int, n: nat, covered: Range)
    requires 0 < p && Plans(r, start, p, n, covered) && Plans(s, start, p, n, covered)
    ensures r == s
  {
    if r != [] {
      forall i | 0 <= i < |r| && i < |s| ensures r[i] == s[i] { SameRun(r, s, start, p, n, covered, i); }
      var a, b := |r| - 1, |s| - 1;
      if a < b {
        assert r[a] == s[a];
        StartsRise(s, start, p, covered, a, b);
      } else if b < a {
        assert r[b] == s[b];
        StartsRise(r, start, p, covered, b, a);
      }
    }
  }

  lemma {:induction false} StartsRise(r: seq<Run>, start: int, p: int, covered: Range, a: nat, b: nat)
    requires 0 < p && a < b < |r|
    requires forall i :: 0 <= i < |r| - 1 ==> Joint(r, i)
    requires forall i :: 0 <= i < |r| ==> Uniform(r[i], start, p, covered)
    ensures r[a].start + r[a].length < r[b].start + r[b].length
  {
    assert Joint(r, b - 1);
    Longer(r[b], start, p, covered);
    if a < b - 1 { StartsRise(r, start, p, covered, a, b - 1); }
  }

  lemma {:induction false} Longer(run: Run, start: int, p: int, covered: Range)
    requires 0 < p && Uniform(run, start, p, covered)
    ensures 0 < run.length
  {
    var a: nat, b: nat :| Pages(run, start, p, a, b, covered);
    Rising(a, b, p);
  }

  lemma {:induction false} Rising(a: int, b: int, p: int)
    requires 0 < p && a < b
    ensures a * p + p <= b * p
  {
    assert b * p == a * p + (b - a) * p;
    assert (b - a) * p >= p by { Least(b - a, p); }
  }

  lemma {:induction false} Least(k: int, p: int)
    requires 0 < p && 1 <= k
    ensures p <= k * p
  {
  }

  lemma {:induction false} SameIndex(a: int, b: int, p: int)
    requires 0 < p && a * p == b * p
    ensures a == b
  {
    if a < b { Rising(a, b, p); } else if b < a { Rising(b, a, p); }
  }

  lemma {:induction false} SameRun(r: seq<Run>, s: seq<Run>, start: int, p: int, n: nat, covered: Range, i: nat)
    requires 0 < p && Plans(r, start, p, n, covered) && Plans(s, start, p, n, covered)
    requires i < |r| && i < |s|
    ensures r[i] == s[i]
  {
    if i != 0 {
      SameRun(r, s, start, p, n, covered, i - 1);
      assert Joint(r, i - 1) && Joint(s, i - 1);
    }
    if r[i].length < s[i].length {
      NotShorter(r, s, start, p, n, covered, i);
    } else if s[i].length < r[i].length {
      NotShorter(s, r, start, p, n, covered, i);
    }
    var a: nat, b: nat :| Pages(r[i], start, p, a, b, covered);
    var c: nat, d: nat :| Pages(s[i], start, p, c, d, covered);
    SameIndex(a, c, p);
    assert Tracked(start, p, a, covered) == r[i].reused;
  }

  /** A run cannot stop before a run of the same pages that goes on. */
  lemma {:induction false} NotShorter(r: seq<Run>, s: seq<Run>, start: int, p: int, n: nat, covered: Range, i: nat)
    requires 0 < p && Plans(r, start, p, n, covered) && Plans(s, start, p, n, covered)
    requires i < |r| && i < |s| && r[i].start == s[i].start
    ensures s[i].length <= r[i].length
  {
    if r[i].length < s[i].length {
      var a: nat, b: nat :| Pages(r[i], start, p, a, b, covered);
      var c: nat, d: nat :| Pages(s[i], start, p, c, d, covered);
      SameIndex(a, c, p);
      if d <= b { if d < b { Rising(d, b, p); } assert false; }
      assert Tracked(start, p, a, covered) == r[i].reused == s[i].reused;
      assert Tracked(start, p, b, covered) == s[i].reused;
      if i + 1 < |r| {
        assert Joint(r, i);
        var e: nat, f: nat :| Pages(r[i + 1], start, p, e, f, covered);
        SameIndex(e, b, p);
      } else if i + 1 < |s| {
        StartsRise(s, start, p, covered, i, |s| - 1);
      }
    }
  }

  // ----- The plan -----

  datatype Plan = Plan(status: Status, hostStart: Uint64, hostEnd: Uint64, exactHostCover: bool,
                       reusedBytes: Uint64, mappedBytes: Uint64, reusedPages: Uint64, mappedPages: Uint64,
                       runs: seq<Run>)

  const EMPTY := Plan(InvalidRequest, 0, 0, false, 0, 0, 0, 0, [])

  /** The requests the planner takes. */
  ghost predicate Acceptable(addr: Uint64, length: Uint64, hostPage: Uint64, guestPage: Uint64) {
    && 0 < length && IsPow2(hostPage) && guestPage <= hostPage
    && addr + length + hostPage - 1 <= UINT64_MAX
  }

  /** The tightest interval of whole host pages around the request. */
  ghost predicate Encloses(plan: Plan, addr: int, end: int, p: int) {
    && Multiple(plan.hostStart, p) && plan.hostStart <= addr < plan.hostStart + p
    && Multiple(plan.hostEnd, p) && plan.hostEnd - p < end <= plan.hostEnd
  }

  lemma {:induction false} WholePages(a: int, b: int, p: int) returns (n: nat)
    requires 0 < p && a <= b && Multiple(a, p) && Multiple(b, p)
    ensures b == a + n * p
  {
    var i: int :| a == i * p;
    var j: int :| b == j * p;
    if j < i { Rising(j, i, p); }
    n := j - i;
    assert b == a + n * p;
  }

  /** The next page, put into the last run or a new one. */
  lemma {:induction false} OneMorePage(runs: seq<Run>, runs': seq<Run>, start: int, p: int, n: nat, covered: Range)
    requires 0 < p && Plans(runs, start, p, n, covered)
    requires var page, r := start + n * p, Tracked(start, p, n, covered);
      if runs != [] && runs[|runs| - 1].reused == r
      then var last := runs[|runs| - 1];
        last.length + p <= UINT64_MAX && runs' == runs[|runs| - 1 := Run(last.start, last.length + p, r)]
      else 0 <= page <= UINT64_MAX && p <= UINT64_MAX && runs' == runs + [Run(page, p, r)]
    ensures Plans(runs', start, p, n + 1, covered)
  {
    var r := Tracked(start, p, n, covered);
    assert (n + 1) * p == n * p + p;
    var k := |runs'| - 1;
    if runs != [] && runs[|runs| - 1].reused == r {
      assert Uniform(runs[k], start, p, covered);
      var a: nat, b: nat :| Pages(runs[k], start, p, a, b, covered);
      SameIndex(b, n, p);
      assert Pages(runs'[k], start, p, a, n + 1, covered);
    } else {
      assert Pages(runs'[k], start, p, n, n + 1, covered);
    }
    forall i | 0 <= i < |runs'| - 1 ensures Joint(runs', i) {
      if i + 1 < |runs| { assert Joint(runs, i); }
    }
    forall i | 0 <= i < |runs'| ensures Uniform(runs'[i], start, p, covered) {
      if i < k { assert Uniform(runs[i], start, p, covered); }
    }
  }

  method AddPage(runs: seq<Run>, page: Uint64, p: Uint64, isReused: bool) returns (out: seq<Run>)
    requires runs != [] ==> Tail(runs) == page
    requires page + p <= UINT64_MAX
    ensures RunBytes(out, isReused) == RunBytes(runs, isReused) + p && RunBytes(out, !isReused) == RunBytes(runs, !isReused)
    ensures if runs != [] && runs[|runs| - 1].reused == isReused
      then var last := runs[|runs| - 1];
        last.length + p <= UINT64_MAX && out == runs[|runs| - 1 := Run(last.start, last.length + p, isReused)]
      else out == runs + [Run(page, p, isReused)]
  {
    if runs != [] && runs[|runs| - 1].reused == isReused
       && runs[|runs| - 1].start + runs[|runs| - 1].length == page {
      var last := runs[|runs| - 1];
      out := runs[|runs| - 1 := last.(length := last.length + p)];
      LastRunGrown(runs, out[|runs| - 1], isReused);
      LastRunGrown(runs, out[|runs| - 1], !isReused);
    } else {
      out := runs + [Run(page, p, isReused)];
      OneMoreRun(runs, Run(page, p, isReused), isReused);
      OneMoreRun(runs, Run(page, p, isReused), !isReused);
    }
  }

  datatype Tally = Tally(reusedBytes: int, mappedBytes: int, reusedPages: int, mappedPages: int)

  /** The first `i` pages, grouped and counted. */
  ghost predicate Grouped(runs: seq<Run>, start: int, p: int, i: nat, covered: Range, t: Tally) {
    && Plans(runs, start, p, i, covered)
    && t.reusedBytes == RunBytes(runs, true) && t.mappedBytes == RunBytes(runs, false)
    && t.reusedPages == TrackedPages(start, p, i, covered) && t.reusedPages + t.mappedPages == i
    && t.reusedBytes == t.reusedPages * p && t.mappedBytes == t.mappedPages * p
    && t.reusedBytes + t.mappedBytes == i * p && 0 <= t.mappedPages && 0 <= t.reusedBytes && 0 <= t.mappedBytes
  }

  function Counting(t: Tally, p: int, isReused: bool): Tally {
    if isReused then t.(reusedBytes := t.reusedBytes + p, reusedPages := t.reusedPages + 1)
    else t.(mappedBytes := t.mappedBytes + p, mappedPages := t.mappedPages + 1)
  }

  lemma {:induction false} OnePageGrouped(runs: seq<Run>, runs': seq<Run>, start: int, p: int, i: nat, covered: Range,
                                          t: Tally)
    requires 0 < p && Grouped(runs, start, p, i, covered, t)
    requires var page, r := start + i * p, Tracked(start, p, i, covered);
      && RunBytes(runs', r) == RunBytes(runs, r) + p && RunBytes(runs', !r) == RunBytes(runs, !r)
      && if runs != [] && runs[|runs| - 1].reused == r
         then var last := runs[|runs| - 1];
           last.length + p <= UINT64_MAX && runs' == runs[|runs| - 1 := Run(last.start, last.length + p, r)]
         else 0 <= page <= UINT64_MAX && p <= UINT64_MAX && runs' == runs + [Run(page, p, r)]
    ensures Grouped(runs', start, p, i + 1, covered, Counting(t, p, Tracked(start, p, i, covered)))
  {
    OneMorePage(runs, runs', start, p, i, covered);
    Step(t.reusedPages, p);
    Step(t.mappedPages, p);
    Step(i, p);
  }

  /** Walks the host pages, grouping neighbours that agree. */
  method GroupPages(plan: Plan, p: Uint64, covered: Range, ghost n: nat) returns (out: Plan)
    requires 0 < p && plan.hostEnd == plan.hostStart + n * p && n <= UINT64_MAX
    requires plan.runs == [] && plan.reusedBytes == plan.mappedBytes == plan.reusedPages == plan.mappedPages == 0
    ensures Counted(out, p, covered)
    ensures out == plan.(reusedBytes := out.reusedBytes, mappedBytes := out.mappedBytes,
      reusedPages := out.reusedPages, mappedPages := out.mappedPages, runs := out.runs)
  {
    var runs: seq<Run> := [];
    var page: Uint64 := plan.hostStart;
    var reused: Uint64, mapped: Uint64 := 0, 0;
    var reusedBytes: Uint64, mappedBytes: Uint64 := 0, 0;
    ghost var i := 0;
    while page < plan.hostEnd
      invariant 0 <= i <= n && page == plan.hostStart + i * p
      invariant Grouped(runs, plan.hostStart, p, i, covered, Tally(reusedBytes, mappedBytes, reused, mapped))
      decreases n - i
    {
      assert i < n;
      Rising(i, n, p);
      var isReused := covered(page, page + p);
      assert isReused == Tracked(plan.hostStart, p, i, covered);
      ghost var before := runs;
      runs := AddPage(runs, page, p, isReused);
      ghost var tally := Tally(reusedBytes, mappedBytes, reused, mapped);
      OnePageGrouped(before, runs, plan.hostStart, p, i, covered, tally);
      if isReused {
        reusedBytes, reused := reusedBytes + p, reused + 1;
      } else {
        mappedBytes, mapped := mappedBytes + p, mapped + 1;
      }
      page := page + p;
      i := i + 1;
    }
    if i < n { Rising(i, n, p); }
    out := plan.(reusedBytes := reusedBytes, mappedBytes := mappedBytes,
      reusedPages := reused, mappedPages := mapped, runs := runs);
    CountedIs(out, p, n, covered);
  }

  /** No page of one kind means no run of that kind. */
  lemma {:induction false} CountedIs(plan: Plan, p: int, n: nat, covered: Range)
    requires 0 < p && plan.hostEnd == plan.hostStart + n * p
    requires Grouped(plan.runs, plan.hostStart, p, n, covered,
                     Tally(plan.reusedBytes, plan.mappedBytes, plan.reusedPages, plan.mappedPages))
    ensures Counted(plan, p, covered)
  {
    forall i | 0 <= i < |plan.runs| ensures 0 < plan.runs[i].length {
      Longer(plan.runs[i], plan.hostStart, p, covered);
    }
    NoBytesNoRun(plan.runs, true);
    NoBytesNoRun(plan.runs, false);
    if plan.reusedPages != 0 { Least(plan.reusedPages, p); }
    if plan.mappedPages != 0 { Least(plan.mappedPages, p); }
  }

  lemma {:induction false} Step(k: int, p: int)
    ensures (k + 1) * p == k * p + p
  {
  }

  /** The whole plan. A query the caller did not supply is None. */
  method PlanNativeAnonymousMap(addr: Uint64, length: Uint64, hostPage: Uint64, guestPage: Uint64,
                                covered: Option<Range>, free: Option<Range>)
      returns (plan: Plan)
    ensures plan.status == InvalidRequest <==>
      covered == None || free == None || !Acceptable(addr, length, hostPage, guestPage)
    ensures plan.status == InvalidRequest ==> plan == EMPTY
    ensures plan.status != InvalidRequest ==> Planned(plan, addr, addr + length, hostPage, covered.value, free.value)
  {
    plan := EMPTY;
    if length == 0 || covered == None || free == None {
      return;
    }
    if hostPage != 0 { SingleBit(hostPage); }
    if hostPage == 0 || And(hostPage, hostPage - 1) != 0 || hostPage < guestPage {
      return;
    }
    if addr > UINT64_MAX - length {
      return;
    }
    var guestEnd := addr + length;
    if guestEnd > UINT64_MAX - (hostPage - 1) {
      return;
    }
    plan := PlanPages(addr, guestEnd, hostPage, covered.value, free.value);
  }

  method PlanPages(addr: Uint64, end: Uint64, p: Uint64, covered: Range, free: Range) returns (plan: Plan)
    requires IsPow2(p) && addr < end && end + p - 1 <= UINT64_MAX
    ensures plan.status != InvalidRequest && Planned(plan, addr, end, p, covered, free)
  {
    var laid := LayOut(addr, end, p);
    ghost var n := WholePages(laid.hostStart, laid.hostEnd, p);
    PageCount(n, p);
    var grouped := GroupPages(laid, p, covered, n);
    var ok := EveryGapFree(grouped.runs, free);
    plan := grouped.(status := if ok then Ok else GapOccupied);
  }

  method LayOut(addr: Uint64, end: Uint64, p: Uint64) returns (plan: Plan)
    requires IsPow2(p) && addr < end && end + p - 1 <= UINT64_MAX
    ensures Encloses(plan, addr, end, p)
    ensures plan.exactHostCover <==> Multiple(addr, p) && Multiple(end, p)
    ensures plan == EMPTY.(hostStart := plan.hostStart, hostEnd := plan.hostEnd, exactHostCover := plan.exactHostCover)
  {
    DownIsFloor(addr, p);
    DownIsFloor(end + p - 1, p);
    var hostStart, hostEnd := Down(addr, p), Down(end + p - 1, p);
    if Multiple(addr, p) { Aligned(hostStart, addr, p); }
    if Multiple(end, p) { Aligned(end, hostEnd, p); }
    plan := EMPTY.(hostStart := hostStart, hostEnd := hostEnd, exactHostCover := hostStart == addr && hostEnd == end);
  }

  /** Multiples of p less than p apart are equal. */
  lemma {:induction false} Aligned(a: int, b: int, p: int)
    requires 0 < p && Multiple(a, p) && Multiple(b, p) && a <= b < a + p
    ensures a == b
  {
    var n := WholePages(a, b, p);
    if n != 0 { PageCount(n, p); Rising(0, n, p); }
  }

  method EveryGapFree(runs: seq<Run>, free: Range) returns (ok: bool)
    ensures ok <==> AllFree(runs, free)
  {
    for i := 0 to |runs|
      invariant AllFree(runs[..i], free)
    {
      var run := runs[i];
      if run.reused {
        continue;
      }
      if !free(run.start, run.start + run.length) {
        return false;
      }
    }
    assert runs[..|runs|] == runs;
    return true;
  }

  lemma {:induction false} PageCount(n: nat, p: nat)
    requires 0 < p
    ensures n <= n * p
  {
    if n != 0 { Rising(n - 1, n, p); PageCount(n - 1, p); }
  }

  /** What every plan other than a refused request says. */
  ghost predicate Planned(plan: Plan, addr: int, end: int, p: int, covered: Range, free: Range) {
    && Encloses(plan, addr, end, p)
    && (plan.exactHostCover <==> Multiple(addr, p) && Multiple(end, p))
    && (plan.status == Ok <==> AllFree(plan.runs, free))
    && Counted(plan, p, covered)
  }

  /** The runs are the plan of the interval, and the counters sum it up. */
  ghost predicate Counted(plan: Plan, p: int, covered: Range) {
    var n := plan.reusedPages + plan.mappedPages;
    && plan.hostEnd == plan.hostStart + n * p
    && Plans(plan.runs, plan.hostStart, p, n, covered)
    && plan.reusedPages == TrackedPages(plan.hostStart, p, n, covered)
    && plan.reusedBytes == plan.reusedPages * p && plan.mappedBytes == plan.mappedPages * p
    && plan.reusedBytes + plan.mappedBytes == plan.hostEnd - plan.hostStart
    && plan.reusedBytes == RunBytes(plan.runs, true) && plan.mappedBytes == RunBytes(plan.runs, false)
    && (plan.reusedPages == 0 <==> !HasRun(plan.runs, true)) && (plan.mappedPages == 0 <==> !HasRun(plan.runs, false))
  }
}
