/** Throttling guest spin loops: how often a call becomes a scheduling point. */
module Fairness {
  const ACTIVATION_CALLS := 32
  const RAPID_WINDOW := 5000
  const THROTTLE_INTERVAL := 4000

  const WRAP := 0x1_0000_0000_0000_0000
  type Micros = t: int | 0 <= t < WRAP witness 0

  datatype Decision = Decision(throttle: bool, activated: bool, firstActivation: bool)

  datatype Seen = Seen(time: Micros, decision: Decision)

  // ----- What the history says -----

  /** Whether a call follows one at `last` closely enough; 0 stands for no call. */
  predicate Rapid(last: Micros, now: Micros) {
    last != 0 && last <= now && now - last <= RAPID_WINDOW
  }

  function LastTime(log: seq<Seen>): Micros {
    if log == [] then 0 else log[|log| - 1].time
  }

  /** How many gaps in a row, up to now, have been rapid. */
  function Streak(log: seq<Seen>): (n: nat)
    ensures n <= |log|
  {
    if log == [] then 0
    else
      var before := log[..|log| - 1];
      if Rapid(LastTime(before), log[|log| - 1].time) then 1 + Streak(before) else 0
  }

  function LastThrottle(log: seq<Seen>): Micros {
    if log == [] then 0
    else
      var last := log[|log| - 1];
      if last.decision.throttle then last.time else LastThrottle(log[..|log| - 1])
  }

  ghost predicate EverActivated(log: seq<Seen>) {
    exists i :: 0 <= i < |log| && log[i].decision.activated
  }

  /** Unsigned subtraction. */
  function Elapsed(now: Micros, last: Micros): Micros {
    if last <= now then now - last else now - last + WRAP
  }

  /** The decision the history calls for. */
  ghost function Due(log: seq<Seen>, now: Micros): Decision {
    var rapid := Rapid(LastTime(log), now);
    var last := LastThrottle(log);
    var activated := rapid && Streak(log) == ACTIVATION_CALLS - 1;
    Decision(rapid && ACTIVATION_CALLS - 1 <= Streak(log)
             && (last == 0 || THROTTLE_INTERVAL <= Elapsed(now, last)),
             activated, activated && !EverActivated(log))
  }

  ghost predicate Run(log: seq<Seen>) {
    forall k :: 0 <= k < |log| ==> RightAt(log, k)
  }

  ghost predicate RightAt(log: seq<Seen>, k: nat)
    requires k < |log|
  {
    log[k].decision == Due(log[..k], log[k].time)
  }

  class GetrusageFairness {
    var lastCallMicroseconds: Micros
    var lastThrottleMicroseconds: Micros
    var rapidCallCount: nat
    var active: bool
    var hasEverActivated: bool
    /** The calls since the last reset. */
    ghost var log: seq<Seen>

    ghost predicate Valid()
      reads this
    {
      && Run(log)
      && lastCallMicroseconds == LastTime(log)
      && lastThrottleMicroseconds == LastThrottle(log)
      && rapidCallCount == (if Streak(log) < ACTIVATION_CALLS then Streak(log) else ACTIVATION_CALLS)
      && (active <==> ACTIVATION_CALLS <= Streak(log))
      && (hasEverActivated <==> EverActivated(log))
    }

    constructor ()
      ensures Valid() && log == []
    {
      lastCallMicroseconds, lastThrottleMicroseconds, rapidCallCount := 0, 0, 0;
      active, hasEverActivated, log := false, false, [];
    }

    method Reset()
      modifies this
      ensures Valid() && log == []
    {
      lastCallMicroseconds, lastThrottleMicroseconds, rapidCallCount := 0, 0, 0;
      active, hasEverActivated, log := false, false, [];
    }

    method Observe(now: Micros) returns (decision: Decision)
      requires Valid()
      modifies this
      ensures Valid() && decision == Due(old(log), now)
      ensures log == old(log) + [Seen(now, decision)]
    {
      decision := Decide(now);
      Recorded(old(log), Seen(now, decision));
      log := log + [Seen(now, decision)];
    }

    method Decide(now: Micros) returns (decision: Decision)
      requires Valid()
      modifies this
      ensures log == old(log) && decision == Due(log, now)
      ensures lastCallMicroseconds == now
      ensures lastThrottleMicroseconds == if decision.throttle then now else LastThrottle(log)
      ensures var streak := if Rapid(LastTime(log), now) then 1 + Streak(log) else 0;
        && rapidCallCount == (if streak < ACTIVATION_CALLS then streak else ACTIVATION_CALLS)
        && (active <==> ACTIVATION_CALLS <= streak)
      ensures hasEverActivated <==> EverActivated(log) || decision.activated
    {
      decision := Decision(false, false, false);
      var rapid := lastCallMicroseconds != 0 && now >= lastCallMicroseconds
        && now - lastCallMicroseconds <= RAPID_WINDOW;
      lastCallMicroseconds := now;
      if !rapid {
        rapidCallCount := 0;
        active := false;
        return;
      }
      if rapidCallCount < ACTIVATION_CALLS {
        rapidCallCount := rapidCallCount + 1;
      }
      if !active && rapidCallCount >= ACTIVATION_CALLS {
        active := true;
        decision := decision.(activated := true, firstActivation := !hasEverActivated);
        hasEverActivated := true;
      }
      if !active {
        return;
      }
      if lastThrottleMicroseconds != 0 && Elapsed(now, lastThrottleMicroseconds) < THROTTLE_INTERVAL {
        return;
      }
      lastThrottleMicroseconds := now;
      decision := decision.(throttle := true);
    }
  }

  lemma {:induction false} Recorded(log: seq<Seen>, s: Seen)
    requires Run(log) && s.decision == Due(log, s.time)
    ensures var log' := log + [s];
      && Run(log') && LastTime(log') == s.time
      && LastThrottle(log') == (if s.decision.throttle then s.time else LastThrottle(log))
      && Streak(log') == (if Rapid(LastTime(log), s.time) then 1 + Streak(log) else 0)
      && (EverActivated(log') <==> EverActivated(log) || s.decision.activated)
  {
    var log' := log + [s];
    assert log'[..|log|] == log;
    forall k | 0 <= k < |log'| ensures RightAt(log', k) {
      if k < |log| {
        assert RightAt(log, k);
        assert log'[..k] == log[..k];
      }
    }
    if EverActivated(log) {
      var i :| 0 <= i < |log| && log[i].decision.activated;
      assert log'[i].decision.activated;
    }
    if s.decision.activated { assert log'[|log|].decision.activated; }
  }

  // ----- Whole runs -----

  ghost predicate Steady(log: seq<Seen>) {
    forall i, j :: 0 <= i <= j < |log| ==> log[i].time <= log[j].time
  }

  function Throttles(log: seq<Seen>): (n: nat) {
    if log == [] then 0
    else Throttles(log[..|log| - 1]) + (if log[|log| - 1].decision.throttle then 1 else 0)
  }

  lemma {:induction false} LastThrottleIs(log: seq<Seen>)
    requires Run(log)
    ensures if Throttles(log) == 0 then LastThrottle(log) == 0 else 0 < LastThrottle(log)
    ensures 0 < Throttles(log) ==>
      exists i :: 0 <= i < |log| && log[i].decision.throttle && log[i].time == LastThrottle(log)
  {
    if log != [] {
      var n := |log| - 1;
      assert RightAt(log, n);
      Prefix(log, n);
      LastThrottleIs(log[..n]);
      if log[n].decision.throttle { assert log[n].time == LastThrottle(log); }
    }
  }

  /** The calls from `a` on, when some throttle: all but the first of them take at
      least four milliseconds each. */
  lemma {:induction false} Spread(log: seq<Seen>, a: nat) returns (first: nat)
    requires Run(log) && Steady(log) && a <= |log| && Throttles(log[a..]) != 0
    ensures a <= first < |log|
    ensures log[first].time + THROTTLE_INTERVAL * (Throttles(log[a..]) - 1) <= LastThrottle(log)
  {
    var n := |log| - 1;
    assert log[a..][..n - a] == log[..n][a..];
    assert RightAt(log, n);
    Prefix(log, n);
    if Throttles(log[..n][a..]) == 0 {
      first := n;
    } else {
      first := Spread(log[..n], a);
      LastThrottleIs(log[..n]);
      Positive(log[..n], a);
    }
  }

  lemma {:induction false} Positive(log: seq<Seen>, a: nat)
    requires a <= |log|
    ensures Throttles(log[a..]) <= Throttles(log)
  {
    if a < |log| {
      assert log[a..][..|log| - 1 - a] == log[..|log| - 1][a..];
      Positive(log[..|log| - 1], a);
    }
  }

  lemma {:induction false} Prefix(log: seq<Seen>, n: nat)
    requires Run(log) && n <= |log|
    ensures Run(log[..n])
  {
    forall k | 0 <= k < n ensures RightAt(log[..n], k) {
      assert RightAt(log, k);
      assert log[..n][..k] == log[..k];
    }
  }

  /** Calls within T microseconds hold at most T / 4000 + 1 throttles. */
  lemma {:induction false} WindowBound(log: seq<Seen>, a: nat, b: nat, T: nat)
    requires Run(log) && Steady(log) && a < b <= |log| && log[b - 1].time - log[a].time <= T
    ensures Throttles(log[a..b]) <= T / THROTTLE_INTERVAL + 1
  {
    Prefix(log, b);
    assert log[..b][a..] == log[a..b];
    if Throttles(log[a..b]) != 0 {
      var first := Spread(log[..b], a);
      LastThrottleIs(log[..b]);
      Positive(log[..b], a);
      assert LastThrottle(log[..b]) <= log[b - 1].time;
      Divide(Throttles(log[a..b]) - 1, T);
    }
  }

  lemma {:induction false} Divide(k: nat, T: nat)
    requires THROTTLE_INTERVAL * k <= T
    ensures k <= T / THROTTLE_INTERVAL
  {
  }

  predicate RapidAt(log: seq<Seen>, i: int) {
    0 < i < |log| && Rapid(log[i - 1].time, log[i].time)
  }

  /** A throttle comes only after 32 rapid gaps in a row. */
  lemma {:induction false} SpinsFirst(log: seq<Seen>, k: nat)
    requires Run(log) && k < |log| && log[k].decision.throttle
    ensures ACTIVATION_CALLS <= k
    ensures forall i :: k - ACTIVATION_CALLS < i <= k ==> RapidAt(log, i)
  {
    assert RightAt(log, k);
    assert log[..k + 1][..k] == log[..k];
    var upto := log[..k + 1];
    StreakIsGaps(upto);
    assert RapidAt(upto, k + 1 - ACTIVATION_CALLS);
    forall i | k - ACTIVATION_CALLS < i <= k ensures RapidAt(log, i) { assert RapidAt(upto, i); }
  }

  lemma {:induction false} StreakIsGaps(log: seq<Seen>)
    ensures forall i :: |log| - Streak(log) <= i < |log| ==> RapidAt(log, i)
  {
    if log != [] && Streak(log) != 0 {
      var before := log[..|log| - 1];
      StreakIsGaps(before);
      forall i | |log| - Streak(log) <= i < |log| ensures RapidAt(log, i) {
        assert i < |log| - 1 ==> RapidAt(before, i);
      }
    }
  }

  /** The first activation is announced at most once. */
  lemma {:induction false} AnnouncedOnce(log: seq<Seen>, i: nat, j: nat)
    requires Run(log) && i < |log| && j < |log|
    requires log[i].decision.firstActivation && log[j].decision.firstActivation
    ensures i == j
  {
    assert RightAt(log, i) && RightAt(log, j);
  }

  // ----- When it throttles -----

  /** The last `n` gaps before call `k` were all rapid. */
  ghost predicate Spinning(log: seq<Seen>, k: nat, n: nat) {
    n <= k < |log| && forall i :: k - n < i <= k ==> ShortGap(log, i)
  }

  /** Call `i` follows one at a time other than 0 by at most five milliseconds. */
  predicate ShortGap(log: seq<Seen>, i: int) {
    0 < i < |log| && 0 < log[i - 1].time <= log[i].time <= log[i - 1].time + 5000
  }

  lemma {:induction false} StreakAtLeast(log: seq<Seen>, k: nat, n: nat)
    requires k < |log|
    ensures Spinning(log, k, n) <==> n <= Streak(log[..k + 1])
    decreases n
  {
    var upto := log[..k + 1];
    assert upto[..k] == log[..k];
    if n > 0 {
      if k > 0 {
        StreakAtLeast(log, k - 1, n - 1);
        assert ShortGap(log, k) <==> Rapid(LastTime(log[..k]), log[k].time);
        assert Spinning(log, k, n) <==> ShortGap(log, k) && Spinning(log, k - 1, n - 1);
      } else {
        assert log[..0] == [];
      }
    }
  }

  ghost predicate LastThrottleAt(log: seq<Seen>, j: int) {
    0 <= j < |log| && log[j].decision.throttle && forall i :: j < i < |log| ==> !log[i].decision.throttle
  }

  /** No call has throttled, or the last one that did was at least four milliseconds ago. */
  ghost predicate LongSince(log: seq<Seen>, now: Micros) {
    forall j :: LastThrottleAt(log, j) ==> 4000 <= (now - log[j].time) % 0x1_0000_0000_0000_0000
  }

  lemma {:induction false} LastThrottleFound(log: seq<Seen>) returns (j: int)
    requires Run(log)
    ensures if j < 0 then LastThrottle(log) == 0 && forall i :: 0 <= i < |log| ==> !log[i].decision.throttle
      else LastThrottleAt(log, j) && LastThrottle(log) == log[j].time && 0 < log[j].time
  {
    if log == [] {
      j := -1;
    } else {
      var n := |log| - 1;
      assert RightAt(log, n);
      Prefix(log, n);
      if log[n].decision.throttle {
        j := n;
      } else {
        j := LastThrottleFound(log[..n]);
      }
    }
  }

  lemma {:induction false} ElapsedIsModular(now: Micros, last: Micros)
    ensures Elapsed(now, last) == (now - last) % 0x1_0000_0000_0000_0000
  {
  }

  /** A call throttles exactly when 32 rapid gaps in a row lead up to it and no throttle
      came less than four milliseconds before; and activates exactly at the 32nd. */
  lemma {:induction false} ThrottlesExactly(log: seq<Seen>, k: nat)
    requires Run(log) && k < |log|
    ensures log[k].decision.throttle <==> Spinning(log, k, 32) && LongSince(log[..k], log[k].time)
    ensures log[k].decision.activated <==> Spinning(log, k, 32) && !Spinning(log, k, 33)
  {
    assert RightAt(log, k) && log[..k + 1][..k] == log[..k];
    StreakAtLeast(log, k, 32);
    StreakAtLeast(log, k, 33);
    Prefix(log, k);
    var j := LastThrottleFound(log[..k]);
    if 0 <= j { ElapsedIsModular(log[k].time, log[j].time); }
    assert forall i :: LastThrottleAt(log[..k], i) ==> i == j;
  }

  /** The first activation is announced exactly at the first call that activates. */
  lemma {:induction false} AnnouncedFirst(log: seq<Seen>, k: nat)
    requires Run(log) && k < |log|
    ensures log[k].decision.firstActivation <==>
      log[k].decision.activated && forall i :: 0 <= i < k ==> !log[i].decision.activated
  {
    assert RightAt(log, k);
    assert forall i :: 0 <= i < k ==> log[..k][i] == log[i];
  }
}
