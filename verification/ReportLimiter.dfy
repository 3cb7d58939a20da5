/** Bounded diagnostics: a direct-mapped table of 32 slots that decides which
    occurrences of a key are worth a line. */
module ReportLimiter {
  import opened Options
  import opened Bits

  const SLOTS := 32
  type Index = i: int | 0 <= i < SLOTS witness 0

  /** A key reports `perKey` times, all keys together `total` times; the first
      `early` occurrences and the powers of two are worth reporting. */
  datatype Rules = Rules(perKey: nat, total: nat, early: nat)

  const SYSCALLS := Rules(8, 256, 4)
  const MMAPS := Rules(16, 128, 0)

  /** Detailed is the first sighting. */
  datatype Decision = Silent | Detailed | Repeat | Suppress

  predicate Due(rules: Rules, n: nat) {
    n <= rules.early || IsPow2(n)
  }

  method ShouldReport(rules: Rules, seen: nat) returns (due: bool)
    requires 0 < seen
    ensures due == Due(rules, seen)
  {
    if seen <= rules.early {
      return true;
    }
    SingleBit(seen);
    return And(seen, seen - 1) == 0;
  }

  function DueUpTo(rules: Rules, n: nat): (k: nat)
    ensures k <= n
  {
    if n == 0 then 0 else DueUpTo(rules, n - 1) + (if Due(rules, n) then 1 else 0)
  }

  /** What occurrence `n` of a key gets while the total lasts. */
  function Answer(rules: Rules, n: nat): Decision {
    if !Due(rules, n) || rules.perKey < DueUpTo(rules, n) then Silent
    else if rules.perKey == DueUpTo(rules, n) then Suppress
    else if n == 1 then Detailed else Repeat
  }

  /** Between two powers of two no number is one. */
  lemma {:induction false} PowersApart(k: nat, n: nat)
    requires 0 < n && Pow2(k) <= n < Pow2(k + 1)
    ensures IsPow2(n) <==> n == Pow2(k)
  {
    if k != 0 && n % 2 == 0 { PowersApart(k - 1, n / 2); }
  }

  lemma {:induction false} FirstThree(rules: Rules)
    requires rules.early == 4
    ensures DueUpTo(rules, 1) == 1 && DueUpTo(rules, 2) == 2 && DueUpTo(rules, 3) == 3
  {
    assert DueUpTo(rules, 1) == 1;
    assert DueUpTo(rules, 2) == 2;
  }

  lemma {:induction false} DueAtMost(rules: Rules, k: nat, n: nat)
    requires rules.early in {0, 4} && (rules.early == 4 ==> 2 <= k)
    requires Pow2(k) <= n < Pow2(k + 1)
    ensures DueUpTo(rules, n) == k + (if rules.early == 4 then 2 else 1)
    decreases n
  {
    PowersApart(k, n);
    if Pow2(k) < n {
      DueAtMost(rules, k, n - 1);
    } else if rules.early == 4 && k == 2 {
      FirstThree(rules);
    } else if k != 0 {
      DueAtMost(rules, k - 1, n - 1);
    }
  }

  lemma {:induction false} Log2(n: nat) returns (k: nat)
    requires 0 < n
    ensures Pow2(k) <= n < Pow2(k + 1)
  {
    if n == 1 {
      k := 0;
    } else {
      k := Log2(n / 2);
      k := k + 1;
    }
  }

  lemma {:induction false} PowersRise(a: nat, b: nat)
    requires a <= b
    ensures Pow2(a) <= Pow2(b)
  {
    if a < b { PowersRise(a, b - 1); }
  }

  lemma {:induction false} PowerBeside(k: nat, n: nat, b: nat)
    requires Pow2(k) <= n < Pow2(k + 1)
    ensures if k < b then n < Pow2(b) else if k == b then Pow2(b) <= n else Pow2(b) < n
  {
    if k < b { PowersRise(k + 1, b); } else if b < k { PowersRise(b + 1, k); }
  }

  /** An unsupported syscall reports at 1, 2, 3, 4, 8, 16, 32 and 64 and is said
      to have gone quiet at 64. */
  lemma {:induction false} SyscallAnswers(n: nat)
    requires 0 < n
    ensures Answer(SYSCALLS, n) ==
      if n == 1 then Detailed else if n in {2, 3, 4, 8, 16, 32} then Repeat
      else if n == 64 then Suppress else Silent
  {
    if n < 4 {
      FirstThree(SYSCALLS);
    } else {
      var k := Log2(n);
      if k < 2 { PowersRise(k + 1, 2); }
      DueAtMost(SYSCALLS, k, n);
      PowersApart(k, n);
      SmallPowers();
      if 6 < k {
        PowersRise(7, k);
      } else {
        assert k in {2, 3, 4, 5, 6};
      }
    }
  }

  lemma {:induction false} SmallPowers()
    ensures Pow2(2) == 4 && Pow2(3) == 8 && Pow2(4) == 16 && Pow2(5) == 32 && Pow2(6) == 64 && Pow2(7) == 128
  {
  }

  /** A repeated mapping request reports at the powers of two up to 2^15. */
  lemma {:induction false} MmapAnswers(n: nat)
    requires 0 < n
    ensures Answer(MMAPS, n) ==
      if n == 1 then Detailed else if IsPow2(n) && n < Pow2(15) then Repeat
      else if n == Pow2(15) then Suppress else Silent
  {
    var k := Log2(n);
    DueAtMost(MMAPS, k, n);
    PowersApart(k, n);
    PowerBeside(k, n, 15);
  }

  // ----- The unbounded history -----

  /** How often a key has been seen since another key took its slot. */
  function Streak<Key(==)>(log: seq<Key>, key: Key, slotOf: Key -> Index): nat {
    if log == [] then 0
    else if log[|log| - 1] == key then 1 + Streak(log[..|log| - 1], key, slotOf)
    else if slotOf(log[|log| - 1]) == slotOf(key) then 0
    else Streak(log[..|log| - 1], key, slotOf)
  }

  function Outcome<Key(==)>(rules: Rules, log: seq<Key>, key: Key, slotOf: Key -> Index): Decision
    decreases |log|, 1
  {
    if rules.total <= Emitted(rules, log, slotOf) then Silent else Answer(rules, Streak(log, key, slotOf) + 1)
  }

  /** Entry `c` is the last to take the slot from the key, or -1. */
  ghost predicate LastTaken<Key>(log: seq<Key>, key: Key, slotOf: Key -> Index, c: int) {
    && -1 <= c < |log| && (0 <= c ==> log[c] != key && slotOf(log[c]) == slotOf(key))
    && forall i :: c < i < |log| && slotOf(log[i]) == slotOf(key) ==> log[i] == key
  }

  function Times<Key(==)>(log: seq<Key>, key: Key): (n: nat) {
    if log == [] then 0 else Times(log[..|log| - 1], key) + (if log[|log| - 1] == key then 1 else 0)
  }

  /** A key has been seen as often as it occurs behind the entry that took its slot last. */
  lemma {:induction false} StreakIsTimes<Key>(log: seq<Key>, key: Key, slotOf: Key -> Index, c: int)
    requires LastTaken(log, key, slotOf, c)
    ensures Streak(log, key, slotOf) == Times(log[c + 1..], key)
  {
    if log != [] && c < |log| - 1 {
      var n := |log| - 1;
      StreakIsTimes(log[..n], key, slotOf, c);
      assert log[c + 1..][..n - c - 1] == log[..n][c + 1..];
    } else {
      assert log[c + 1..] == [];
    }
  }

  /** While lines are left, a sighting is answered by its number since then. */
  lemma {:induction false} AnsweredByNumber<Key>(rules: Rules, log: seq<Key>, key: Key, slotOf: Key -> Index, c: int,
                                                 n: nat, answer: Decision)
    requires LastTaken(log, key, slotOf, c) && n == Times(log[c + 1..], key) && answer == Outcome(rules, log, key, slotOf)
    ensures Emitted(rules, log, slotOf) < rules.total ==> answer == Answer(rules, n + 1)
  {
    StreakIsTimes(log, key, slotOf, c);
    AnsweredByStreak(rules, log, key, slotOf, n, answer);
  }

  lemma {:induction false} AnsweredByStreak<Key>(rules: Rules, log: seq<Key>, key: Key, slotOf: Key -> Index, n: nat,
                                                 answer: Decision)
    requires n == Streak(log, key, slotOf) && answer == Outcome(rules, log, key, slotOf)
    ensures Emitted(rules, log, slotOf) < rules.total ==> answer == Answer(rules, n + 1)
  {
  }

  /** Lines so far; never more than the total. */
  function Emitted<Key(==)>(rules: Rules, log: seq<Key>, slotOf: Key -> Index): (n: nat)
    ensures n <= rules.total
    decreases |log|, 0
  {
    if log == [] then 0
    else
      var before := log[..|log| - 1];
      Emitted(rules, before, slotOf) + (if Outcome(rules, before, log[|log| - 1], slotOf) == Silent then 0 else 1)
  }

  /** A slot that holds no key is None. */
  datatype Slot<Key> = Slot(key: Option<Key>, seen: nat, reported: nat, silenced: bool)

  ghost predicate SeenOk<Key(!new)>(s: Slot<Key>, i: nat, log: seq<Key>, slotOf: Key -> Index) {
    && (s.key.Some? ==> slotOf(s.key.value) == i && s.seen == Streak(log, s.key.value, slotOf))
    && forall k :: slotOf(k) == i && s.key != Some(k) ==> Streak(log, k, slotOf) == 0
  }

  ghost predicate ReportedOk<Key>(s: Slot<Key>, rules: Rules) {
    var due := DueUpTo(rules, s.seen);
    && s.reported == (if due < rules.perKey then due else rules.perKey)
    && (s.silenced <==> rules.perKey <= due)
  }

  /** What one more sighting of `key` does to the slot at `i`. */
  lemma {:induction false} SeenAfter<Key(!new)>(s: Slot<Key>, s': Slot<Key>, i: nat, log: seq<Key>, key: Key,
                                                slotOf: Key -> Index)
    requires SeenOk(s, i, log, slotOf)
    requires if i == slotOf(key) then s'.key == Some(key) && s'.seen == Streak(log, key, slotOf) + 1 else s' == s
    ensures SeenOk(s', i, log + [key], slotOf)
  {
    var log' := log + [key];
    assert log'[..|log|] == log;
    forall k | slotOf(k) == i && s'.key != Some(k) ensures Streak(log', k, slotOf) == 0 {
      assert Streak(log', k, slotOf) == if k == key then 1 + Streak(log, k, slotOf)
        else if i == slotOf(key) then 0 else Streak(log, k, slotOf);
    }
  }

  class Limiter<Key(==,!new)> {
    const rules: Rules
    const slotOf: Key -> Index
    const slots: array<Slot<Key>>
    var total: nat
    ghost var log: seq<Key>

    ghost predicate Valid()
      reads this, slots
    {
      && slots.Length == SLOTS && 0 < rules.perKey
      && total == Emitted(rules, log, slotOf)
      && forall i :: 0 <= i < SLOTS ==> SlotOk(slots[i], i)
    }

    ghost predicate SlotOk(s: Slot<Key>, i: nat)
      reads this
    {
      SeenOk(s, i, log, slotOf) && (total < rules.total ==> ReportedOk(s, rules))
    }

    constructor (rules: Rules, slotOf: Key -> Index)
      requires 0 < rules.perKey
      ensures Valid() && log == [] && this.rules == rules && this.slotOf == slotOf && fresh(slots)
    {
      this.rules, this.slotOf := rules, slotOf;
      slots := new Slot<Key>[SLOTS](_ => Slot(None, 0, 0, false));
      total, log := 0, [];
    }

    method Reset()
      requires Valid()
      modifies this, slots
      ensures Valid() && log == []
    {
      for i := 0 to SLOTS
        invariant forall j :: 0 <= j < i ==> slots[j] == Slot(None, 0, 0, false)
      {
        slots[i] := Slot(None, 0, 0, false);
      }
      total, log := 0, [];
    }

    /** One more sighting of the key in a slot. */
    method Count(slot: Slot<Key>) returns (decision: Decision, out: Slot<Key>)
      requires 0 < rules.perKey && (total < rules.total ==> ReportedOk(slot, rules))
      modifies this`total
      ensures out.key == slot.key && out.seen == slot.seen + 1
      ensures decision == if rules.total <= old(total) then Silent else Answer(rules, out.seen)
      ensures total == old(total) + (if decision == Silent then 0 else 1)
      ensures total < rules.total ==> ReportedOk(out, rules)
    {
      out := slot.(seen := slot.seen + 1);
      if out.silenced {
        return Silent, out;
      }
      var due := ShouldReport(rules, out.seen);
      if !due {
        return Silent, out;
      }
      if total >= rules.total {
        out := out.(silenced := true);
        return Silent, out;
      }
      total := total + 1;
      out := out.(reported := out.reported + 1);
      if out.reported >= rules.perKey {
        out := out.(silenced := true);
        return Suppress, out;
      }
      decision := if out.seen == 1 then Detailed else Repeat;
    }

    method Record(key: Key) returns (decision: Decision, occurrences: nat)
      requires Valid()
      modifies this, slots
      ensures Valid() && log == old(log) + [key]
      ensures occurrences == Streak(old(log), key, slotOf) + 1
      ensures decision == Outcome(rules, old(log), key, slotOf)
    {
      var i := slotOf(key);
      var slot := slots[i];
      assert SlotOk(slot, i);
      if slot.key != Some(key) {
        slot := Slot(Some(key), 0, 0, false);
      }
      assert slot.seen == Streak(log, key, slotOf);
      decision, slot := Count(slot);
      occurrences := slot.seen;
      Note(key, slot);
    }

    method Note(key: Key, slot: Slot<Key>)
      requires slots.Length == SLOTS && 0 < rules.perKey
      requires slot.key == Some(key) && slot.seen == Streak(log, key, slotOf) + 1
      requires total == Emitted(rules, log + [key], slotOf) && (total < rules.total ==> ReportedOk(slot, rules))
      requires forall j :: 0 <= j < SLOTS ==>
        SeenOk(slots[j], j, log, slotOf) && (total < rules.total ==> ReportedOk(slots[j], rules))
      modifies this`log, slots
      ensures Valid() && log == old(log) + [key]
    {
      ghost var before, was := log, slots[..];
      slots[slotOf(key)] := slot;
      log := log + [key];
      forall j | 0 <= j < SLOTS ensures SlotOk(slots[j], j) {
        SeenAfter(was[j], slots[j], j, before, key, slotOf);
      }
    }
  }
}
