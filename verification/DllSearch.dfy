/** Naming the module a process could not find: a small table per process, and a
    table of opened modules shared by all, that together must agree with the
    unbounded history of probes and opens. */
module DllSearch {
  import opened Options
  import opened Texts

  const RESOLVED_SLOTS := 256
  const MODULE_SLOTS := 32
  const NAME_MAX := 64

  /** A lowercased module name that fits its buffer with a terminator. */
  type Name = s: string | |s| < NAME_MAX witness ""

  // ----- The module a path names -----

  function ModuleName(path: string): (name: Option<Name>)
    ensures name.Some? ==> 4 <= |name.value| && name.value[|name.value| - 4..] == ".dll"
    ensures name.Some? ==> forall c :: c in name.value ==> !Separator(c)
  {
    var n := |path|;
    if n < 4 || Lower(path[n - 4..]) != ".dll" then None
    else
      var start := LastStart(path, n);
      if n - start + 1 > NAME_MAX then None
      else
        NameEnds(path, start);
        Some(Lower(path[start..]))
  }

  lemma {:induction false} NameEnds(path: string, start: nat)
    requires 4 <= |path| && Lower(path[|path| - 4..]) == ".dll" && start == LastStart(path, |path|)
    ensures start <= |path| - 4
    ensures var name := Lower(path[start..]);
      name[|name| - 4..] == ".dll" && forall c :: c in name ==> !Separator(c)
  {
    EndingIsInName(path, start);
    LowerTail(path, start);
    LowerTail(path, |path| - 4);
    NoSeparators(path[start..]);
  }

  lemma {:induction false} EndingIsInName(path: string, start: nat)
    requires 4 <= |path| && Lower(path[|path| - 4..]) == ".dll" && start == LastStart(path, |path|)
    ensures start <= |path| - 4
  {
    var n := |path|;
    var last := path[n - 4..];
    assert forall i :: 0 <= i < 4 ==> LowerChar(last[i]) == Lower(last)[i];
    assert forall i :: n - 4 <= i < n ==> path[i] == last[i - (n - 4)];
    assert forall i :: n - 4 <= i < n ==> !Separator(path[i]);
  }

  lemma {:induction false} LowerTail(s: string, i: nat)
    requires i <= |s|
    ensures Lower(s[i..]) == Lower(s)[i..]
  {
  }

  lemma {:induction false} NoSeparators(s: string)
    requires forall i :: 0 <= i < |s| ==> !Separator(s[i])
    ensures forall c :: c in Lower(s) ==> !Separator(c)
  {
    forall i | 0 <= i < |s| ensures !Separator(Lower(s)[i]) { assert !Separator(s[i]); }
  }

  method ReadModuleName(path: string) returns (name: Option<Name>)
    ensures name == ModuleName(path)
  {
    var n := |path|;
    if n < 4 {
      return None;
    }
    var dot := ".dll";
    for i := 0 to 4
      invariant forall k :: 0 <= k < i ==> LowerChar(path[n - 4 + k]) == dot[k]
    {
      if LowerChar(path[n - 4 + i]) != dot[i] {
        assert Lower(path[n - 4..])[i] != dot[i];
        return None;
      }
    }
    assert Lower(path[n - 4..]) == dot;
    var start := n;
    while start > 0 && !Separator(path[start - 1])
      invariant 0 <= start <= n && LastStart(path, start) == LastStart(path, n)
    {
      start := start - 1;
    }
    if n - start == 0 || n - start + 1 > NAME_MAX {
      return None;
    }
    var out := "";
    for i := 0 to n - start
      invariant |out| == i && forall k :: 0 <= k < i ==> out[k] == LowerChar(path[start + k])
    {
      out := out + [LowerChar(path[start + i])];
    }
    assert out == Lower(path[start..]);
    return Some(out);
  }

  // ----- Sets of names -----

  ghost function NameSet(s: seq<Name>): set<Name> {
    set n | n in s
  }

  ghost predicate AllDifferent(s: seq<Name>) {
    forall i, j :: 0 <= i < j < |s| ==> s[i] != s[j]
  }

  lemma {:induction false} DifferentCount(s: seq<Name>)
    requires AllDifferent(s)
    ensures |NameSet(s)| == |s|
    decreases |s|
  {
    if s == [] {
      assert NameSet(s) == {};
    } else {
      var t, n := s[..|s| - 1], s[|s| - 1];
      DifferentCount(t);
      assert NameSet(s) == NameSet(t) + {n};
      assert n !in NameSet(t);
    }
  }

  lemma {:induction false} SubsetCount(a: set<Name>, b: set<Name>)
    requires a <= b
    ensures |a| <= |b| && (|a| == |b| ==> a == b)
  {
    assert b == a + (b - a);
    assert |b| == |a| + |b - a|;
    if |a| == |b| { assert b - a == {}; }
  }

  // ----- The table of opened modules -----

  class Session {
    const names: array<Name>
    var count: nat
    /** Every name any process has opened. */
    ghost var known: set<Name>

    ghost predicate Valid()
      reads this, names
    {
      && names.Length == RESOLVED_SLOTS && count <= RESOLVED_SLOTS
      && AllDifferent(names[..count]) && NameSet(names[..count]) <= known
      && (count < RESOLVED_SLOTS ==> NameSet(names[..count]) == known)
    }

    /** As long as the table is large enough, it holds exactly what was opened. */
    lemma {:induction false} Holds(name: Name)
      requires Valid() && |known| <= RESOLVED_SLOTS
      ensures name in names[..count] <==> name in known
    {
      DifferentCount(names[..count]);
      SubsetCount(NameSet(names[..count]), known);
      assert name in names[..count] <==> name in NameSet(names[..count]);
    }

    constructor ()
      ensures Valid() && known == {} && fresh(names)
    {
      names := new Name[RESOLVED_SLOTS](_ => "");
      count := 0;
      known := {};
      new;
      assert NameSet(names[..0]) == {};
    }

    method NoteResolved(name: Name)
      requires Valid()
      modifies this`count, this`known, names
      ensures Valid() && known == old(known) + {name}
    {
      for i := 0 to count
        invariant name !in names[..i]
      {
        if names[i] == name {
          assert name in NameSet(names[..count]);
          known := known + {name};
          assert known == old(known);
          return;
        }
        assert names[..i + 1] == names[..i] + [names[i]];
      }
      known := known + {name};
      if count >= RESOLVED_SLOTS {
        return;
      }
      ghost var before := names[..count];
      names[count] := name;
      count := count + 1;
      assert names[..count] == before + [name];
      assert NameSet(names[..count]) == NameSet(before) + {name};
    }

    method WasResolved(name: Name) returns (found: bool)
      requires Valid()
      ensures found == (name in names[..count])
    {
      for i := 0 to count
        invariant name !in names[..i]
      {
        if names[i] == name {
          return true;
        }
        assert names[..i + 1] == names[..i] + [names[i]];
      }
      return false;
    }
  }

  // ----- One process's slots against its history -----

  /** Sequence 0 means never used; otherwise the slot was last probed as that
      entry of the history. */
  datatype Slot = Slot(name: Name, resolved: bool, sequence: nat)

  /** A used slot stands for the last probe of its name. */
  ghost predicate SlotOk(s: Slot, log: seq<Name>, known: set<Name>) {
    0 < s.sequence ==>
      && s.sequence <= |log| && log[s.sequence - 1] == s.name
      && (forall k :: s.sequence <= k < |log| ==> log[k] != s.name)
      && (s.resolved ==> s.name in known)
  }

  ghost predicate SlotsOk(slots: seq<Slot>, log: seq<Name>, known: set<Name>) {
    && (forall i :: 0 <= i < |slots| ==> SlotOk(slots[i], log, known))
    && (forall i, j :: 0 <= i < j < |slots| && 0 < slots[i].sequence && 0 < slots[j].sequence ==>
          slots[i].name != slots[j].name)
  }

  ghost predicate HasSlot(slots: seq<Slot>, name: Name) {
    exists i :: 0 <= i < |slots| && 0 < slots[i].sequence && slots[i].name == name
  }

  /** Every probed name that nobody has opened has a slot. */
  ghost predicate Covers(slots: seq<Slot>, log: seq<Name>, known: set<Name>) {
    forall n :: n in log && n !in known ==> HasSlot(slots, n)
  }

  ghost function LiveMisses(log: seq<Name>, known: set<Name>): set<Name> {
    set n | n in log && n !in known
  }

  /** The most recently probed name nobody has opened. */
  ghost function MostRecentMiss(log: seq<Name>, known: set<Name>): Option<Name> {
    if log == [] then None
    else if log[|log| - 1] !in known then Some(log[|log| - 1])
    else MostRecentMiss(log[..|log| - 1], known)
  }

  lemma {:induction false} MissAt(log: seq<Name>, known: set<Name>) returns (k: int)
    ensures -1 <= k < |log| && (forall j :: k < j < |log| ==> log[j] in known)
    ensures if k < 0 then MostRecentMiss(log, known) == None
            else log[k] !in known && MostRecentMiss(log, known) == Some(log[k])
  {
    if log == [] {
      k := -1;
    } else if log[|log| - 1] !in known {
      k := |log| - 1;
    } else {
      k := MissAt(log[..|log| - 1], known);
    }
  }

  /** What others open meanwhile does no harm. */
  lemma {:induction false} OthersMayOpen(slots: seq<Slot>, log: seq<Name>, known: set<Name>, more: set<Name>)
    requires SlotsOk(slots, log, known) && known <= more
    ensures SlotsOk(slots, log, more)
    ensures Covers(slots, log, known) ==> Covers(slots, log, more)
  {
    forall i | 0 <= i < |slots| ensures SlotOk(slots[i], log, more) {
      assert SlotOk(slots[i], log, known);
    }
  }

  /** The live slot with the highest sequence names the most recent miss. */
  lemma {:induction false} NewestIsMostRecent(slots: seq<Slot>, log: seq<Name>, known: set<Name>, newest: int)
    requires SlotsOk(slots, log, known) && Covers(slots, log, known)
    requires -1 <= newest < |slots|
    requires forall i :: 0 <= i < |slots| && 0 < slots[i].sequence && slots[i].name !in known ==>
      0 <= newest && slots[i].sequence <= slots[newest].sequence
    requires 0 <= newest ==> 0 < slots[newest].sequence && slots[newest].name !in known
    ensures MostRecentMiss(log, known) == if newest < 0 then None else Some(slots[newest].name)
  {
    var k := MissAt(log, known);
    if 0 <= newest {
      assert SlotOk(slots[newest], log, known);
      assert slots[newest].sequence - 1 <= k;
    }
    if 0 <= k {
      assert log[k] in log;
      var i :| 0 <= i < |slots| && 0 < slots[i].sequence && slots[i].name == log[k];
      assert SlotOk(slots[i], log, known);
    }
  }

  /** A probe of a name that has slot `i`. */
  lemma {:induction false} Reprobed(slots: seq<Slot>, log: seq<Name>, known: set<Name>, i: nat, ok: bool)
    requires SlotsOk(slots, log, known) && i < |slots| && 0 < slots[i].sequence
    ensures var s, name := slots[i], slots[i].name;
      var slots' := slots[i := Slot(name, s.resolved || ok, |log| + 1)];
      var known' := if ok then known + {name} else known;
      && SlotsOk(slots', log + [name], known')
      && (Covers(slots, log, known) ==> Covers(slots', log + [name], known'))
  {
    var s, name := slots[i], slots[i].name;
    var slots' := slots[i := Slot(name, s.resolved || ok, |log| + 1)];
    var known', log' := if ok then known + {name} else known, log + [name];
    assert SlotOk(s, log, known);
    forall j | 0 <= j < |slots| ensures SlotOk(slots'[j], log', known') {
      assert SlotOk(slots[j], log, known);
    }
    if Covers(slots, log, known) {
      forall n | n in log' && n !in known' ensures HasSlot(slots', n) {
        if n == name {
          assert slots'[i].name == n;
        } else {
          assert n in log;
          var j :| 0 <= j < |slots| && 0 < slots[j].sequence && slots[j].name == n;
          assert slots'[j] == slots[j];
        }
      }
    }
  }

  /** A probe of a name without a slot, which takes over slot `v`. */
  lemma {:induction false} TakenOver(slots: seq<Slot>, log: seq<Name>, known: set<Name>, v: nat, name: Name, ok: bool)
    requires SlotsOk(slots, log, known) && v < |slots| && !HasSlot(slots, name)
    ensures var slots' := slots[v := Slot(name, ok, |log| + 1)];
      var known' := if ok then known + {name} else known;
      && SlotsOk(slots', log + [name], known')
      && (Covers(slots, log, known) && (slots[v].sequence == 0 || slots[v].name in known) ==>
            Covers(slots', log + [name], known'))
  {
    var slots' := slots[v := Slot(name, ok, |log| + 1)];
    var known', log' := if ok then known + {name} else known, log + [name];
    forall j | 0 <= j < |slots| ensures SlotOk(slots'[j], log', known') {
      assert SlotOk(slots[j], log, known);
    }
    if Covers(slots, log, known) && (slots[v].sequence == 0 || slots[v].name in known) {
      forall n | n in log' && n !in known' ensures HasSlot(slots', n) {
        if n == name {
          assert slots'[v].name == n;
        } else {
          assert n in log;
          var j :| 0 <= j < |slots| && 0 < slots[j].sequence && slots[j].name == n;
          assert slots'[j] == slots[j];
        }
      }
    }
  }

  /** When every slot holds a live miss, there are as many live misses as slots. */
  lemma {:induction false} AllSlotsLive(slots: seq<Slot>, log: seq<Name>, known: set<Name>)
    requires SlotsOk(slots, log, known)
    requires forall i :: 0 <= i < |slots| ==> 0 < slots[i].sequence && slots[i].name !in known
    ensures |slots| <= |LiveMisses(log, known)|
  {
    var names := seq(|slots|, i requires 0 <= i < |slots| => slots[i].name);
    DifferentCount(names);
    forall n | n in NameSet(names) ensures n in LiveMisses(log, known) {
      var i :| 0 <= i < |names| && names[i] == n;
      assert SlotOk(slots[i], log, known);
    }
    SubsetCount(NameSet(names), LiveMisses(log, known));
  }

  // ----- The per-process trace -----

  class Trace {
    const session: Session
    const slots: array<Slot>
    var sequenceCounter: nat

    /** The names this process has probed, in order. */
    ghost var log: seq<Name>
    /** Whether every live miss has kept a slot so far. */
    ghost var complete: bool

    ghost predicate Valid()
      reads this, slots, session, session.names
    {
      session.Valid() && Ok()
    }

    ghost predicate Ok()
      reads this, slots, session
    {
      Ready(session.known)
    }

    constructor (session: Session)
      requires session.Valid()
      ensures Valid() && this.session == session && log == [] && complete && fresh(slots)
    {
      this.session := session;
      slots := new Slot[MODULE_SLOTS](_ => Slot("", false, 0));
      sequenceCounter, log, complete := 0, [], true;
    }

    method FindSlot(name: Name) returns (found: int)
      requires slots.Length == MODULE_SLOTS
      ensures -1 <= found < MODULE_SLOTS
      ensures found < 0 ==> !HasSlot(slots[..], name)
      ensures 0 <= found ==> 0 < slots[found].sequence && slots[found].name == name
    {
      for i := 0 to MODULE_SLOTS
        invariant forall k :: 0 <= k < i ==> !(0 < slots[k].sequence && slots[k].name == name)
      {
        if slots[i].sequence != 0 && slots[i].name == name {
          return i;
        }
      }
      return -1;
    }

    /** A slot the table can give up: never used, or its module was found. */
    ghost predicate Spare(s: Slot)
      reads session, session.names
      requires session.count <= session.names.Length
    {
      s.sequence == 0 || s.resolved || s.name in session.names[..session.count]
    }

    /** The slot to reuse: the oldest spare one, or, only when none is spare, the
        oldest of all. */
    method FindVictim() returns (victim: int)
      requires Valid()
      ensures 0 <= victim < MODULE_SLOTS
      ensures Spare(slots[victim]) <==> exists i :: 0 <= i < MODULE_SLOTS && Spare(slots[i])
      ensures forall i :: 0 <= i < MODULE_SLOTS && (Spare(slots[i]) <==> Spare(slots[victim])) ==>
        slots[victim].sequence <= slots[i].sequence
    {
      victim := 0;
      var victimResolved := false;
      for i := 0 to MODULE_SLOTS
        invariant 0 <= victim < MODULE_SLOTS && (i == 0 ==> victim == 0 && !victimResolved)
        invariant 0 < i ==> victim < i && (victimResolved <==> Spare(slots[victim]))
        invariant victimResolved <==> exists k :: 0 <= k < i && Spare(slots[k])
        invariant forall k :: 0 <= k < i && (Spare(slots[k]) <==> victimResolved) ==>
          slots[victim].sequence <= slots[k].sequence
      {
        var candidateResolved := slots[i].sequence == 0 || slots[i].resolved;
        if !candidateResolved {
          candidateResolved := session.WasResolved(slots[i].name);
        }
        if candidateResolved != victimResolved {
          if candidateResolved {
            victim := i;
            victimResolved := true;
          }
          continue;
        }
        if slots[i].sequence < slots[victim].sequence {
          victim := i;
        }
      }
    }

    /** A live miss goes only when there are as many of them as slots. */
    lemma {:induction false} VictimIsNoMiss(victim: int)
      requires Valid() && 0 <= victim < MODULE_SLOTS
      requires Spare(slots[victim]) <==> exists i :: 0 <= i < MODULE_SLOTS && Spare(slots[i])
      requires |session.known| <= RESOLVED_SLOTS && |LiveMisses(log, session.known)| < MODULE_SLOTS
      ensures slots[victim].sequence == 0 || slots[victim].name in session.known
    {
      assert SlotOk(slots[..][victim], log, session.known);
      if Spare(slots[victim]) {
        session.Holds(slots[victim].name);
      } else {
        forall i | 0 <= i < MODULE_SLOTS ensures 0 < slots[i].sequence && slots[i].name !in session.known {
          session.Holds(slots[i].name);
          assert !Spare(slots[i]);
        }
        AllSlotsLive(slots[..], log, session.known);
        assert false;
      }
    }

    /** The table agrees with the history once `known` is what has been opened. */
    ghost predicate Ready(known: set<Name>)
      reads this, slots
    {
      && slots.Length == MODULE_SLOTS && sequenceCounter == |log|
      && SlotsOk(slots[..], log, known)
      && (complete ==> Covers(slots[..], log, known))
    }

    /** Makes slot `found` the newest. */
    method Stamp(found: nat, name: Name, ok: bool)
      requires slots.Length == MODULE_SLOTS && found < MODULE_SLOTS && slots[found].name == name
      modifies this`sequenceCounter, slots
      ensures sequenceCounter == old(sequenceCounter) + 1
      ensures slots[..] == old(slots[..])[found := Slot(name, old(slots[found].resolved) || ok, sequenceCounter)]
    {
      sequenceCounter := sequenceCounter + 1;
      slots[found] := slots[found].(sequence := sequenceCounter);
      if ok {
        slots[found] := slots[found].(resolved := true);
      }
    }

    /** Gives the victim's slot to a name that has none. */
    method Claim(name: Name) returns (found: nat)
      requires Valid()
      modifies this`complete, slots
      ensures found < MODULE_SLOTS && slots[..] == old(slots[..])[found := Slot(name, false, old(slots[found].sequence))]
      ensures complete == (old(complete) && (old(slots[found].sequence) == 0 || old(slots[found].name) in session.known))
      ensures (old(complete) && |session.known| <= RESOLVED_SLOTS && |LiveMisses(log, session.known)| < MODULE_SLOTS)
        ==> complete
    {
      found := FindVictim();
      if |session.known| <= RESOLVED_SLOTS && |LiveMisses(log, session.known)| < MODULE_SLOTS { VictimIsNoMiss(found); }
      complete := complete && (slots[found].sequence == 0 || slots[found].name in session.known);
      slots[found] := Slot(name, false, slots[found].sequence);
    }

    /** Gives the probed name the next sequence number, in its own slot or in the
        victim's. */
    method Touch(name: Name, ok: bool)
      requires Valid()
      modifies this`sequenceCounter, this`log, this`complete, slots
      ensures Ready(if ok then session.known + {name} else session.known)
      ensures log == old(log) + [name]
      ensures (old(complete) && |session.known| <= RESOLVED_SLOTS
        && |LiveMisses(old(log), session.known)| < MODULE_SLOTS) ==> complete
    {
      var found := FindSlot(name);
      if 0 <= found {
        Reprobe(found, name, ok);
      } else {
        TakeSlot(name, ok);
      }
    }

    /** A probe of the name in slot `found`. */
    method Reprobe(found: nat, name: Name, ok: bool)
      requires Valid() && found < MODULE_SLOTS && 0 < slots[found].sequence && slots[found].name == name
      modifies this`sequenceCounter, this`log, slots
      ensures Ready(if ok then session.known + {name} else session.known) && log == old(log) + [name]
    {
      ghost var before := slots[..];
      Reprobed(before, log, session.known, found, ok);
      Stamp(found, name, ok);
      log := log + [name];
      assert slots[..] == before[found := Slot(name, before[found].resolved || ok, |log|)];
    }

    /** A probe of a name that has no slot. */
    method TakeSlot(name: Name, ok: bool)
      requires Valid() && !HasSlot(slots[..], name)
      modifies this`sequenceCounter, this`log, this`complete, slots
      ensures Ready(if ok then session.known + {name} else session.known) && log == old(log) + [name]
      ensures (old(complete) && |session.known| <= RESOLVED_SLOTS
        && |LiveMisses(old(log), session.known)| < MODULE_SLOTS) ==> complete
    {
      ghost var before := slots[..];
      var found := Claim(name);
      TakenOver(before, log, session.known, found, name, ok);
      Stamp(found, name, ok);
      log := log + [name];
      assert slots[..] == before[found := Slot(name, ok, |log|)];
    }

    /** Notes the outcome of one probe; a result below zero is a miss. */
    method NoteResult(path: string, result: int, ghost others: set<Trace>)
      requires Valid()
      requires forall t :: t in others ==> t != this && t.slots != slots && t.session == session && t.Ok()
      modifies this`sequenceCounter, this`log, this`complete, slots, session, session.names
      ensures Valid() && forall t :: t in others ==> t.Ok()
      ensures ModuleName(path) == None ==>
        log == old(log) && session.known == old(session.known) && complete == old(complete)
      ensures ModuleName(path).Some? ==>
        var name := ModuleName(path).value;
        && log == old(log) + [name]
        && session.known == old(session.known) + (if 0 <= result then {name} else {})
      ensures (old(complete) && |old(session.known)| <= RESOLVED_SLOTS
        && |LiveMisses(old(log), old(session.known))| < MODULE_SLOTS) ==> complete
    {
      var entry := ReadModuleName(path);
      if entry == None {
        return;
      }
      ghost var known := session.known;
      Touch(entry.value, 0 <= result);
      if 0 <= result {
        session.NoteResolved(entry.value);
      }
      assert session.known == known + (if 0 <= result then {entry.value} else {});
      forall t | t in others ensures t.Ok() {
        OthersMayOpen(t.slots[..], t.log, known, session.known);
      }
    }

    /** The module searched for most recently that no process has opened, cut to
        the caller's buffer; empty when there is none. */
    method LastUnresolvedModule(capacity: nat) returns (out: string)
      requires Valid()
      ensures capacity == 0 ==> out == ""
      ensures 0 < capacity && complete && |session.known| <= RESOLVED_SLOTS ==>
        out == match MostRecentMiss(log, session.known)
               case None => ""
               case Some(name) => if |name| < capacity then name else name[..capacity - 1]
    {
      out := "";
      if capacity == 0 {
        return;
      }
      var newest := -1;
      for i := 0 to MODULE_SLOTS
        invariant -1 <= newest < i
        invariant forall k :: 0 <= k < i && !Spare(slots[k]) ==>
          0 <= newest && slots[k].sequence <= slots[newest].sequence
        invariant 0 <= newest ==> !Spare(slots[newest])
      {
        if slots[i].sequence == 0 || slots[i].resolved {
          continue;
        }
        var found := session.WasResolved(slots[i].name);
        if found {
          continue;
        }
        if newest < 0 || slots[i].sequence > slots[newest].sequence {
          newest := i;
        }
      }
      if complete && |session.known| <= RESOLVED_SLOTS {
        NewestFound(newest);
      }
      if newest < 0 {
        return;
      }
      var name := slots[newest].name;
      for i := 0 to |name|
        invariant i < capacity && out == name[..i]
      {
        if i + 1 >= capacity {
          return name[..capacity - 1];
        }
        out := out + [name[i]];
      }
      assert name[..|name|] == name;
    }

    lemma {:induction false} NewestFound(newest: int)
      requires Valid() && complete && |session.known| <= RESOLVED_SLOTS && -1 <= newest < MODULE_SLOTS
      requires forall k :: 0 <= k < MODULE_SLOTS && !Spare(slots[k]) ==>
        0 <= newest && slots[k].sequence <= slots[newest].sequence
      requires 0 <= newest ==> !Spare(slots[newest])
      ensures MostRecentMiss(log, session.known) == if newest < 0 then None else Some(slots[newest].name)
    {
      forall i | 0 <= i < MODULE_SLOTS
        ensures Spare(slots[i]) <==> !(0 < slots[i].sequence && slots[i].name !in session.known)
      {
        assert SlotOk(slots[..][i], log, session.known);
        session.Holds(slots[i].name);
      }
      NewestIsMostRecent(slots[..], log, session.known, newest);
    }
  }

  // ----- Whole runs -----

  /** Process `process` probes a path; a result below zero is a miss. */
  datatype Probe = Probe(process: nat, path: string, result: int)

  /** The names process `p` has probed, in order. */
  ghost function Probed(run: seq<Probe>, p: nat): seq<Name> {
    if run == [] then []
    else
      var e, before := run[|run| - 1], Probed(run[..|run| - 1], p);
      if e.process == p && ModuleName(e.path).Some? then before + [ModuleName(e.path).value] else before
  }

  /** The names any process has opened. */
  ghost function Opened(run: seq<Probe>): set<Name> {
    if run == [] then {}
    else
      var e, before := run[|run| - 1], Opened(run[..|run| - 1]);
      if 0 <= e.result && ModuleName(e.path).Some? then before + {ModuleName(e.path).value} else before
  }

  lemma {:induction false} OpenedGrows(run: seq<Probe>, k: nat)
    requires k <= |run|
    ensures Opened(run[..k]) <= Opened(run)
  {
    if k < |run| {
      var before := run[..|run| - 1];
      assert before[..k] == run[..k];
      OpenedGrows(before, k);
    } else {
      assert run[..k] == run;
    }
  }

  /** At most as many names are opened as the shared table holds, and before each of its
      probes the process has fewer live misses than slots. */
  ghost predicate Fits(run: seq<Probe>, p: nat) {
    && |Opened(run)| <= RESOLVED_SLOTS
    && forall k :: 0 <= k < |run| && run[k].process == p ==> FewMisses(run, p, k)
  }

  ghost predicate FewMisses(run: seq<Probe>, p: nat, k: nat)
    requires k <= |run|
  {
    |LiveMisses(Probed(run[..k], p), Opened(run[..k]))| < MODULE_SLOTS
  }

  ghost predicate Apart(traces: seq<Trace>) {
    forall i, j :: 0 <= i < j < |traces| ==> traces[i] != traces[j] && traces[i].slots != traces[j].slots
  }

  ghost predicate Sharing(session: Session, traces: seq<Trace>)
    reads session, session.names, set t | t in traces, set t | t in traces :: t.slots
  {
    && session.Valid() && Apart(traces)
    && forall i :: 0 <= i < |traces| ==> traces[i].session == session && traces[i].Ok()
  }

  /** The tables agree with a run so far. */
  ghost predicate Agrees(session: Session, traces: seq<Trace>, run: seq<Probe>)
    reads session, session.names, set t | t in traces, set t | t in traces :: t.slots
  {
    && Sharing(session, traces) && session.known == Opened(run)
    && forall i :: 0 <= i < |traces| ==> Follows(traces[i].log, traces[i].complete, run, i)
  }

  /** The history of process `p`, complete if the run fits the tables. */
  ghost predicate Follows(log: seq<Name>, complete: bool, run: seq<Probe>, p: nat) {
    log == Probed(run, p) && (Fits(run, p) ==> complete)
  }

  /** A fit run has only fit beginnings. */
  lemma {:induction false} FitsBefore(run: seq<Probe>, p: nat)
    requires run != [] && Fits(run, p)
    ensures Fits(run[..|run| - 1], p)
  {
    var before := run[..|run| - 1];
    OpenedGrows(run, |before|);
    SubsetCount(Opened(before), Opened(run));
    forall k | 0 <= k < |before| && before[k].process == p ensures FewMisses(before, p, k) {
      assert FewMisses(run, p, k) && before[..k] == run[..k];
    }
  }

  method StartProcesses(n: nat) returns (session: Session, traces: seq<Trace>)
    ensures |traces| == n && Agrees(session, traces, [])
    ensures fresh(session) && fresh(session.names) && forall t :: t in traces ==> fresh(t) && fresh(t.slots)
  {
    session := new Session();
    traces := [];
    for i := 0 to n
      invariant |traces| == i && Agrees(session, traces, [])
      invariant fresh(session) && fresh(session.names) && forall t :: t in traces ==> fresh(t) && fresh(t.slots)
    {
      var t := new Trace(session);
      traces := traces + [t];
    }
  }

  /** After any interleaved run of any number of processes, each is told the module it
      searched for most recently that none of them has opened, as long as the run fits
      the tables. */
  method Diagnose(n: nat, run: seq<Probe>, p: nat, capacity: nat) returns (out: string)
    requires p < n && forall e :: e in run ==> e.process < n
    requires 0 < capacity && Fits(run, p)
    ensures out == match MostRecentMiss(Probed(run, p), Opened(run))
                   case None => ""
                   case Some(name) => if |name| < capacity then name else name[..capacity - 1]
  {
    var session, traces := StartProcesses(n);
    for k := 0 to |run|
      invariant Agrees(session, traces, run[..k]) && |traces| == n
      invariant fresh(session) && fresh(session.names) && forall t :: t in traces ==> fresh(t) && fresh(t.slots)
    {
      assert run[k] in run;
      Step(session, traces, run[..k], run[k]);
      assert run[..k] + [run[k]] == run[..k + 1];
    }
    assert run[..|run|] == run;
    out := traces[p].LastUnresolvedModule(capacity);
  }

  method Step(session: Session, traces: seq<Trace>, ghost before: seq<Probe>, e: Probe)
    requires Agrees(session, traces, before) && e.process < |traces|
    modifies session, session.names, traces[e.process], traces[e.process].slots
    ensures Agrees(session, traces, before + [e])
  {
    ghost var run, trace := before + [e], traces[e.process];
    ghost var complete, others := trace.complete, Others(traces, e.process);
    OthersReady(session, traces, e.process);
    traces[e.process].NoteResult(e.path, e.result, others);
    OneMoreOpened(before, e);
    forall i | 0 <= i < |traces|
      ensures traces[i].session == session && traces[i].Ok() && Follows(traces[i].log, traces[i].complete, run, i)
    {
      if i == e.process {
        OneMoreProbe(before, e, i, complete, trace.complete);
      } else {
        assert traces[i] in others;
        OneMoreProbe(before, e, i, traces[i].complete, traces[i].complete);
      }
    }
  }

  ghost function Others(traces: seq<Trace>, p: nat): set<Trace>
    requires p < |traces|
  {
    set t | t in traces && t != traces[p]
  }

  lemma {:induction false} OthersReady(session: Session, traces: seq<Trace>, p: nat)
    requires Sharing(session, traces) && p < |traces|
    ensures forall t :: t in Others(traces, p) ==>
      t != traces[p] && t.slots != traces[p].slots && t.session == session && t.Ok()
  {
    forall t | t in Others(traces, p)
      ensures t != traces[p] && t.slots != traces[p].slots && t.session == session && t.Ok()
    {
      var i :| 0 <= i < |traces| && traces[i] == t;
      assert i < p || p < i;
    }
  }

  lemma {:induction false} OneMoreOpened(before: seq<Probe>, e: Probe)
    ensures Opened(before + [e])
      == Opened(before) + (if 0 <= e.result && ModuleName(e.path).Some? then {ModuleName(e.path).value} else {})
  {
    assert (before + [e])[..|before|] == before;
  }

  ghost predicate FitNow(log: seq<Name>, known: set<Name>) {
    |known| <= RESOLVED_SLOTS && |LiveMisses(log, known)| < MODULE_SLOTS
  }

  /** A trace keeps following the run, and stays complete as long as the run fits. */
  lemma {:induction false} OneMoreProbe(before: seq<Probe>, e: Probe, p: nat, complete: bool, complete': bool)
    requires Fits(before, p) ==> complete
    requires complete && (e.process == p ==> FitNow(Probed(before, p), Opened(before))) ==> complete'
    ensures var log := Probed(before, p);
      var log' := if e.process == p && ModuleName(e.path).Some? then log + [ModuleName(e.path).value] else log;
      Follows(log', complete', before + [e], p)
  {
    var run := before + [e];
    assert run[..|before|] == before;
    if Fits(run, p) {
      FitsBefore(run, p);
      OpenedGrows(run, |before|);
      SubsetCount(Opened(before), Opened(run));
      if e.process == p { assert FewMisses(run, p, |before|) && before[..|before|] == run[..|before|]; }
    }
  }
}
