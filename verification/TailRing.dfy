/** The last syscalls of a process: a ring of 96 records that must show exactly
    the end of an unbounded log. */
module TailRing {
  const CAPACITY := 96

  datatype State = Unused | Pending | Completed | Restarted

  /** How a call can end. */
  type Ending = s: State | s == Completed || s == Restarted witness Completed

  datatype Call = Call(process: nat, thread: nat, number: nat, rip: nat, arguments: seq<nat>)

  datatype Record = Record(sequence: nat, call: Call, result: int, state: State)

  const EMPTY := Record(0, Call(0, 0, 0, 0, [0, 0, 0, 0, 0, 0]), 0, Unused)

  // ----- The unbounded log -----

  datatype Event = Begin(call: Call) | Close(token: nat, result: int, state: Ending)

  /** What an event does to a log that never forgets. */
  function Happen(log: seq<Record>, e: Event): (r: seq<Record>)
    ensures |log| <= |r|
  {
    match e
    case Begin(call) => log + [Record(|log| + 1, call, 0, Pending)]
    case Close(token, result, state) =>
      if 1 <= token <= |log| then log[token - 1 := log[token - 1].(result := result, state := state)] else log
  }

  function Log(events: seq<Event>): seq<Record> {
    if events == [] then [] else Happen(Log(events[..|events| - 1]), events[|events| - 1])
  }

  ghost predicate Numbered(log: seq<Record>) {
    forall k :: 0 <= k < |log| ==> log[k].sequence == k + 1 && log[k].state != Unused
  }

  lemma {:induction false} LogIsNumbered(events: seq<Event>)
    ensures Numbered(Log(events))
  {
    if events != [] { LogIsNumbered(events[..|events| - 1]); }
  }

  /** The last close of a token among the events after it was opened. */
  function LastClose(events: seq<Event>, token: nat): (k: int)
    ensures -1 <= k < |events|
    ensures 0 <= k ==> events[k].Close? && events[k].token == token && token <= |Log(events[..k])|
    ensures forall j :: k < j < |events| && events[j].Close? && events[j].token == token ==> |Log(events[..j])| < token
  {
    if events == [] then -1
    else
      var n := |events| - 1;
      var e := events[n];
      if e.Close? && e.token == token && token <= |Log(events[..n])| then n
      else
        var k := LastClose(events[..n], token);
        assert forall j :: 0 <= j < n ==> events[..n][..j] == events[..j];
        k
  }

  /** A call reads as pending exactly until its token is closed, and afterwards
      as its latest close left it. */
  lemma {:induction false} EntryIsLastClose(events: seq<Event>, token: nat)
    requires 1 <= token <= |Log(events)|
    ensures var k, entry := LastClose(events, token), Log(events)[token - 1];
      if k < 0 then entry.state == Pending && entry.result == 0
      else entry.state == events[k].state && entry.result == events[k].result
  {
    var n := |events| - 1;
    var before := Log(events[..n]);
    if token <= |before| {
      EntryIsLastClose(events[..n], token);
    } else if events[n].Begin? {
      var k := LastClose(events, token);
      if 0 <= k < n { Grows(events[..n], k); }
    }
  }

  lemma {:induction false} Grows(events: seq<Event>, k: nat)
    requires k <= |events|
    ensures |Log(events[..k])| <= |Log(events)|
  {
    if k == |events| {
      assert events[..k] == events;
    } else {
      Grows(events[..|events| - 1], k);
      assert events[..|events| - 1][..k] == events[..k];
    }
  }

  /** The calls that were begun, in order. */
  function Calls(events: seq<Event>): seq<Call> {
    if events == [] then []
    else
      var before, e := Calls(events[..|events| - 1]), events[|events| - 1];
      if e.Begin? then before + [e.call] else before
  }

  /** Entry k holds the k-th call begun, under its number. */
  lemma {:induction false} EntryIsCall(events: seq<Event>)
    ensures |Log(events)| == |Calls(events)|
    ensures forall k :: 0 <= k < |Log(events)| ==>
      Log(events)[k].call == Calls(events)[k] && Log(events)[k].sequence == k + 1
  {
    if events != [] { EntryIsCall(events[..|events| - 1]); }
  }

  // ----- Which entry a slot holds -----

  /** The newest of the first `n` entries that belongs in slot `s`, or -1. */
  function Occupant(s: nat, n: nat): (k: int)
    ensures -1 <= k < n && (0 <= k ==> k % CAPACITY == s)
  {
    if n == 0 then -1 else if (n - 1) % CAPACITY == s then n - 1 else Occupant(s, n - 1)
  }

  /** An entry keeps its slot for exactly 96 further entries. */
  lemma {:induction false} StaysFor(j: nat, n: nat)
    requires j < n
    ensures j <= Occupant(j % CAPACITY, n)
    ensures Occupant(j % CAPACITY, n) == j <==> n <= j + CAPACITY
  {
    if j < n - 1 {
      SameSlot(j, n - 1);
      if (n - 1) % CAPACITY != j % CAPACITY { StaysFor(j, n - 1); }
    }
  }

  lemma {:induction false} SameSlot(a: nat, b: nat)
    requires a < b
    ensures a % CAPACITY == b % CAPACITY ==> a + CAPACITY <= b
    ensures b == a + CAPACITY ==> a % CAPACITY == b % CAPACITY
  {
    var p, q := a / CAPACITY, b / CAPACITY;
    assert a == CAPACITY * p + a % CAPACITY && b == CAPACITY * q + b % CAPACITY;
  }

  ghost predicate Shows(s: Record, log: seq<Record>, i: nat) {
    var k := Occupant(i, |log|);
    s == if k < 0 then EMPTY else log[k]
  }

  class SyscallTailRing {
    const slots: array<Record>
    var sequence: nat
    var dumped: bool
    ghost var events: seq<Event>

    ghost predicate Valid()
      reads this, slots
    {
      && slots.Length == CAPACITY && sequence == |Log(events)|
      && forall i :: 0 <= i < CAPACITY ==> Shows(slots[i], Log(events), i)
    }

    constructor ()
      ensures Valid() && events == [] && !dumped && fresh(slots)
    {
      slots := new Record[CAPACITY](_ => EMPTY);
      sequence, dumped, events := 0, false, [];
    }

    /** No arguments reads as six zeroes. */
    method Begin(process: nat, thread: nat, number: nat, rip: nat, arguments: seq<nat>) returns (token: nat)
      requires Valid() && |arguments| in {0, 6}
      modifies this`sequence, this`events, slots
      ensures Valid() && token == sequence == old(sequence) + 1
      ensures events == old(events) + [Event.Begin(Call(process, thread, number, rip,
        if arguments == [] then [0, 0, 0, 0, 0, 0] else arguments))]
    {
      ghost var log := Log(events);
      sequence := sequence + 1;
      var copied := [];
      for index := 0 to 6
        invariant copied == if arguments == [] then seq(index, _ => 0) else arguments[..index]
      {
        copied := copied + [if arguments != [] then arguments[index] else 0];
      }
      assert copied == if arguments == [] then [0, 0, 0, 0, 0, 0] else arguments;
      var call := Call(process, thread, number, rip, copied);
      slots[(sequence - 1) % CAPACITY] := Record(sequence, call, 0, Pending);
      events := events + [Event.Begin(call)];
      assert events[..|events| - 1] == old(events);
      forall i | 0 <= i < CAPACITY ensures Shows(slots[i], Log(events), i) {
        assert Shows(old(slots[i]), log, i);
      }
      token := sequence;
    }

    method Complete(token: nat, result: int)
      requires Valid()
      modifies this`events, slots
      ensures Valid() && events == old(events) + [Close(token, result, Completed)]
      ensures token + CAPACITY <= sequence ==> slots[..] == old(slots[..])
    {
      CloseRecord(token, result, Completed);
    }

    method Restart(token: nat)
      requires Valid()
      modifies this`events, slots
      ensures Valid() && events == old(events) + [Close(token, 0, Restarted)]
      ensures token + CAPACITY <= sequence ==> slots[..] == old(slots[..])
    {
      CloseRecord(token, 0, Restarted);
    }

    /** Closes the record the token opened; when the ring has wrapped past it,
        no slot changes. */
    method CloseRecord(token: nat, result: int, state: Ending)
      requires Valid()
      modifies this`events, slots
      ensures Valid() && events == old(events) + [Close(token, result, state)]
      ensures token + CAPACITY <= sequence ==> slots[..] == old(slots[..])
    {
      ghost var log := Log(events);
      LogIsNumbered(events);
      events := events + [Close(token, result, state)];
      assert events[..|events| - 1] == old(events);
      if token == 0 || token > sequence {
        assert Log(events) == log;
        return;
      }
      StaysFor(token - 1, sequence);
      var i := (token - 1) % CAPACITY;
      assert Shows(slots[i], log, i);
      if slots[i].sequence == token {
        slots[i] := slots[i].(result := result, state := state);
      }
      forall s | 0 <= s < CAPACITY ensures Shows(slots[s], Log(events), s) {
        assert Shows(old(slots[s]), log, s);
      }
    }

    /** The records visited, oldest first: the end of the log, nothing skipped. */
    method ForEach() returns (visited: seq<Record>)
      requires Valid()
      ensures visited == Log(events)[if sequence > CAPACITY then sequence - CAPACITY else 0..]
    {
      ghost var log := Log(events);
      LogIsNumbered(events);
      var total := sequence;
      var first := if total > CAPACITY then total - CAPACITY else 0;
      visited := [];
      for k := first to total
        invariant visited == log[first..k]
      {
        StaysFor(k, total);
        var record := slots[k % CAPACITY];
        assert Shows(record, log, k % CAPACITY);
        if record.state == Unused || record.sequence != k + 1 {
          continue;
        }
        visited := visited + [record];
      }
    }

    method ClaimDump() returns (first: bool)
      modifies this`dumped
      ensures first == !old(dumped) && dumped
    {
      if dumped {
        return false;
      }
      dumped := true;
      return true;
    }
  }
}
