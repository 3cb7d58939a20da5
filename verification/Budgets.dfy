/** Two compare-and-swap budgets shared by threads: whatever the interleaving,
    the answers come out in one order. */
module Budgets {
  const SEARCHES := 1024
  const DIALOGS := 64

  /** The module-search budget counts down to zero; the dialog budget counts up
      past its limit. */
  datatype Kind = Countdown | CountUp

  datatype Answer = Print | Last | Quiet

  /** Trying holds the value the thread read last. */
  datatype Thread = Idle | Trying(read: nat)

  datatype State = State(counter: nat, threads: seq<Thread>, answers: seq<Answer>)

  function Initial(kind: Kind): nat {
    if kind == Countdown then SEARCHES else 0
  }

  /** The loop's guard. */
  predicate More(kind: Kind, read: nat) {
    if kind == Countdown then read != 0 else read <= DIALOGS
  }

  function Swapped(kind: Kind, read: nat): nat
    requires More(kind, read)
  {
    if kind == Countdown then read - 1 else read + 1
  }

  function Taken(kind: Kind, read: nat): Answer {
    if kind == Countdown then (if read == 1 then Last else Print)
    else if read < DIALOGS then Print else Last
  }

  /** The counter has held the value at some time: a relaxed load may return an
      old one. */
  predicate Held(kind: Kind, counter: nat, read: nat) {
    if kind == Countdown then counter <= read <= SEARCHES else read <= counter
  }

  // ----- The steps of one thread -----

  ghost predicate Load(kind: Kind, s: State, s': State, t: nat, read: nat) {
    && t < |s.threads| && s.threads[t] == Idle && Held(kind, s.counter, read)
    && s' == s.(threads := s.threads[t := Trying(read)])
  }

  ghost predicate Swap(kind: Kind, s: State, s': State, t: nat) {
    && t < |s.threads| && s.threads[t].Trying?
    && var read := s.threads[t].read;
      && More(kind, read) && s.counter == read
      && s' == State(Swapped(kind, read), s.threads[t := Idle], s.answers + [Taken(kind, read)])
  }

  /** The exchange fails, possibly without cause, and reads again. */
  ghost predicate Retry(kind: Kind, s: State, s': State, t: nat, read: nat) {
    && t < |s.threads| && s.threads[t].Trying? && More(kind, s.threads[t].read) && Held(kind, s.counter, read)
    && s' == s.(threads := s.threads[t := Trying(read)])
  }

  ghost predicate GiveUp(kind: Kind, s: State, s': State, t: nat) {
    && t < |s.threads| && s.threads[t].Trying? && !More(kind, s.threads[t].read)
    && s' == s.(threads := s.threads[t := Idle], answers := s.answers + [Quiet])
  }

  ghost predicate Step(kind: Kind, s: State, s': State) {
    exists t: nat, read: nat :: Moves(kind, s, s', t, read)
  }

  ghost predicate Moves(kind: Kind, s: State, s': State, t: nat, read: nat) {
    Load(kind, s, s', t, read) || Swap(kind, s, s', t) || Retry(kind, s, s', t, read) || GiveUp(kind, s, s', t)
  }

  ghost predicate Start(kind: Kind, s: State) {
    s.counter == Initial(kind) && s.answers == [] && forall t :: 0 <= t < |s.threads| ==> s.threads[t] == Idle
  }

  ghost predicate Run(kind: Kind, states: seq<State>) {
    && states != [] && Start(kind, states[0])
    && forall i :: 0 <= i < |states| - 1 ==> Step(kind, states[i], states[i + 1])
  }

  // ----- What every run answers -----

  /** How many answers that print something there are in all. */
  function Budget(kind: Kind): nat {
    if kind == Countdown then SEARCHES else DIALOGS + 1
  }

  function Spent(kind: Kind, counter: nat): int {
    if kind == Countdown then SEARCHES - counter else counter
  }

  /** Answer number `i`, counted from zero. */
  function Expected(kind: Kind, i: nat): Answer {
    if i < Budget(kind) - 1 then Print else if i == Budget(kind) - 1 then Last else Quiet
  }

  ghost predicate Good(kind: Kind, s: State) {
    var spent := Spent(kind, s.counter);
    && 0 <= spent <= Budget(kind)
    && (if spent < Budget(kind) then |s.answers| == spent else spent <= |s.answers|)
    && (forall i :: 0 <= i < |s.answers| ==> s.answers[i] == Expected(kind, i))
    && (forall t :: 0 <= t < |s.threads| && s.threads[t].Trying? ==> Held(kind, s.counter, s.threads[t].read))
  }

  lemma {:induction false} StepKeepsGood(kind: Kind, s: State, s': State)
    requires Good(kind, s) && Step(kind, s, s')
    ensures Good(kind, s')
  {
    var t: nat, read: nat :| Moves(kind, s, s', t, read);
    if !(Load(kind, s, s', t, read) || Retry(kind, s, s', t, read)) {
      assert s.threads[t].Trying? && Held(kind, s.counter, s.threads[t].read);
    }
  }

  /** In every interleaving the answers are Print until the budget's last, then
      Last once, then only Quiet. */
  lemma {:induction false} AnswersInOrder(kind: Kind, states: seq<State>, k: nat)
    requires Run(kind, states) && k < |states|
    ensures Good(kind, states[k])
    ensures forall i :: 0 <= i < |states[k].answers| ==> states[k].answers[i] == Expected(kind, i)
  {
    if k != 0 {
      AnswersInOrder(kind, states, k - 1);
      assert Step(kind, states[k - 1], states[k - 1 + 1]);
      StepKeepsGood(kind, states[k - 1], states[k]);
    }
  }

  /** From any state an idle thread left to run alone has its answer in two steps:
      nobody waits for anyone. */
  lemma {:induction false} NobodyBlocks(kind: Kind, s: State, t: nat) returns (mid: State, after: State)
    requires Good(kind, s) && t < |s.threads| && s.threads[t] == Idle
    ensures Step(kind, s, mid) && Step(kind, mid, after)
    ensures after.threads[t] == Idle && |after.answers| == |s.answers| + 1
  {
    mid := s.(threads := s.threads[t := Trying(s.counter)]);
    assert Load(kind, s, mid, t, s.counter);
    assert Moves(kind, s, mid, t, s.counter);
    after := if More(kind, s.counter)
      then State(Swapped(kind, s.counter), mid.threads[t := Idle], s.answers + [Taken(kind, s.counter)])
      else s.(threads := mid.threads[t := Idle], answers := s.answers + [Quiet]);
    assert Moves(kind, mid, after, t, 0);
  }
}
