/** Undoable edits of a text, and the bounded stacks that remember them. */
module Edits {
  /** The room of the undo store: records, and characters. */
  const STATES := 99
  const CHARS := 999

  /** To carry out the step: at `where`, take out `delete` characters and put in
      `restore`. */
  datatype Edit = Edit(where: nat, restore: string, delete: nat)

  /** The step keeps inside the text, or does nothing at all. */
  predicate InRange(text: string, e: Edit) {
    Nothing(e) || e.where + e.delete <= |text|
  }

  predicate Nothing(e: Edit) {
    e.delete == 0 && e.restore == []
  }

  function Apply(text: string, e: Edit): string
    requires InRange(text, e)
  {
    if Nothing(e) then text else text[..e.where] + e.restore + text[e.where + e.delete..]
  }

  /** What a step takes out. */
  function Taken(text: string, where: int, n: nat): string
    requires n == 0 || 0 <= where <= where + n <= |text|
  {
    if n == 0 then [] else text[where..where + n]
  }

  /** The step that takes back `e`. */
  function Inverse(text: string, e: Edit): Edit
    requires InRange(text, e)
  {
    Edit(e.where, Taken(text, e.where, e.delete), |e.restore|)
  }

  lemma {:induction false} InverseUndoes(text: string, e: Edit)
    requires InRange(text, e)
    ensures InRange(Apply(text, e), Inverse(text, e))
    ensures Apply(Apply(text, e), Inverse(text, e)) == text
    ensures Inverse(Apply(text, e), Inverse(text, e)) == e
  {
    if !Nothing(e) {
      var t := Apply(text, e);
      assert t[e.where..e.where + |e.restore|] == e.restore;
      assert t[..e.where] == text[..e.where];
      assert t[e.where + |e.restore|..] == text[e.where + e.delete..];
      assert text == text[..e.where] + text[e.where..e.where + e.delete] + text[e.where + e.delete..];
      assert text[e.where..e.where] == [];
    }
  }

  // ----- How much a stack stores -----

  function Size(es: seq<Edit>): nat {
    if es == [] then 0 else Size(es[..|es| - 1]) + |es[|es| - 1].restore|
  }

  lemma {:induction false} SizeConcat(a: seq<Edit>, b: seq<Edit>)
    ensures Size(a + b) == Size(a) + Size(b)
    decreases |b|
  {
    if b == [] {
      assert a + b == a;
    } else {
      SizeConcat(a, b[..|b| - 1]);
      assert (a + b)[..|a + b| - 1] == a + b[..|b| - 1];
    }
  }

  lemma {:induction false} SizeSplit(es: seq<Edit>, i: nat)
    requires i <= |es|
    ensures Size(es) == Size(es[..i]) + Size(es[i..])
  {
    SizeConcat(es[..i], es[i..]);
    assert es == es[..i] + es[i..];
  }

  lemma {:induction false} SizeOne(e: Edit)
    ensures Size([e]) == |e.restore|
  {
    assert [e][..0] == [];
  }

  // ----- Making room -----

  /** What is left of the undo stack once the oldest entries have gone to make
      room for a record of `n` characters. */
  function KeptFor(es: seq<Edit>, n: nat): (kept: seq<Edit>)
    requires n <= CHARS
    ensures |kept| <= |es|
    decreases |es|
  {
    if |es| < STATES && Size(es) + n <= CHARS then es
    else if es == [] then [] else KeptFor(es[1..], n)
  }

  ghost predicate Fitting(es: seq<Edit>, n: nat) {
    |es| < STATES && Size(es) + n <= CHARS
  }

  /** Nothing goes that could have stayed: it is the longest recent part that fits. */
  lemma {:induction false} KeptIsLongest(es: seq<Edit>, n: nat) returns (d: nat)
    requires n <= CHARS
    ensures d <= |es| && KeptFor(es, n) == es[d..] && Fitting(es[d..], n)
    ensures forall c :: 0 <= c < d ==> !Fitting(es[c..], n)
    decreases |es|
  {
    assert es[0..] == es;
    if Fitting(es, n) || es == [] {
      d := 0;
    } else {
      d := KeptIsLongest(es[1..], n);
      d := d + 1;
      assert es[1..][d - 1..] == es[d..];
      forall c | 0 <= c < d ensures !Fitting(es[c..], n) {
        if c > 0 { assert es[1..][c - 1..] == es[c..]; }
      }
    }
  }
}
