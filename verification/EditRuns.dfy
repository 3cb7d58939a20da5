/** Runs of edits, undos and redos on the text field: what they restore, and what a
    discard by one undo does to the undos and redos after it. */
module EditRuns {
  import opened Numbers
  import opened Edits
  import opened UndoStore
  import opened TextEditor

  /** From the top down each of `k` undos keeps all that redoing it needs: `low` and
      `high` are where the undo characters end and the redo characters begin. */
  predicate RoomBack(low: int, high: int, undo: seq<Edit>, k: nat)
    decreases k
  {
    k == 0 || (undo != [] &&
      var e := undo[|undo| - 1];
      && (e.delete == 0 || low + e.delete <= Min(high, CHARS - 1))
      && RoomBack(low - |e.restore|, high - e.delete, undo[..|undo| - 1], k - 1))
  }

  /** `k` undos, up to as many as there are texts remembered, and then `k` redos give
      back the text, both stacks and the pointers. */
  method UndoThenRedo(t: TextEdit, k: nat)
    requires t.Valid() && k <= |t.past| && RoomBack(t.store.undoCharPoint, t.store.redoCharPoint, t.store.undo, k)
    modifies t, t.store, t.store.rec, t.store.chars
    ensures Restored(old(t.View()), t.View())
    decreases k
  {
    if k > 0 {
      ghost var f := t.View();
      var step := t.Undo();
      ghost var f' := t.View();
      OneBack(f, f', step, k);
      RoomNext(f, f', step, k);
      UndoThenRedo(t, k - 1);
      ghost var g := t.View();
      step := t.Redo();
      OneForth(f, f', g, t.View(), step);
    }
  }

  /** Text, stacks, remembered texts and pointers are as they were, and both ways intact. */
  ghost predicate Restored(f: Field, g: Field) {
    && Sound(g) && HistoryOf(g) == HistoryOf(f) && g.past == f.past && g.future == f.future
    && g.store.point == f.store.point && g.store.pool.redoPoint == f.store.pool.redoPoint
    && g.store.pool.undoCharPoint == f.store.pool.undoCharPoint
    && g.store.pool.redoCharPoint == f.store.pool.redoCharPoint
  }

  lemma {:induction false} OneBack(f: Field, g: Field, step: Step, k: nat)
    requires Sound(f) && 0 < k <= |f.past| && WentBack(f, g, step)
    requires RoomBack(f.store.pool.undoCharPoint, f.store.pool.redoCharPoint, f.store.undo, k)
    ensures KeptBack(f, g, step) && g.past + [g.text] == f.past
  {
    RoomLess(f.store.pool.undoCharPoint, f.store.pool.redoCharPoint, f.store.undo, k);
    RoomKeeps(f);
    KeptBackIs(f, g, step);
  }

  lemma {:induction false} RoomNext(f: Field, g: Field, step: Step, k: nat)
    requires 0 < k && KeptBack(f, g, step)
    requires RoomBack(f.store.pool.undoCharPoint, f.store.pool.redoCharPoint, f.store.undo, k)
    ensures RoomBack(g.store.pool.undoCharPoint, g.store.pool.redoCharPoint, g.store.undo, k - 1)
  {
    RoomLess(f.store.pool.undoCharPoint, f.store.pool.redoCharPoint, f.store.undo, k);
  }

  lemma {:induction false} RoomKeeps(f: Field)
    requires f.store.undo != []
    requires var d := f.store.undo[|f.store.undo| - 1].delete;
      d == 0 || f.store.pool.undoCharPoint + d <= Min(f.store.pool.redoCharPoint, CHARS - 1)
    ensures Keeps(f)
  {
  }

  /** An undo that lost nothing. */
  ghost predicate KeptBack(f: Field, g: Field, step: Step) {
    && step == Done && Sound(g) && OneTextBack(f, g) && f.store.undo != [] && OneStepBack(f, g)
    && var n := |f.store.undo| - 1;
      && g.store.undo == f.store.undo[..n] && g.store.point == f.store.point - 1
      && g.store.pool.redoPoint == f.store.pool.redoPoint - 1
      && g.store.pool.undoCharPoint == f.store.pool.undoCharPoint - |f.store.undo[n].restore|
      && g.store.pool.redoCharPoint == f.store.pool.redoCharPoint - f.store.undo[n].delete
  }

  lemma {:induction false} KeptBackIs(f: Field, g: Field, step: Step)
    requires Sound(f) && f.past != [] && Keeps(f) && WentBack(f, g, step)
    ensures KeptBack(f, g, step)
  {
    SoundTakes(f.store, f.store.undo[|f.store.undo| - 1].delete);
    PointersBack(f, g);
  }

  lemma {:induction false} PointersBack(f: Field, g: Field)
    requires Sound(f) && Sound(g) && OneStepBack(f, g)
    ensures var e := f.store.undo[|f.store.undo| - 1];
      && g.store.pool.undoCharPoint == f.store.pool.undoCharPoint - |e.restore|
      && g.store.pool.redoCharPoint == f.store.pool.redoCharPoint - e.delete
  {
    PoppedSizes(f.store.undo, Inverse(f.text, f.store.undo[|f.store.undo| - 1]), f.store.redo);
  }

  lemma {:induction false} RoomLess(low: int, high: int, undo: seq<Edit>, k: nat)
    requires 0 < k && RoomBack(low, high, undo, k)
    ensures undo != []
    ensures var e := undo[|undo| - 1];
      && (e.delete == 0 || low + e.delete <= Min(high, CHARS - 1))
      && RoomBack(low - |e.restore|, high - e.delete, undo[..|undo| - 1], k - 1)
  {
  }

  lemma {:induction false} PoppedSizes(undo: seq<Edit>, i: Edit, redo: seq<Edit>)
    requires undo != []
    ensures Size(undo[..|undo| - 1]) == Size(undo) - |undo[|undo| - 1].restore|
    ensures Size([i] + redo) == |i.restore| + Size(redo)
  {
    var n := |undo| - 1;
    SizeSplit(undo, n);
    SizeOne(undo[n]);
    assert undo[n..] == [undo[n]];
    SizeConcat([i], redo);
    SizeOne(i);
  }

  lemma {:induction false} OneForth(f: Field, f': Field, g: Field, h: Field, step: Step)
    requires Sound(f) && HistoryOf(f).CanUndo() && HistoryOf(f') == HistoryOf(f).Undone() && Restored(f', g)
    requires f'.past + [f'.text] == f.past && f'.future == [f.text] + f.future && WentForward(g, h, step)
    ensures Restored(f, h)
  {
    RedoneAfterUndone(HistoryOf(f));
    assert g.future[1..] == f.future;
  }

  /** Replaces `n` characters, remembering all there was. */
  method Put(t: TextEdit, where: int, n: nat, s: string)
    requires t.Valid() && 0 <= where && where + n <= |t.text| && |t.store.undo| < STATES && Size(t.store.undo) + n <= CHARS
    modifies t`text, t`past, t`future, t.store, t.store.rec, t.store.chars
    ensures t.Valid() && t.text == Replaced(old(t.text), where, n, s) && t.store.redo == []
    ensures t.past == old(t.past) + [old(t.text)]
    ensures t.store.undo == old(t.store.undo) + [Edit(where, Taken(old(t.text), where, n), |s|)]
    ensures Size(t.store.undo) == old(Size(t.store.undo)) + n
  {
    ghost var f := t.View();
    t.Change(where, n, s);
    AllKept(f, t.View(), where, n, s);
  }

  lemma {:induction false} AllKept(f: Field, g: Field, where: int, n: nat, s: string)
    requires UndoTexts(f.text, f.store.undo, f.past) && 0 <= where && where + n <= |f.text|
    requires |f.store.undo| < STATES && Size(f.store.undo) + n <= CHARS
    requires g.past == Remembered(f.past, f.store.undo, f.text, n)
    requires g.store.undo == KeptFor(f.store.undo, n) + [Edit(where, f.text[where..where + n], |s|)]
    ensures g.past == f.past + [f.text]
    ensures g.store.undo == f.store.undo + [Edit(where, Taken(f.text, where, n), |s|)]
    ensures Size(g.store.undo) == Size(f.store.undo) + n
  {
    var e := Edit(where, f.text[where..where + n], |s|);
    TextsCount(f.text, f.store.undo, f.past);
    KeptAll(f.store.undo, n);
    AllRemembered(f.past, f.store.undo, f.text, n);
    SizeConcat(f.store.undo, [e]);
    SizeOne(e);
  }

  lemma {:induction false} AllRemembered(past: seq<string>, undo: seq<Edit>, text: string, n: nat)
    requires n <= CHARS && |past| <= |undo| && KeptFor(undo, n) == undo
    ensures Remembered(past, undo, text, n) == past + [text]
  {
  }

  lemma {:induction false} KeptAll(es: seq<Edit>, n: nat)
    requires |es| < STATES && Size(es) + n <= CHARS
    ensures KeptFor(es, n) == es
  {
  }

  method PutBehind(t: TextEdit, s: string)
    requires t.Valid() && |t.store.undo| < STATES && Size(t.store.undo) <= CHARS
    modifies t`text, t`past, t`future, t.store, t.store.rec, t.store.chars
    ensures t.Valid() && t.text == old(t.text) + s && t.store.redo == [] && t.past == old(t.past) + [old(t.text)]
    ensures t.store.undo == old(t.store.undo) + [Edit(|old(t.text)|, [], |s|)]
    ensures Size(t.store.undo) == old(Size(t.store.undo))
  {
    assert Replaced(t.text, |t.text|, 0, s) == t.text + s;
    Put(t, |t.text|, 0, s);
  }

  method PutBefore(t: TextEdit, s: string)
    requires t.Valid() && |t.store.undo| < STATES && Size(t.store.undo) <= CHARS
    modifies t`text, t`past, t`future, t.store, t.store.rec, t.store.chars
    ensures t.Valid() && t.text == s + old(t.text) && t.store.redo == [] && t.past == old(t.past) + [old(t.text)]
    ensures t.store.undo == old(t.store.undo) + [Edit(0, [], |s|)] && Size(t.store.undo) == old(Size(t.store.undo))
  {
    assert Replaced(t.text, 0, 0, s) == s + t.text;
    Put(t, 0, 0, s);
  }

  method OneText(a: string) returns (t: TextEdit)
    ensures fresh(t) && fresh(t.store) && fresh(t.store.rec) && fresh(t.store.chars)
    ensures t.Valid() && t.text == a && t.store.redo == [] && t.past == [[]]
    ensures t.store.undo == [Edit(0, [], |a|)] && Size(t.store.undo) == 0
  {
    t := new TextEdit([], false);
    PutBehind(t, a);
  }

  method TwoInsertions(a: string, b: string) returns (t: TextEdit)
    ensures fresh(t) && fresh(t.store) && fresh(t.store.rec) && fresh(t.store.chars)
    ensures t.Valid() && t.text == a + b && t.store.redo == [] && t.past == [[], a]
    ensures t.store.undo == [Edit(0, [], |a|), Edit(|a|, [], |b|)] && Size(t.store.undo) == 0
  {
    t := OneText(a);
    PutBehind(t, b);
  }

  /** Three texts put in one behind the other. */
  method ThreeInsertions(a: string, b: string, c: string) returns (t: TextEdit)
    ensures fresh(t) && fresh(t.store) && fresh(t.store.rec) && fresh(t.store.chars)
    ensures t.Valid() && t.text == a + b + c && t.store.redo == [] && t.past == [[], a, a + b]
    ensures t.store.undo == [Edit(0, [], |a|), Edit(|a|, [], |b|), Edit(|a| + |b|, [], |c|)] && Size(t.store.undo) == 0
  {
    t := TwoInsertions(a, b);
    PutBehind(t, c);
  }

  /** Where two undos lead when the second has to discard what the first one kept: the
      new redo record gives back as many characters as the discarded one did. */
  lemma {:induction false} AfterTwo(a: string, b: string, c: string, f: Field, g: Field, h: Field, step: Step, step': Step)
    requires Sound(f) && f.text == a + b + c && f.store.redo == [] && Size(f.store.undo) == 0
    requires f.store.undo == [Edit(0, [], |a|), Edit(|a|, [], |b|), Edit(|a| + |b|, [], |c|)]
    requires f.past == [[], a, a + b] && 0 < |b| < CHARS && 0 < |c| < CHARS && CHARS < |b| + |c|
    requires WentBack(f, g, step) && WentBack(g, h, step')
    ensures Upright(h) && h.text == a && h.past == [[]] && h.store.undo == [Edit(0, [], |a|)]
    ensures h.store.pool.undoCharPoint == 0 && h.store.pool.redoPoint == STATES - 1
    ensures h.store.pool.redoCharPoint == CHARS - |b| && Freed(h.store.pool.recs[STATES - 1]) == |c|
    ensures Tells(h.store.pool.recs[STATES - 1], Edit(|a| + |b|, c, 0))
  {
    FirstBack(a, b, c, f, g, step);
    var p, e := g.store.pool, Edit(|a| + |b|, c, 0);
    SoundTakes(g.store, |b|);
    assert RedoAt(p.recs, p.chars, [e], 0) && [e][0..] == [e];
    SizeOne(e);
    ReleasedIsSize(p.recs, p.chars, [e], 0);
    assert Released(p.recs, STATES) == 0;
    assert g.store.undo[..1] == [Edit(0, [], |a|)] && g.past[..1] == [[]];
    SizeOne(Edit(0, [], |a|));
  }

  lemma {:induction false} FirstBack(a: string, b: string, c: string, f: Field, g: Field, step: Step)
    requires Sound(f) && f.text == a + b + c && f.store.redo == [] && Size(f.store.undo) == 0
    requires f.store.undo == [Edit(0, [], |a|), Edit(|a|, [], |b|), Edit(|a| + |b|, [], |c|)]
    requires f.past == [[], a, a + b] && |c| < CHARS && WentBack(f, g, step)
    ensures Sound(g) && g.text == a + b && g.past == [[], a] && g.store.redo == [Edit(|a| + |b|, c, 0)]
    ensures g.store.undo == [Edit(0, [], |a|), Edit(|a|, [], |b|)] && Size(g.store.undo) == 0
    ensures g.store.pool.redoCharPoint == CHARS - |c|
  {
    KeptBackIs(f, g, step);
    assert Inverse(f.text, f.store.undo[2]) == Edit(|a| + |b|, c, 0);
    assert [Edit(|a| + |b|, c, 0)] + [] == [Edit(|a| + |b|, c, 0)];
    assert f.store.undo[..2] == [Edit(0, [], |a|), Edit(|a|, [], |b|)] && f.past[..2] == [[], a];
  }

  method UndoTwice(a: string, b: string, c: string) returns (t: TextEdit)
    requires 0 < |b| < CHARS && 0 < |c| < CHARS && CHARS < |b| + |c|
    ensures fresh(t) && fresh(t.store) && fresh(t.store.rec) && fresh(t.store.chars)
    ensures t.Standing() && t.text == a && t.past == [[]] && t.store.undo == [Edit(0, [], |a|)]
    ensures t.store.undoCharPoint == 0 && t.store.redoPoint == STATES - 1
    ensures t.store.redoCharPoint == CHARS - |b| && Freed(t.store.rec[STATES - 1]) == |c|
    ensures Tells(t.store.rec[STATES - 1], Edit(|a| + |b|, c, 0))
  {
    t := ThreeInsertions(a, b, c);
    ghost var f := t.View();
    var step := t.Undo();
    ghost var g := t.View();
    var step' := t.Undo();
    AfterTwo(a, b, c, f, g, t.View(), step, step');
  }

  /** The third of three undos is given up when the first text is too long for what
      the redo records can give back, and so is every one after it: the first text
      never goes. (900, 700 and 450 characters.) */
  method SwallowedUndos(a: string, b: string, c: string, k: nat) returns (t: TextEdit)
    requires |a| < CHARS && 0 < |b| < CHARS && 0 < |c| < CHARS && CHARS < |b| + |c|
    requires CHARS - |b| + |c| < |a|
    ensures t.text == a && t.past == [[]]
  {
    t := UndoTwice(a, b, c);
    SwallowedAt(t.View());
    for i := 0 to k
      invariant t.Standing() && t.text == a && t.past == [[]] && t.store.undo == [Edit(0, [], |a|)]
      invariant Swallows(t.store.Now(), |a|)
      invariant fresh(t) && fresh(t.store) && fresh(t.store.rec) && fresh(t.store.chars)
    {
      ghost var f := t.View();
      var step := t.Undo();
      StillSwallowed(f, t.View(), step);
    }
  }

  lemma {:induction false} SwallowedAt(f: Field)
    requires Upright(f) && |f.store.undo| == 1 && f.store.pool.redoPoint == STATES - 1
    requires var p, d := f.store.pool, f.store.undo[0].delete;
      p.undoCharPoint == 0 && p.redoCharPoint + Freed(p.recs[STATES - 1]) < d < CHARS && p.redoCharPoint < d
    ensures Swallows(f.store.pool, f.store.undo[0].delete)
  {
    assert Released(f.store.pool.recs, STATES) == 0;
  }

  lemma {:induction false} StillSwallowed(f: Field, g: Field, step: Step)
    requires Upright(f) && f.store.undo != []
    requires Swallows(f.store.pool, f.store.undo[|f.store.undo| - 1].delete) && WentBack(f, g, step)
    ensures step == Swallowed && Upright(g) && g.text == f.text && g.past == f.past && g.store.undo == f.store.undo
    ensures Swallows(g.store.pool, f.store.undo[|f.store.undo| - 1].delete)
  {
    assert Released(g.store.pool.recs, STATES) == 0;
  }

  /** The third of three undos would move a negative number of characters when the
      last text is longer than the second. (550, 500 and 600 characters.) */
  method UndoBeyond(a: string, b: string, c: string) returns (t: TextEdit, step: Step)
    requires |a| < CHARS && 0 < |b| < CHARS && 0 < |c| < CHARS && CHARS < |b| + |c|
    requires |b| < |c| && CHARS < |a| + |b|
    ensures step == Beyond
  {
    t := UndoTwice(a, b, c);
    ghost var p, n := t.store.Now(), STATES - 1;
    assert Released(p.recs, STATES) == 0 && Released(p.recs, n) == |c|;
    step := t.Undo();
  }

  /** The second of two undos discards what the first one kept, and the record it
      leaves for redoing the second insertion tells where the third one went, which
      is past the end of the text. (No characters and twice 600.) */
  method SpoiledRedo(a: string, b: string, c: string) returns (t: TextEdit)
    requires 0 < |b| < CHARS && 0 < |c| < CHARS && CHARS < |b| + |c|
    ensures t.Standing() && t.text == a && t.store.redoPoint == STATES - 1
    ensures var r := t.store.rec[STATES - 1];
      Tells(r, Edit(|a| + |b|, c, 0)) && !Legible(r, t.text)
  {
    t := UndoTwice(a, b, c);
  }

  /** An insertion as long as the store or longer and one behind it are undone. Redoing
      the first puts nothing back, and the record of the second is left to tell a place
      past the end of the text. Nothing has been discarded. */
  method CutShort(a: string, b: string) returns (t: TextEdit)
    requires CHARS <= |a| && 0 < |b| < CHARS
    ensures fresh(t) && fresh(t.store) && fresh(t.store.rec) && fresh(t.store.chars)
    ensures t.Standing() && t.store.Valid() && t.text == [] && t.store.undo == [Edit(0, [], 0)]
    ensures t.store.redo == [Edit(|a|, b, 0)] && t.store.redoPoint == STATES - 1
    ensures !Legible(t.store.rec[STATES - 1], t.text)
  {
    t := TwoInsertions(a, b);
    ghost var f := t.View();
    var first := t.Undo();
    ghost var g := t.View();
    var step := t.Undo();
    ghost var h := t.View();
    BackTwice(a, b, f, g, h, first, step);
    step := t.Redo();
    NothingBack(a, b, h, t.View(), step);
  }

  /** So the second redo goes past the end of the text. (1000 characters and one.) */
  method RedoBeyond(a: string, b: string) returns (t: TextEdit, step: Step)
    requires CHARS <= |a| && 0 < |b| < CHARS
    ensures step == Beyond
  {
    t := CutShort(a, b);
    step := t.Redo();
  }

  lemma {:induction false} BackTwice(a: string, b: string, f: Field, g: Field, h: Field, step: Step, step': Step)
    requires Sound(f) && f.text == a + b && f.store.redo == [] && f.past == [[], a] && CHARS <= |a| && 0 < |b| < CHARS
    requires f.store.undo == [Edit(0, [], |a|), Edit(|a|, [], |b|)] && Size(f.store.undo) == 0
    requires WentBack(f, g, step) && WentBack(g, h, step')
    ensures Upright(h) && StoreSound(h.store) && h.text == [] && h.past == [] && h.store.undo == []
    ensures h.store.redo == [Edit(0, [], 0), Edit(|a|, b, 0)]
  {
    KeptBackIs(f, g, step);
    assert Inverse(f.text, f.store.undo[1]) == Edit(|a|, b, 0);
    assert f.store.undo[..1] == [Edit(0, [], |a|)] && f.past[..1] == [[]];
    assert g.store.redo == [Edit(|a|, b, 0)] + [];
    SoundTakes(g.store, |a|);
    assert h.store.redo == [Edit(0, [], 0)] + g.store.redo;
  }

  lemma {:induction false} NothingBack(a: string, b: string, h: Field, k: Field, step: Step)
    requires Upright(h) && StoreSound(h.store) && h.text == [] && h.store.undo == [] && 0 < |a| && 0 < |b|
    requires h.store.redo == [Edit(0, [], 0), Edit(|a|, b, 0)] && WentForward(h, k, step)
    ensures step == Done && Upright(k) && StoreSound(k.store) && k.text == [] && k.store.undo == [Edit(0, [], 0)]
    ensures k.store.redo == [Edit(|a|, b, 0)] && k.store.pool.redoPoint == STATES - 1
    ensures !Legible(k.store.pool.recs[STATES - 1], k.text)
  {
    assert h.store.redo[1..] == [Edit(|a|, b, 0)];
    assert RedoAt(k.store.pool.recs, k.store.pool.chars, k.store.redo, 0);
  }

  // ----- Redoing what a discard has left -----

  /** Three texts put in one before the other, three undos and two redos. The third
      undo discards what the first kept, both redos put in the second text, and the
      redo characters then begin past the end of their array: another undo would save
      characters there. (100, 400 and 560 characters.) */
  method SpilledUndo(a: string, b: string, c: string) returns (t: TextEdit, step: Step, ghost p: Pool)
    requires 0 < |a| < |b| && 0 < |c| && |b| + |c| <= CHARS && |a| + |b| <= CHARS && CHARS < |a| + |b| + |c|
    ensures step == Beyond && Spills(p, |b|) && p.redoCharPoint == CHARS - |a| + |b|
    ensures t.store.undo == [Edit(0, [], |b|), Edit(0, [], |b|)]
  {
    t := ThreeBack(a, b, c);
    ghost var k := t.View();
    step := t.Redo();
    ghost var l := t.View();
    FirstRedo(a, b, k, l, step);
    step := t.Redo();
    SecondRedo(a, b, l, t.View(), step);
    p := t.store.Now();
    step := t.Undo();
  }

  /** Three texts put in one before the other, and three undos. */
  method ThreeBack(a: string, b: string, c: string) returns (t: TextEdit)
    requires 0 < |a| && 0 < |b| && 0 < |c| && |b| + |c| <= CHARS && |a| + |b| <= CHARS && CHARS < |a| + |b| + |c|
    ensures fresh(t) && fresh(t.store) && fresh(t.store.rec) && fresh(t.store.chars)
    ensures TwiceTheSecond(a, b, t.View())
  {
    t := ThreeBefore(a, b, c);
    ghost var f := t.View();
    var first := t.Undo();
    ghost var g := t.View();
    var step := t.Undo();
    ghost var h := t.View();
    FrontTwo(a, b, c, f, g, h, first, step);
    step := t.Undo();
    FrontThird(a, b, c, h, t.View(), step);
  }

  method ThreeBefore(a: string, b: string, c: string) returns (t: TextEdit)
    ensures fresh(t) && fresh(t.store) && fresh(t.store.rec) && fresh(t.store.chars)
    ensures t.Valid() && t.text == c + (b + a) && t.store.redo == [] && t.past == [[], a, b + a]
    ensures t.store.undo == [Edit(0, [], |a|), Edit(0, [], |b|), Edit(0, [], |c|)] && Size(t.store.undo) == 0
  {
    t := TwoBefore(a, b);
    PutBefore(t, c);
  }

  method TwoBefore(a: string, b: string) returns (t: TextEdit)
    ensures fresh(t) && fresh(t.store) && fresh(t.store.rec) && fresh(t.store.chars)
    ensures t.Valid() && t.text == b + a && t.store.redo == [] && t.past == [[], a]
    ensures t.store.undo == [Edit(0, [], |a|), Edit(0, [], |b|)] && Size(t.store.undo) == 0
  {
    t := OneText(a);
    PutBefore(t, b);
  }

  lemma {:induction false} FrontTwo(a: string, b: string, c: string, f: Field, g: Field, h: Field, step: Step, step': Step)
    requires Sound(f) && f.text == c + (b + a) && f.store.redo == [] && f.past == [[], a, b + a] && Size(f.store.undo) == 0
    requires f.store.undo == [Edit(0, [], |a|), Edit(0, [], |b|), Edit(0, [], |c|)]
    requires 0 < |b| && 0 < |c| && |b| + |c| <= CHARS && WentBack(f, g, step) && WentBack(g, h, step')
    ensures Sound(h) && h.text == a && h.past == [[]] && h.store.undo == [Edit(0, [], |a|)]
    ensures h.store.redo == [Edit(0, b, 0), Edit(0, c, 0)] && h.store.pool.undoCharPoint == 0
  {
    KeptBackIs(f, g, step);
    FrontInverse(c, b + a);
    assert f.store.undo[..2] == [Edit(0, [], |a|), Edit(0, [], |b|)] && f.past[..2] == [[], a];
    assert g.store.redo == [Edit(0, c, 0)] + [];
    FrontSecond(a, b, c, g, h, step');
  }

  lemma {:induction false} FrontInverse(c: string, s: string)
    requires 0 < |c|
    ensures Inverse(c + s, Edit(0, [], |c|)) == Edit(0, c, 0)
  {
  }

  lemma {:induction false} FrontSecond(a: string, b: string, c: string, g: Field, h: Field, step: Step)
    requires Sound(g) && g.text == b + a && g.past == [[], a] && g.store.redo == [Edit(0, c, 0)]
    requires g.store.undo == [Edit(0, [], |a|), Edit(0, [], |b|)] && g.store.pool.undoCharPoint == 0
    requires g.store.pool.redoCharPoint == CHARS - |c|
    requires 0 < |b| && 0 < |c| && |b| + |c| <= CHARS && WentBack(g, h, step)
    ensures Sound(h) && h.text == a && h.past == [[]] && h.store.undo == [Edit(0, [], |a|)]
    ensures h.store.redo == [Edit(0, b, 0), Edit(0, c, 0)] && h.store.pool.undoCharPoint == 0
  {
    KeptBackIs(g, h, step);
    FrontInverse(b, a);
    assert g.store.undo[..1] == [Edit(0, [], |a|)] && g.past[..1] == [[]];
    assert h.store.redo == [Edit(0, b, 0)] + g.store.redo;
  }

  /** Both redo records tell the second text, and the characters of one overlap those
      of the other. */
  ghost predicate TwiceTheSecond(a: string, b: string, k: Field) {
    && Upright(k) && k.text == [] && k.past == [] && k.store.undo == [] && k.store.pool.undoCharPoint == 0
    && k.store.pool.redoPoint == STATES - 2 && k.store.pool.redoCharPoint == CHARS - |a| - |b|
    && k.store.pool.recs[STATES - 2] == Record(0, |b|, 0, CHARS - |a| - |b|)
    && k.store.pool.recs[STATES - 1] == Record(0, |b|, 0, CHARS - |b|)
  }

  lemma {:induction false} FrontThird(a: string, b: string, c: string, h: Field, k: Field, step: Step)
    requires Sound(h) && h.text == a && h.past == [[]] && h.store.undo == [Edit(0, [], |a|)]
    requires h.store.redo == [Edit(0, b, 0), Edit(0, c, 0)] && h.store.pool.undoCharPoint == 0
    requires 0 < |a| && 0 < |b| && 0 < |c| && |a| + |b| <= CHARS && CHARS < |a| + |b| + |c| && WentBack(h, k, step)
    ensures TwiceTheSecond(a, b, k)
  {
    var p, q := h.store.pool, k.store.pool;
    TwoRecords(p, b, c);
    SoundTakes(h.store, |a|);
    var m, n := q.redoPoint + 1 - p.redoPoint, q.redoCharPoint + |a| - p.redoCharPoint;
    assert MovedAt(q.recs, p.recs, STATES - 1, 1, |c|) by {
      assert m == 1 && n == |c|;
      assert MovedAt(q.(redoPoint := q.redoPoint + 1).recs, p.recs, STATES - 1, m, n);
    }
  }

  lemma {:induction false} TwoRecords(p: Pool, b: string, c: string)
    requires RedoStack(p, [Edit(0, b, 0), Edit(0, c, 0)]) && 0 < |b| && 0 < |c|
    ensures p.redoPoint == STATES - 2 && p.redoCharPoint == CHARS - |b| - |c|
    ensures p.recs[STATES - 2] == Record(0, |b|, 0, CHARS - |b| - |c|) && p.recs[STATES - 1] == Record(0, |c|, 0, CHARS - |c|)
    ensures Released(p.recs, STATES) == 0 && Released(p.recs, STATES - 1) == |c| && Released(p.recs, STATES - 2) == |b| + |c|
  {
    var x, y := Edit(0, b, 0), Edit(0, c, 0);
    assert RedoAt(p.recs, p.chars, [x, y], 0) && RedoAt(p.recs, p.chars, [x, y], 1);
    assert [x, y][0..] == [x, y] && [x, y][1..] == [y] && [x, y] == [x] + [y];
    SizeConcat([x], [y]);
    SizeOne(x);
    SizeOne(y);
  }

  lemma {:induction false} FirstRedo(a: string, b: string, k: Field, l: Field, step: Step)
    requires TwiceTheSecond(a, b, k) && 0 < |a| && 0 < |b| && |a| + |b| <= CHARS && WentForward(k, l, step)
    ensures OnceMore(a, b, l)
  {
    SizeOne(Edit(0, [], |b|));
    assert [] + [Edit(0, [], |b|)] == [Edit(0, [], |b|)];
  }

  ghost predicate OnceMore(a: string, b: string, l: Field) {
    && Upright(l) && l.past == [[]] && l.store.undo == [Edit(0, [], |b|)] && l.store.pool.undoCharPoint == 0
    && l.store.pool.redoPoint == STATES - 1 && l.store.pool.redoCharPoint == CHARS - |a|
    && l.store.pool.recs[STATES - 1] == Record(0, |b|, 0, CHARS - |b|)
  }

  lemma {:induction false} SecondRedo(a: string, b: string, l: Field, n: Field, step: Step)
    requires OnceMore(a, b, l) && 0 < |a| && 0 < |b| && |a| + |b| <= CHARS && WentForward(l, n, step)
    ensures Upright(n) && |n.past| == 2 && n.store.undo == [Edit(0, [], |b|), Edit(0, [], |b|)]
    ensures n.store.pool.undoCharPoint == 0 && n.store.pool.redoCharPoint == CHARS - |a| + |b|
  {
    var e := Edit(0, [], |b|);
    SizeConcat([e], [e]);
    SizeOne(e);
    assert [e] + [e] == [e, e];
  }

  /** A text, another put in behind it, the first deleted and a third put in before;
      three undos bring the first text back, having discarded what the first of them
      kept. One redo then deletes it, without room to keep it: no number of undos
      brings it back. (500, 600 and 450 characters.) */
  method LostText(a: string, b: string, c: string, k: nat) returns (t: TextEdit)
    requires 0 < |a| && |a| + |c| < CHARS && |b| < CHARS && CHARS < |b| + |c| && CHARS < |a| + |b|
    ensures t.Standing() && t.text == [] && t.past == []
  {
    t := LostOnce(a, b, c);
    for i := 0 to k
      invariant Lost(t.View())
      invariant fresh(t) && fresh(t.store) && fresh(t.store.rec) && fresh(t.store.chars)
    {
      ghost var m := t.View();
      var step := t.Undo();
      StillLost(m, t.View(), step);
    }
  }

  method LostOnce(a: string, b: string, c: string) returns (t: TextEdit)
    requires 0 < |a| && |a| + |c| < CHARS && |b| < CHARS && CHARS < |b| + |c| && CHARS < |a| + |b|
    ensures fresh(t) && fresh(t.store) && fresh(t.store.rec) && fresh(t.store.chars)
    ensures Lost(t.View())
  {
    t := FirstTextBack(a, b, c);
    ghost var l := t.View();
    var step := t.Redo();
    Losing(a, b, l, t.View(), step);
  }

  method FirstTextBack(a: string, b: string, c: string) returns (t: TextEdit)
    requires 0 < |a| && |a| + |c| < CHARS && |b| < CHARS && CHARS < |b| + |c|
    ensures fresh(t) && fresh(t.store) && fresh(t.store.rec) && fresh(t.store.chars)
    ensures BackAtFirst(a, b, t.View())
  {
    t := BehindAndBefore(a, b, c);
    ghost var f := t.View();
    var first := t.Undo();
    ghost var g := t.View();
    var step := t.Undo();
    ghost var h := t.View();
    LosingTwo(a, b, c, f, g, h, first, step);
    step := t.Undo();
    LosingThird(a, b, c, h, t.View(), step);
  }

  method BehindAndBefore(a: string, b: string, c: string) returns (t: TextEdit)
    requires |a| <= CHARS
    ensures fresh(t) && fresh(t.store) && fresh(t.store.rec) && fresh(t.store.chars)
    ensures t.Valid() && t.text == c + b && t.store.redo == [] && t.past == [a, a + b, b]
    ensures t.store.undo == [Edit(|a|, [], |b|), Edit(0, a, 0), Edit(0, [], |c|)] && Size(t.store.undo) == |a|
  {
    t := new TextEdit(a, false);
    PutBehind(t, b);
    FrontGone(a, b);
    Put(t, 0, |a|, []);
    PutBefore(t, c);
  }

  lemma {:induction false} FrontGone(a: string, b: string)
    ensures Replaced(a + b, 0, |a|, []) == b && Taken(a + b, 0, |a|) == a
  {
  }

  lemma {:induction false} LosingTwo(a: string, b: string, c: string, f: Field, g: Field, h: Field, step: Step, step': Step)
    requires Sound(f) && f.text == c + b && f.store.redo == [] && f.past == [a, a + b, b] && Size(f.store.undo) == |a|
    requires f.store.undo == [Edit(|a|, [], |b|), Edit(0, a, 0), Edit(0, [], |c|)]
    requires 0 < |a| && 0 < |c| && |a| + |c| < CHARS && WentBack(f, g, step) && WentBack(g, h, step')
    ensures Sound(h) && h.text == a + b && h.past == [a] && h.store.undo == [Edit(|a|, [], |b|)]
    ensures h.store.redo == [Edit(0, [], |a|), Edit(0, c, 0)] && h.store.pool.undoCharPoint == 0
  {
    KeptBackIs(f, g, step);
    assert Inverse(f.text, f.store.undo[2]) == Edit(0, c, 0);
    assert f.store.undo[..2] == [Edit(|a|, [], |b|), Edit(0, a, 0)] && f.past[..2] == [a, a + b];
    assert g.store.redo == [Edit(0, c, 0)] + [];
    KeptBackIs(g, h, step');
    assert g.store.undo[..1] == [Edit(|a|, [], |b|)] && g.past[..1] == [a];
    assert h.store.redo == [Edit(0, [], |a|)] + g.store.redo;
  }

  /** The first text is back, and the newest redo record deletes it. */
  ghost predicate BackAtFirst(a: string, b: string, l: Field) {
    && Upright(l) && l.text == a && l.past == [] && l.store.undo == [] && l.store.pool.undoCharPoint == 0
    && l.store.pool.redoPoint == STATES - 2 && l.store.pool.redoCharPoint == CHARS - |b|
    && SameStep(l.store.pool.recs[STATES - 2], Record(0, 0, |a|, -1))
  }

  lemma {:induction false} LosingThird(a: string, b: string, c: string, h: Field, l: Field, step: Step)
    requires Sound(h) && h.text == a + b && h.past == [a] && h.store.undo == [Edit(|a|, [], |b|)]
    requires h.store.redo == [Edit(0, [], |a|), Edit(0, c, 0)] && h.store.pool.undoCharPoint == 0
    requires 0 < |c| && |b| < CHARS && CHARS < |b| + |c| && |c| < CHARS && WentBack(h, l, step)
    ensures BackAtFirst(a, b, l)
  {
    var p := h.store.pool;
    OneOfTwo(p, |a|, c);
    SoundTakes(h.store, |b|);
  }

  lemma {:induction false} OneOfTwo(p: Pool, n: nat, c: string)
    requires RedoStack(p, [Edit(0, [], n), Edit(0, c, 0)]) && 0 < |c|
    ensures p.redoPoint == STATES - 2 && p.redoCharPoint == CHARS - |c| && p.recs[STATES - 2] == Record(0, 0, n, -1)
    ensures Released(p.recs, STATES) == 0 && Released(p.recs, STATES - 1) == |c| && Released(p.recs, STATES - 2) == |c|
  {
    var x, y := Edit(0, [], n), Edit(0, c, 0);
    assert RedoAt(p.recs, p.chars, [x, y], 0) && RedoAt(p.recs, p.chars, [x, y], 1);
    assert [x, y][0..] == [x, y] && [x, y][1..] == [y] && [x, y] == [x] + [y];
    SizeConcat([x], [y]);
    SizeOne(x);
    SizeOne(y);
  }

  /** The text is gone, and no record has its characters. */
  ghost predicate Lost(f: Field) {
    && Upright(f) && f.text == [] && f.past == []
    && (f.store.undo == [] || f.store.undo == [Edit(0, [], 0)])
  }

  lemma {:induction false} Losing(a: string, b: string, l: Field, m: Field, step: Step)
    requires BackAtFirst(a, b, l) && 0 < |a| && CHARS < |a| + |b| && WentForward(l, m, step)
    ensures Lost(m) && m.store.undo == [Edit(0, [], 0)]
  {
    assert [] + [Edit(0, [], 0)] == [Edit(0, [], 0)];
  }

  lemma {:induction false} StillLost(f: Field, g: Field, step: Step)
    requires Lost(f) && WentBack(f, g, step)
    ensures Lost(g)
  {
    if f.store.undo != [] { RoomyTakes(f.store, 0); }
  }
}
