/** The text field on top of the undo store: every change of the text leaves a
    record, and the records lead back through the texts the field has shown. */
module TextEditor {
  import opened Numbers
  import opened Edits
  import opened UndoStore

  // ----- The two stacks as values -----

  datatype History = History(text: string, undo: seq<Edit>, redo: seq<Edit>) {
    predicate CanUndo() { undo != [] && InRange(text, undo[|undo| - 1]) }
    predicate CanRedo() { redo != [] && InRange(text, redo[0]) }

    function Undone(): History
      requires CanUndo()
    {
      var e := undo[|undo| - 1];
      History(Apply(text, e), undo[..|undo| - 1], [Inverse(text, e)] + redo)
    }

    function Redone(): History
      requires CanRedo()
    {
      History(Apply(text, redo[0]), undo + [Inverse(text, redo[0])], redo[1..])
    }

    predicate CanUndoTimes(k: nat)
      decreases k
    {
      k == 0 || (CanUndo() && Undone().CanUndoTimes(k - 1))
    }

    function UndoneTimes(k: nat): History
      requires CanUndoTimes(k)
      decreases k
    {
      if k == 0 then this else Undone().UndoneTimes(k - 1)
    }

    predicate CanRedoTimes(k: nat)
      decreases k
    {
      k == 0 || (CanRedo() && Redone().CanRedoTimes(k - 1))
    }

    function RedoneTimes(k: nat): History
      requires CanRedoTimes(k)
      decreases k
    {
      if k == 0 then this else Redone().RedoneTimes(k - 1)
    }
  }

  lemma {:induction false} RedoneAfterUndone(h: History)
    requires h.CanUndo()
    ensures h.Undone().CanRedo() && h.Undone().Redone() == h
  {
    InverseUndoes(h.text, h.undo[|h.undo| - 1]);
    assert h.undo == h.undo[..|h.undo| - 1] + [h.undo[|h.undo| - 1]];
    assert h.Undone().redo[1..] == h.redo;
  }

  lemma {:induction false} UndoneLast(h: History, k: nat)
    requires h.CanUndoTimes(k + 1)
    ensures h.CanUndoTimes(k) && h.UndoneTimes(k).CanUndo() && h.UndoneTimes(k + 1) == h.UndoneTimes(k).Undone()
    decreases k
  {
    if k > 0 { UndoneLast(h.Undone(), k - 1); }
  }

  /** Any number of undos followed by as many redos restores the text and both
      stacks. */
  lemma {:induction false} RedosRestore(h: History, k: nat)
    requires h.CanUndoTimes(k)
    ensures h.UndoneTimes(k).CanRedoTimes(k) && h.UndoneTimes(k).RedoneTimes(k) == h
    decreases k
  {
    if k > 0 {
      UndoneLast(h, k - 1);
      RedoneAfterUndone(h.UndoneTimes(k - 1));
      RedosRestore(h, k - 1);
    }
  }

  // ----- Texts along the stacks -----

  /** Undoing the newest steps goes back through the texts in `past`, newest last. */
  ghost predicate UndoTexts(text: string, undo: seq<Edit>, past: seq<string>)
    decreases |past|
  {
    past == [] || (undo != [] && (
      var n, m := |undo| - 1, |past| - 1;
      InRange(text, undo[n]) && Apply(text, undo[n]) == past[m] && UndoTexts(past[m], undo[..n], past[..m])))
  }

  /** Redoing step after step goes through the texts in `future`. */
  ghost predicate RedoTexts(text: string, redo: seq<Edit>, future: seq<string>)
    decreases |redo|
  {
    |redo| == |future| && (redo == [] || (
      InRange(text, redo[0]) && Apply(text, redo[0]) == future[0] && RedoTexts(future[0], redo[1..], future[1..])))
  }

  lemma {:induction false} TextsCount(text: string, undo: seq<Edit>, past: seq<string>)
    requires UndoTexts(text, undo, past)
    ensures |past| <= |undo|
    decreases |past|
  {
    if past != [] { TextsCount(past[|past| - 1], undo[..|undo| - 1], past[..|past| - 1]); }
  }

  /** Without the `d` oldest steps and the `c` oldest texts. */
  lemma {:induction false} RecentTexts(text: string, undo: seq<Edit>, past: seq<string>, d: nat, c: nat)
    requires UndoTexts(text, undo, past) && d <= |undo| && c <= |past| && |past| - c <= |undo| - d
    ensures UndoTexts(text, undo[d..], past[c..])
    decreases |past|
  {
    if c < |past| {
      var n, m := |undo| - 1, |past| - 1;
      RecentTexts(past[m], undo[..n], past[..m], d, c);
      Trimmed(undo, d);
      Trimmed(past, c);
    }
  }

  lemma {:induction false} Trimmed<T>(s: seq<T>, d: nat)
    requires d < |s|
    ensures s[..|s| - 1][d..] == s[d..][..|s[d..]| - 1] && s[d..][|s[d..]| - 1] == s[|s| - 1]
  {
  }

  lemma {:induction false} TextsPushed(text: string, undo: seq<Edit>, past: seq<string>, text': string, e: Edit)
    requires UndoTexts(text, undo, past) && InRange(text', e) && Apply(text', e) == text
    ensures UndoTexts(text', undo + [e], past + [text])
  {
    assert (undo + [e])[..|undo|] == undo && (past + [text])[..|past|] == past;
  }

  /** The texts remembered once a change of `text` that takes `n` characters out
      has been recorded. */
  ghost function Remembered(past: seq<string>, undo: seq<Edit>, text: string, n: nat): seq<string> {
    if n > CHARS then []
    else
      var k := Min(|past|, |KeptFor(undo, n)|);
      past[|past| - k..] + [text]
  }

  lemma {:induction false} KeptLength(es: seq<Edit>, n: nat)
    requires n <= CHARS
    ensures |KeptFor(es, n)| <= |es| && KeptFor(es, n) == es[|es| - |KeptFor(es, n)|..]
  {
    var d := KeptIsLongest(es, n);
  }

  /** The record of a change takes the changed text back. */
  lemma {:induction false} RecordReverts(text: string, where: int, n: nat, put: string)
    requires 0 <= where && where + n <= |text|
    ensures var t, e := text[..where] + put + text[where + n..], Edit(where, text[where..where + n], |put|);
      InRange(t, e) && Apply(t, e) == text
  {
    InverseUndoes(text, Edit(where, put, n));
    assert text[where..where] == [] && text[..where] + text[where..] == text;
  }

  /** Recording a change keeps the texts behind the newest records, and adds the
      one before the change. */
  lemma {:induction false} ChangeRemembered(text: string, undo: seq<Edit>, past: seq<string>, where: int, n: nat,
                                            put: string, undo': seq<Edit>)
    requires UndoTexts(text, undo, past) && 0 <= where && where + n <= |text|
    requires undo' == if n > CHARS then [] else KeptFor(undo, n) + [Edit(where, text[where..where + n], |put|)]
    ensures UndoTexts(text[..where] + put + text[where + n..], undo', Remembered(past, undo, text, n))
  {
    if n <= CHARS {
      KeptLength(undo, n);
      TextRemembered(text, undo, past, where, n, put, KeptFor(undo, n));
    }
  }

  lemma {:induction false} TextRemembered(text: string, undo: seq<Edit>, past: seq<string>, where: int, n: nat,
                                          put: string, kept: seq<Edit>)
    requires UndoTexts(text, undo, past) && 0 <= where && where + n <= |text|
    requires |kept| <= |undo| && kept == undo[|undo| - |kept|..]
    ensures var t, e := text[..where] + put + text[where + n..], Edit(where, text[where..where + n], |put|);
      UndoTexts(t, kept + [e], past[|past| - Min(|past|, |kept|)..] + [text])
  {
    var t, e := text[..where] + put + text[where + n..], Edit(where, text[where..where + n], |put|);
    var c := |past| - Min(|past|, |kept|);
    RecordReverts(text, where, n, put);
    RecentTexts(text, undo, past, |undo| - |kept|, c);
    TextsPushed(text, kept, past[c..], t, e);
  }

  /** After a redo the text before it leads the way back exactly when the redo kept what
      it took out, or changed nothing. */
  lemma {:induction false} WayAfterRedo(a: Pool, text: string, r: Record, chars: seq<char>, undo: seq<Edit>, past: seq<string>)
    requires UndoTexts(text, undo, past) && |chars| == CHARS && Legible(r, text)
    ensures var t, e := Apply(text, Told(r, chars)), Undoable(a, text, r);
      UndoTexts(t, undo + [e], past + [text]) <==> !Cuts(a, r.deleteLength) || t == text
  {
    var told, e := Told(r, chars), Undoable(a, text, r);
    var t := Apply(text, told);
    InverseUndoes(text, told);
    if !Cuts(a, r.deleteLength) || t == text { TextsPushed(text, undo, past, t, e); }
  }

  lemma {:induction false} AheadAfterRedo(text: string, redo: seq<Edit>, future: seq<string>)
    requires RedoTexts(text, redo, future) && redo != []
    ensures future != [] && InRange(text, redo[0]) && Apply(text, redo[0]) == future[0]
    ensures RedoTexts(future[0], redo[1..], future[1..])
  {
  }

  // ----- The text field -----

  /** The whole field as values. */
  datatype Field = Field(text: string, cursor: int, selectStart: int, selectEnd: int, past: seq<string>,
                         future: seq<string>, store: Store)

  /** The undo side is intact, and the newest steps lead back through the texts
      remembered. */
  ghost predicate Upright(f: Field) {
    Reached(f.store) && UndoTexts(f.text, f.store.undo, f.past) && 0 <= f.cursor && 0 <= f.selectStart && 0 <= f.selectEnd
  }

  /** The way forward is intact as well. */
  ghost predicate Sound(f: Field) {
    Upright(f) && StoreSound(f.store) && RedoTexts(f.text, f.store.redo, f.future)
  }

  function HistoryOf(f: Field): History {
    History(f.text, f.store.undo, f.store.redo)
  }

  /** What an undo does: while there is a text remembered it goes back to the newest one
      exactly when the store can take the undo. */
  ghost predicate WentBack(f: Field, g: Field, step: Step) {
    && Undid(f.store, g.store, f.text, f.cursor, g.text, g.cursor, step)
    && (f.past != [] ==>
          f.store.undo != [] && (step == Done <==> Takes(f.store.pool, f.store.undo[|f.store.undo| - 1].delete)))
    && (step != Done ==> g.text == f.text && g.past == f.past && g.future == f.future)
    && (step == Idle <==> f.store.undo == []) && (step == Idle && Sound(f) ==> Sound(g))
    && (step != Beyond ==> Upright(g))
    && (step == Done && f.past == [] ==> g.past == [])
    && (step == Done && f.past != [] ==> OneTextBack(f, g))
    && (step == Done && Sound(f) && Keeps(f) ==> Sound(g) && OneStepBack(f, g))
  }

  /** The field `g` after `n` characters at `where` in `f` gave way to `put`. */
  lemma {:induction false} ChangedSound(f: Field, g: Field, where: int, n: nat, put: string)
    requires Upright(f) && 0 <= where && where + n <= |f.text|
    requires StoreSound(g.store) && g.store.redo == [] && g.future == []
    requires g.store.undo == if n > CHARS then []
      else KeptFor(f.store.undo, n) + [Edit(where, f.text[where..where + n], |put|)]
    requires g.text == Replaced(f.text, where, n, put)
    requires g.past == Remembered(f.past, f.store.undo, f.text, n)
    requires g.cursor == f.cursor && g.selectStart == f.selectStart && g.selectEnd == f.selectEnd
    ensures Sound(g)
  {
    ChangeRemembered(f.text, f.store.undo, f.past, where, n, put, g.store.undo);
  }

  /** Text `s` with `n` characters at `where` replaced. */
  function Replaced(s: string, where: int, n: nat, put: string): string
    requires 0 <= where && where + n <= |s|
  {
    s[..where] + put + s[where + n..]
  }

  ghost predicate OneTextBack(f: Field, g: Field) {
    f.past != [] && g.text == f.past[|f.past| - 1] && g.past == f.past[..|f.past| - 1]
  }

  /** The newest step can be undone with all that redoing it needs. */
  ghost predicate Keeps(f: Field) {
    f.store.undo != [] && var d := f.store.undo[|f.store.undo| - 1].delete;
      !Squeezes(f.store.pool, d) && !Fills(f.store.pool, d)
  }

  ghost predicate OneStepBack(f: Field, g: Field) {
    g.future == [f.text] + f.future && HistoryOf(f).CanUndo() && HistoryOf(g) == HistoryOf(f).Undone()
  }

  lemma {:induction false} WentBackIs(f: Field, g: Field, step: Step)
    requires Upright(f) && Undid(f.store, g.store, f.text, f.cursor, g.text, g.cursor, step)
    requires g.selectStart == f.selectStart && g.selectEnd == f.selectEnd
    requires if step == Done
      then g.past == (if f.past == [] then [] else f.past[..|f.past| - 1]) && g.future == [f.text] + f.future
      else g.past == f.past && g.future == f.future
    ensures WentBack(f, g, step)
  {
    if step != Beyond { UndoReaches(f.store, g.store, f.text, f.cursor, g.text, g.cursor, step); }
    if step == Done && Sound(f) && Keeps(f) { StepBack(f, g); }
  }

  lemma {:induction false} StepBack(f: Field, g: Field)
    requires Sound(f) && Keeps(f) && Undid(f.store, g.store, f.text, f.cursor, g.text, g.cursor, Done)
    requires Upright(g) && g.future == [f.text] + f.future
    ensures Sound(g) && OneStepBack(f, g)
  {
    AheadAfterUndo(f.text, f.store.undo[|f.store.undo| - 1], f.store.redo, f.future);
  }

  lemma {:induction false} AheadAfterUndo(text: string, e: Edit, redo: seq<Edit>, future: seq<string>)
    requires InRange(text, e) && RedoTexts(text, redo, future)
    ensures RedoTexts(Apply(text, e), [Inverse(text, e)] + redo, [text] + future)
  {
    InverseUndoes(text, e);
    assert ([Inverse(text, e)] + redo)[1..] == redo && ([text] + future)[1..] == future;
  }

  /** What a redo does: the text before it leads the way back exactly when the redo kept
      what it took out or changed nothing, and otherwise no text is remembered any more.
      With the way forward intact it goes to the text last undone. */
  ghost predicate WentForward(f: Field, g: Field, step: Step) {
    && Redid(f.store, g.store, f.text, f.cursor, g.text, g.cursor, step)
    && (step == Idle ==> g == f)
    && (step == Done ==> Upright(g) && OneTextOn(f, g))
    && (Sound(f) ==> Sound(g) && (step == Idle <==> f.future == []) && step != Beyond)
    && (Sound(f) && f.future != [] ==> OneStepOn(f, g))
  }

  ghost predicate OneTextOn(f: Field, g: Field) {
    && 0 <= f.store.pool.redoPoint < |f.store.pool.recs|
    && var kept := !Cuts(f.store.pool, f.store.pool.recs[f.store.pool.redoPoint].deleteLength) || g.text == f.text;
      && (UndoTexts(g.text, g.store.undo, f.past + [f.text]) <==> kept)
      && g.past == if kept then f.past + [f.text] else []
  }

  ghost predicate OneStepOn(f: Field, g: Field) {
    && f.future != [] && g.text == f.future[0] && g.future == f.future[1..] && g.past == f.past + [f.text]
    && HistoryOf(f).CanRedo() && HistoryOf(g) == HistoryOf(f).Redone()
  }

  lemma {:induction false} WentForwardIs(f: Field, g: Field, step: Step)
    requires Upright(f) && Redid(f.store, g.store, f.text, f.cursor, g.text, g.cursor, step)
    requires g.selectStart == f.selectStart && g.selectEnd == f.selectEnd
    requires if step == Done then g.past == PastOn(f, g.text) && g.future == FutureOn(f)
      else g.past == f.past && g.future == f.future
    ensures WentForward(f, g, step)
  {
    if step == Done {
      TextOn(f, g);
      RedoReaches(f.store, g.store, f.text, f.cursor, g.text, g.cursor, step);
    }
    if Sound(f) && f.store.redo != [] {
      AheadAfterRedo(f.text, f.store.redo, f.future);
      StepOn(f, g);
    }
  }

  /** What the field remembers after a redo that leads to `text`. */
  ghost function PastOn(f: Field, text: string): seq<string> {
    var a := f.store.pool;
    if 0 <= a.redoPoint < |a.recs| && Cuts(a, a.recs[a.redoPoint].deleteLength) && text != f.text then []
    else f.past + [f.text]
  }

  function FutureOn(f: Field): seq<string> {
    if f.future == [] then [] else f.future[1..]
  }

  lemma {:induction false} TextOn(f: Field, g: Field)
    requires Upright(f) && Redid(f.store, g.store, f.text, f.cursor, g.text, g.cursor, Done)
    requires g.past == PastOn(f, g.text)
    ensures OneTextOn(f, g) && UndoTexts(g.text, g.store.undo, g.past)
  {
    var a, r := f.store.pool, f.store.pool.recs[f.store.pool.redoPoint];
    WayAfterRedo(a, f.text, r, g.store.pool.chars, f.store.undo, f.past);
    assert UndoTexts(g.text, g.store.undo, []);
  }

  lemma {:induction false} StepOn(f: Field, g: Field)
    requires Sound(f) && f.store.redo != [] && Redid(f.store, g.store, f.text, f.cursor, g.text, g.cursor, Done)
    requires OneTextOn(f, g) && Upright(g) && g.future == f.future[1..]
    ensures Sound(g) && OneStepOn(f, g)
  {
    var a, r, e := f.store.pool, f.store.pool.recs[f.store.pool.redoPoint], f.store.redo[0];
    AheadAfterRedo(f.text, f.store.redo, f.future);
    assert !Cuts(a, r.deleteLength);
  }

  /** Moving the cursor and the selection leaves both ways as they are. */
  lemma {:induction false} CursorMoved(f: Field, g: Field)
    requires Upright(f) && g == f.(cursor := g.cursor, selectStart := g.selectStart, selectEnd := g.selectEnd)
    requires 0 <= g.cursor && 0 <= g.selectStart && 0 <= g.selectEnd
    ensures Upright(g) && (Sound(f) ==> Sound(g))
  {
  }

  /** The text with the characters from `lo` up to `hi` taken out. */
  function Without(text: string, lo: int, hi: int): string
    requires 0 <= lo <= hi <= |text|
  {
    text[..lo] + text[hi..]
  }

  // ----- The selection -----

  /** Where typing or pasting puts its characters, and the end of what it replaces: the
      selection, or nothing at the cursor, cut off at the end of the text. */
  function Spot(f: Field): int {
    Min(|f.text|, if Selects(f) then Min(f.selectStart, f.selectEnd) else f.cursor)
  }

  function SpotEnd(f: Field): int {
    if Selects(f) then Min(|f.text|, Max(f.selectStart, f.selectEnd)) else Spot(f)
  }

  predicate Selects(f: Field) {
    f.selectStart != f.selectEnd
  }

  ghost predicate Clamped(f: Field, g: Field) {
    && g == f.(cursor := g.cursor, selectStart := g.selectStart, selectEnd := g.selectEnd)
    && (Selects(f) ==> g.selectStart == Min(|f.text|, f.selectStart) && g.selectEnd == Min(|f.text|, f.selectEnd))
    && (!Selects(f) ==> g.selectStart == f.selectStart && g.selectEnd == f.selectEnd)
    && g.cursor == Min(|f.text|, if Selects(f) && !Selects(g) then g.selectStart else f.cursor)
  }

  lemma {:induction false} SameSpot(f: Field, g: Field)
    requires Upright(f) && Clamped(f, g)
    ensures Upright(g) && (Sound(f) ==> Sound(g)) && Spot(g) == Spot(f) && SpotEnd(g) == SpotEnd(f)
    ensures 0 <= Spot(f) <= SpotEnd(f) <= |f.text|
    ensures if Selects(g) then Min(g.selectStart, g.selectEnd) == Spot(f) < SpotEnd(f) == Max(g.selectStart, g.selectEnd)
      else Spot(f) == SpotEnd(f) == g.cursor
  {
    CursorMoved(f, g);
  }

  /** The characters from `lo` up to `hi` are gone, and the cursor is there. */
  ghost predicate Gone(f: Field, g: Field, lo: int, hi: int) {
    && 0 <= lo <= hi <= |f.text| && Sound(g)
    && g.text == Without(f.text, lo, hi) && g.past == Remembered(f.past, f.store.undo, f.text, hi - lo)
    && g.cursor == g.selectStart == g.selectEnd == lo
  }

  /** The selected characters are gone, and the cursor is where they were. */
  ghost predicate SelectionGone(f: Field, g: Field) {
    var lo, hi := Spot(f), SpotEnd(f);
    && 0 <= lo <= hi <= |f.text| && Upright(g) && (Sound(f) ==> Sound(g)) && !Selects(g)
    && g.text == Without(f.text, lo, hi) && g.cursor == lo
    && if lo < hi then Sound(g) && g.past == Remembered(f.past, f.store.undo, f.text, hi - lo)
       else g.past == f.past && g.future == f.future && g.text == f.text && g.store == f.store
  }

  lemma {:induction false} SelectionGoes(f: Field, m: Field, g: Field)
    requires Upright(f) && Clamped(f, m)
    requires if Selects(m) then Gone(m, g, Min(m.selectStart, m.selectEnd), Max(m.selectStart, m.selectEnd)) else g == m
    ensures SelectionGone(f, g)
  {
    SameSpot(f, m);
    if Selects(m) {
      assert Sound(g) && Spot(f) < SpotEnd(f);
    } else {
      NothingGone(f.text, Spot(f));
    }
  }

  lemma {:induction false} NothingGone(s: string, at: int)
    requires 0 <= at <= |s|
    ensures Without(s, at, at) == s
  {
  }

  /** `s` has taken the place of the selection, and the text without it is the newest one
      remembered. */
  ghost predicate PutOver(f: Field, g: Field, s: string) {
    var lo, hi := Spot(f), SpotEnd(f);
    && 0 <= lo <= hi <= |f.text| && Sound(g)
    && g.text == f.text[..lo] + s + f.text[hi..] && g.cursor == lo + |s|
    && g.past != [] && g.past[|g.past| - 1] == Without(f.text, lo, hi)
  }

  lemma {:induction false} PutOverIs(f: Field, m: Field, g: Field, s: string)
    requires SelectionGone(f, m) && Sound(g)
    requires g.text == Replaced(m.text, m.cursor, 0, s) && g.cursor == m.cursor + |s|
    requires g.past == Remembered(m.past, m.store.undo, m.text, 0)
    ensures PutOver(f, g, s)
  {
    var lo, hi := Spot(f), SpotEnd(f);
    assert m.text[..lo] == f.text[..lo] && m.text[lo..] == f.text[hi..];
    RememberedLast(m.past, m.store.undo, m.text, 0);
  }

  /** The character at the cursor has given way to `c`, and the text before is the newest
      one remembered. */
  ghost predicate WrittenOver(f: Field, g: Field, c: char) {
    && 0 <= f.cursor < |f.text| && Sound(g)
    && g.text == f.text[..f.cursor] + [c] + f.text[f.cursor + 1..] && g.cursor == f.cursor + 1
    && g.past != [] && g.past[|g.past| - 1] == f.text
  }

  lemma {:induction false} WrittenOverIs(f: Field, g: Field, c: char)
    requires 0 <= f.cursor < |f.text| && Sound(g) && g.cursor == f.cursor + 1
    requires g.text == Replaced(f.text, f.cursor, 1, [c]) && g.past == Remembered(f.past, f.store.undo, f.text, 1)
    ensures WrittenOver(f, g, c)
  {
    RememberedLast(f.past, f.store.undo, f.text, 1);
  }

  lemma {:induction false} RememberedLast(past: seq<string>, undo: seq<Edit>, text: string, n: nat)
    requires n <= CHARS
    ensures var past' := Remembered(past, undo, text, n); past' != [] && past'[|past'| - 1] == text
  {
  }

  class TextEdit {
    var text: string
    var cursor: int
    var selectStart: int
    var selectEnd: int
    var insertMode: bool
    var singleLine: bool
    const store: UndoState

    /** The texts undoing leads back through (newest last), and those redoing
        leads forward through (next first). */
    ghost var past: seq<string>
    ghost var future: seq<string>

    ghost predicate Standing()
      reads this, store, store.rec, store.chars
    {
      Upright(View())
    }

    ghost predicate Valid()
      reads this, store, store.rec, store.chars
    {
      Sound(View())
    }

    ghost function View(): Field
      reads this, store, store.rec, store.chars
    {
      Field(text, cursor, selectStart, selectEnd, past, future, store.View())
    }

    constructor (text: string, singleLine: bool)
      ensures Valid() && this.text == text && past == [] && future == [] && store.undo == [] && store.redo == []
      ensures fresh(store) && fresh(store.rec) && fresh(store.chars)
    {
      this.text, this.singleLine, insertMode := text, singleLine, false;
      cursor, selectStart, selectEnd := 0, 0, 0;
      store := new UndoState();
      past, future := [], [];
    }

    /** Takes `n` characters out at `where` and puts `put` in. */
    static method PutIn(before: string, where: int, n: nat, put: string) returns (after: string)
      requires 0 <= where && where + n <= |before|
      ensures after == Replaced(before, where, n, put)
    {
      after := before[..where] + before[where + n..];
      after := after[..where] + put + after[where..];
    }

    /** Takes `n` characters out at `where`, puts `put` in their place, and leaves
        the record that takes it back. */
    method Change(where: int, n: nat, put: string)
      requires Standing() && 0 <= where && where + n <= |text|
      modifies this`text, this`past, this`future, store, store.rec, store.chars
      ensures Valid() && text == Replaced(old(text), where, n, put)
      ensures past == Remembered(old(past), old(store.undo), old(text), n) && future == []
      ensures store.undo == if n > CHARS then []
        else KeptFor(old(store.undo), n) + [Edit(where, old(text)[where..where + n], |put|)]
    {
      ghost var f := View();
      store.MakeUndo(text, where, n, |put|);
      past, future := Remembered(past, f.store.undo, text, n), [];
      text := PutIn(text, where, n, put);
      ChangedSound(f, View(), where, n, put);
    }

    /** Takes `n` characters out at `where`. */
    method Delete(where: int, n: nat)
      requires Standing() && 0 <= where && where + n <= |text|
      modifies this`text, this`past, this`future, store, store.rec, store.chars
      ensures Valid() && text == Without(old(text), where, where + n)
      ensures past == Remembered(old(past), old(store.undo), old(text), n) && future == []
    {
      ghost var before := text;
      Change(where, n, []);
      assert before[..where] + [] == before[..where];
    }

    /** Undoes the newest change still remembered, or gives up. */
    method Undo() returns (step: Step)
      requires Standing()
      modifies this`text, this`cursor, this`past, this`future, store, store.rec, store.chars
      ensures WentBack(old(View()), View(), step)
    {
      ghost var f := View();
      text, cursor, step := store.Undo(text, cursor);
      if step == Done {
        past, future := if past == [] then [] else past[..|past| - 1], [f.text] + future;
      }
      WentBackIs(f, View(), step);
    }

    /** Redoes the newest undone change, or whatever the newest redo record tells. */
    method Redo() returns (step: Step)
      requires Standing()
      modifies this`text, this`cursor, this`past, this`future, store, store.rec, store.chars
      ensures WentForward(old(View()), View(), step)
    {
      ghost var f := View();
      text, cursor, step := store.Redo(text, cursor);
      if step == Done {
        past, future := PastOn(f, text), FutureOn(f);
      }
      WentForwardIs(f, View(), step);
    }

    predicate HasSelection()
      reads this
    {
      selectStart != selectEnd
    }

    /** Brings the cursor and the selection inside the text. */
    method Clamp()
      modifies this`cursor, this`selectStart, this`selectEnd
      ensures Clamped(old(View()), View())
    {
      var n := |text|;
      if HasSelection() {
        if selectStart > n { selectStart := n; }
        if selectEnd > n { selectEnd := n; }
        if selectStart == selectEnd { cursor := selectStart; }
      }
      if cursor > n { cursor := n; }
    }

    /** Takes the selected characters out. */
    method DeleteSelection()
      requires Standing()
      modifies this`text, this`cursor, this`selectStart, this`selectEnd, this`past, this`future
      modifies store, store.rec, store.chars
      ensures SelectionGone(old(View()), View())
    {
      ghost var f := View();
      Clamp();
      ghost var m := View();
      SameSpot(f, m);
      if HasSelection() {
        TakeSelection();
      }
      SelectionGoes(f, m, View());
    }

    method TakeSelection()
      requires Standing() && HasSelection() && selectStart <= |text| && selectEnd <= |text|
      modifies this`text, this`cursor, this`selectStart, this`selectEnd, this`past, this`future
      modifies store, store.rec, store.chars
      ensures Gone(old(View()), View(), old(Min(selectStart, selectEnd)), old(Max(selectStart, selectEnd)))
    {
      if selectStart < selectEnd {
        TakeOut(selectStart, selectEnd);
      } else {
        TakeOut(selectEnd, selectStart);
      }
    }

    method TakeOut(lo: int, hi: int)
      requires Standing() && 0 <= lo <= hi <= |text|
      modifies this`text, this`cursor, this`selectStart, this`selectEnd, this`past, this`future
      modifies store, store.rec, store.chars
      ensures Gone(old(View()), View(), lo, hi)
    {
      Delete(lo, hi - lo);
      ghost var f := View();
      cursor, selectStart, selectEnd := lo, lo, lo;
      CursorMoved(f, View());
    }

    /** Takes the selected characters out, and says whether there were any. */
    method Cut() returns (cut: bool)
      requires Standing()
      modifies this`text, this`cursor, this`selectStart, this`selectEnd, this`past, this`future
      modifies store, store.rec, store.chars
      ensures cut == old(HasSelection())
      ensures if cut then SelectionGone(old(View()), View()) else View() == old(View())
    {
      cut := false;
      if HasSelection() {
        DeleteSelection();
        cut := true;
      }
    }

    /** Puts `s` in the place of the selection; one undo takes `s` out again. */
    method PutText(s: string)
      requires Standing()
      modifies this`text, this`cursor, this`selectStart, this`selectEnd, this`past, this`future
      modifies store, store.rec, store.chars
      ensures PutOver(old(View()), View(), s)
    {
      ghost var f := View();
      DeleteSelection();
      ghost var m := View();
      Change(cursor, 0, s);
      MoveBehind(|s|);
      PutOverIs(f, m, View(), s);
    }

    method MoveBehind(n: nat)
      requires Standing()
      modifies this`cursor
      ensures View() == old(View()).(cursor := old(cursor) + n) && Standing() && (old(Valid()) ==> Valid())
    {
      ghost var f := View();
      cursor := cursor + n;
      CursorMoved(f, View());
    }

    method Paste(s: string)
      requires Standing()
      modifies this`text, this`cursor, this`selectStart, this`selectEnd, this`past, this`future
      modifies store, store.rec, store.chars
      ensures PutOver(old(View()), View(), s)
    {
      ghost var f := View();
      Clamp();
      SameSpot(f, View());
      PutText(s);
    }

    /** Writes over the character at the cursor. */
    method TypeOver(c: char)
      requires Standing() && cursor < |text|
      modifies this`text, this`cursor, this`past, this`future, store, store.rec, store.chars
      ensures WrittenOver(old(View()), View(), c)
    {
      ghost var f := View();
      Change(cursor, 1, [c]);
      MoveBehind(1);
      WrittenOverIs(f, View(), c);
    }

    /** A character key: overwrites in insert mode, otherwise replaces the
        selection; a single line takes no newline. */
    method TypeChar(c: char)
      requires Standing()
      modifies this`text, this`cursor, this`selectStart, this`selectEnd, this`past, this`future
      modifies store, store.rec, store.chars
      ensures if c == '\n' && singleLine then View() == old(View())
        else if old(insertMode && !HasSelection() && cursor < |text|) then WrittenOver(old(View()), View(), c)
        else PutOver(old(View()), View(), [c])
    {
      if c == '\n' && singleLine {
        return;
      }
      if insertMode && !HasSelection() && cursor < |text| {
        TypeOver(c);
      } else {
        PutText([c]);
      }
    }
  }
}
