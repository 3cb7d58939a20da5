/** The undo store of the text editor: one array of records and one array of
    characters, each shared by the undo stack growing up from its beginning and
    the redo stack growing down from its end. */
module UndoStore {
  import opened Edits

  /** `storage` is the index of the record's characters, -1 when it has none. */
  datatype Record = Record(where: int, insertLength: int, deleteLength: int, storage: int)

  /** Record `r` stores edit `e`, its characters at `at`. */
  ghost predicate Stores(r: Record, chars: seq<char>, e: Edit, at: int) {
    && r.where == e.where && r.insertLength == |e.restore| && r.deleteLength == e.delete
    && r.storage == (if e.restore == [] then -1 else at)
    && (e.restore != [] ==>
          0 <= at && at + |e.restore| <= |chars| && chars[at..at + |e.restore|] == e.restore)
  }

  /** Undo records own consecutive stretches from the beginning of `chars`. */
  ghost predicate UndoAt(recs: seq<Record>, chars: seq<char>, es: seq<Edit>, i: nat) {
    i < |es| <= |recs| && Stores(recs[i], chars, es[i], Size(es[..i]))
  }

  ghost predicate UndoSide(recs: seq<Record>, chars: seq<char>, es: seq<Edit>) {
    forall i :: 0 <= i < |es| ==> UndoAt(recs, chars, es, i)
  }

  /** Redo records, newest first, own consecutive stretches up to its end. */
  ghost predicate RedoAt(recs: seq<Record>, chars: seq<char>, es: seq<Edit>, i: nat) {
    i < |es| <= |recs| && Stores(recs[|recs| - |es| + i], chars, es[i], |chars| - Size(es[i..]))
  }

  ghost predicate RedoSide(recs: seq<Record>, chars: seq<char>, es: seq<Edit>) {
    forall i :: 0 <= i < |es| ==> RedoAt(recs, chars, es, i)
  }

  /** Redoing from the top down always finds room for the characters the redone
      steps take out of the text. */
  ghost predicate Room(low: int, high: int, redo: seq<Edit>)
    decreases |redo|
  {
    redo == [] || (low + redo[0].delete <= high && Room(low + redo[0].delete, high + |redo[0].restore|, redo[1..]))
  }

  // ----- What moving records and characters does to a side -----

  function Moved(r: Record, d: int): Record {
    if r.storage >= 0 then r.(storage := r.storage + d) else r
  }

  /** A stretch inside a moved stretch moves along. */
  lemma {:induction false} SliceMoved(chars: seq<char>, chars': seq<char>, lo: int, hi: int, d: int, at: int, n: nat)
    requires 0 <= lo <= hi <= |chars| && 0 <= lo + d && hi + d <= |chars'|
    requires chars'[lo + d..hi + d] == chars[lo..hi]
    requires lo <= at && at + n <= hi
    ensures chars'[at + d..at + d + n] == chars[at..at + n]
  {
    var a, b := chars'[at + d..at + d + n], chars[at..at + n];
    forall k | 0 <= k < n ensures a[k] == b[k] {
      assert chars'[lo + d..hi + d][at - lo + k] == chars[lo..hi][at - lo + k];
    }
  }

  lemma {:induction false} StoresMoved(r: Record, chars: seq<char>, e: Edit, at: int, chars': seq<char>, d: int)
    requires Stores(r, chars, e, at) && |chars'| == |chars| && 0 <= at <= at + |e.restore| <= |chars|
    requires 0 <= at + d && at + d + |e.restore| <= |chars|
    requires chars'[at + d..at + d + |e.restore|] == chars[at..at + |e.restore|]
    ensures Stores(Moved(r, d), chars', e, at + d)
  {}

  lemma {:induction false} Offsets(es: seq<Edit>, i: nat)
    requires 0 < |es| && i < |es|
    ensures Size(es[..1]) == |es[0].restore|
    ensures Size(es[1..]) == Size(es) - |es[0].restore|
    ensures i > 0 ==> Size(es[1..][..i - 1]) == Size(es[..i]) - |es[0].restore|
    ensures |es[0].restore| <= Size(es) && Size(es[..i]) + |es[i].restore| <= Size(es)
    ensures Size(es[i..]) == |es[i].restore| + Size(es[i + 1..]) <= Size(es)
  {
    SizeOne(es[0]);
    SizeOne(es[i]);
    assert es[..1] == [es[0]];
    SizeSplit(es, 1);
    SizeSplit(es, i);
    if i > 0 {
      SizeSplit(es[..i], 1);
      assert es[..i][1..] == es[1..][..i - 1] && es[..i][..1] == es[..1];
    }
    SizeSplit(es[i..], 1);
    assert es[i..][..1] == [es[i]] && es[i..][1..] == es[i + 1..];
  }

  /** Dropping the oldest undo record and closing the gap. */
  lemma {:induction false} UndoShifted(recs: seq<Record>, chars: seq<char>, es: seq<Edit>, recs': seq<Record>, chars': seq<char>)
    requires es != [] && |es| <= |recs| == |recs'| && |chars'| == |chars| && UndoSide(recs, chars, es)
    requires Size(es) <= |chars|
    requires forall k :: 0 <= k < |es| - 1 ==> recs'[k] == Moved(recs[k + 1], -|es[0].restore|)
    requires |es[0].restore| <= Size(es) ==> chars'[0..Size(es) - |es[0].restore|] == chars[|es[0].restore|..Size(es)]
    ensures UndoSide(recs', chars', es[1..])
  {
    var n := |es[0].restore|;
    forall i | 0 <= i < |es| - 1 ensures UndoAt(recs', chars', es[1..], i) {
      assert UndoAt(recs, chars, es, i + 1);
      UndoOneShifted(recs[i + 1], chars, es, i + 1, chars');
      assert recs'[i] == Moved(recs[i + 1], -n);
    }
  }

  lemma {:induction false} UndoOneShifted(r: Record, chars: seq<char>, es: seq<Edit>, i: nat, chars': seq<char>)
    requires 0 < i < |es| && |chars'| == |chars| && Stores(r, chars, es[i], Size(es[..i]))
    requires Size(es) <= |chars|
    requires |es[0].restore| <= Size(es) ==> chars'[0..Size(es) - |es[0].restore|] == chars[|es[0].restore|..Size(es)]
    ensures Stores(Moved(r, -|es[0].restore|), chars', es[1..][i - 1], Size(es[1..][..i - 1]))
  {
    var n, e, at := |es[0].restore|, es[i], Size(es[..i]);
    Offsets(es, i);
    assert n <= at && at + |e.restore| <= Size(es);
    SliceMoved(chars, chars', n, Size(es), -n, at, |e.restore|);
    StoresMoved(r, chars, e, at, chars', -n);
  }

  lemma {:induction false} RedoOneShifted(r: Record, chars: seq<char>, es: seq<Edit>, i: nat, chars': seq<char>)
    requires 0 <= i < |es| - 1 && |chars'| == |chars| && Stores(r, chars, es[i], |chars| - Size(es[i..]))
    requires Size(es) <= |chars| && |es[|es| - 1].restore| <= Size(es)
    requires var n := |es[|es| - 1].restore|;
      chars'[|chars| - Size(es) + n..|chars|] == chars[|chars| - Size(es)..|chars| - n]
    ensures var n := |es[|es| - 1].restore|;
      Stores(Moved(r, n), chars', es[i], |chars| - Size(es[..|es| - 1][i..]))
  {
    var n, e, at := |es[|es| - 1].restore|, es[i], |chars| - Size(es[i..]);
    SuffixShrinks(es, i);
    SliceMoved(chars, chars', |chars| - Size(es), |chars| - n, n, at, |e.restore|);
    StoresMoved(r, chars, e, at, chars', n);
  }

  lemma {:induction false} SuffixShrinks(es: seq<Edit>, i: nat)
    requires i < |es| - 1
    ensures Size(es[..|es| - 1][i..]) == Size(es[i..]) - |es[|es| - 1].restore|
    ensures |es[i].restore| <= Size(es[..|es| - 1][i..]) && Size(es[i..]) <= Size(es)
  {
    var last := |es| - 1;
    var es' := es[..last];
    Offsets(es, i);
    assert es[i..][..|es[i..]| - 1] == es'[i..] && es[i..][|es[i..]| - 1] == es[last];
    Offsets(es', i);
  }

  /** Dropping the oldest redo record and closing the gap. */
  lemma {:induction false} RedoShifted(recs: seq<Record>, chars: seq<char>, es: seq<Edit>, recs': seq<Record>, chars': seq<char>)
    requires es != [] && |es| <= |recs| == |recs'| && |chars'| == |chars| && RedoSide(recs, chars, es)
    requires Size(es) <= |chars| && |es[|es| - 1].restore| <= Size(es)
    requires var n := |es[|es| - 1].restore|;
      && (forall k :: |recs| - |es| < k < |recs| ==> recs'[k] == Moved(recs[k - 1], n))
      && chars'[|chars| - Size(es) + n..|chars|] == chars[|chars| - Size(es)..|chars| - n]
    ensures RedoSide(recs', chars', es[..|es| - 1])
  {
    var last := |es| - 1;
    var es' := es[..last];
    forall i | 0 <= i < last ensures RedoAt(recs', chars', es', i) {
      assert RedoAt(recs, chars, es, i);
      RedoOneShifted(recs[|recs| - |es| + i], chars, es, i, chars');
      assert |recs| - |es'| + i == |recs| - |es| + i + 1;
    }
  }

  /** A side does not depend on what lies beyond its records and characters. */
  lemma {:induction false} UndoFramed(recs: seq<Record>, chars: seq<char>, es: seq<Edit>, recs': seq<Record>, chars': seq<char>)
    requires UndoSide(recs, chars, es) && |es| <= |recs| == |recs'| && Size(es) <= |chars| == |chars'|
    requires forall k :: 0 <= k < |es| ==> recs'[k] == recs[k]
    requires chars'[0..Size(es)] == chars[0..Size(es)]
    ensures UndoSide(recs', chars', es)
  {
    forall i | 0 <= i < |es| ensures UndoAt(recs', chars', es, i) {
      assert UndoAt(recs, chars, es, i);
      Offsets(es, i);
      SliceMoved(chars, chars', 0, Size(es), 0, Size(es[..i]), |es[i].restore|);
    }
  }

  lemma {:induction false} RedoFramed(recs: seq<Record>, chars: seq<char>, es: seq<Edit>, recs': seq<Record>, chars': seq<char>)
    requires RedoSide(recs, chars, es) && |es| <= |recs| == |recs'| && Size(es) <= |chars| == |chars'|
    requires forall k :: |recs| - |es| <= k < |recs| ==> recs'[k] == recs[k]
    requires chars'[|chars| - Size(es)..|chars|] == chars[|chars| - Size(es)..|chars|]
    ensures RedoSide(recs', chars', es)
  {
    forall i | 0 <= i < |es| ensures RedoAt(recs', chars', es, i) {
      assert RedoAt(recs, chars, es, i);
      RedoOneFramed(recs[|recs| - |es| + i], chars, es, i, chars');
    }
  }

  lemma {:induction false} RedoOneFramed(r: Record, chars: seq<char>, es: seq<Edit>, i: nat, chars': seq<char>)
    requires i < |es| && Size(es) <= |chars| == |chars'| && Stores(r, chars, es[i], |chars| - Size(es[i..]))
    requires chars'[|chars| - Size(es)..|chars|] == chars[|chars| - Size(es)..|chars|]
    ensures Stores(r, chars', es[i], |chars| - Size(es[i..]))
  {
    Offsets(es, i);
    SliceMoved(chars, chars', |chars| - Size(es), |chars|, 0, |chars| - Size(es[i..]), |es[i].restore|);
  }

  lemma {:induction false} StoredBelow(chars: seq<char>, chars': seq<char>, at: int, n: int, top: int)
    requires 0 <= at && 0 <= n && at + n <= top <= |chars| == |chars'| && chars'[..top] == chars[..top]
    ensures chars'[at..at + n] == chars[at..at + n]
  {
    SliceMoved(chars, chars', 0, top, 0, at, n);
  }

  lemma {:induction false} StoredAbove(chars: seq<char>, chars': seq<char>, at: int, n: int, from: int)
    requires 0 <= from <= at && 0 <= n && at + n <= |chars| == |chars'| && chars'[from..] == chars[from..]
    ensures chars'[at..at + n] == chars[at..at + n]
  {
    SliceMoved(chars, chars', from, |chars|, 0, at, n);
  }

  lemma {:induction false} UndoPushed(recs: seq<Record>, chars: seq<char>, es: seq<Edit>, e: Edit)
    requires UndoSide(recs, chars, es) && |es| < |recs| && Stores(recs[|es|], chars, e, Size(es))
    ensures UndoSide(recs, chars, es + [e]) && Size(es + [e]) == Size(es) + |e.restore|
  {
    var fs := es + [e];
    assert fs[..|es|] == es;
    forall i | 0 <= i < |fs| ensures UndoAt(recs, chars, fs, i) {
      if i < |es| {
        assert UndoAt(recs, chars, es, i) && fs[..i] == es[..i];
      }
    }
  }

  lemma {:induction false} UndoPopped(recs: seq<Record>, chars: seq<char>, es: seq<Edit>)
    requires es != [] && |es| <= |recs| && UndoSide(recs, chars, es)
    ensures UndoSide(recs, chars, es[..|es| - 1]) && Size(es[..|es| - 1]) == Size(es) - |es[|es| - 1].restore|
    ensures Stores(recs[|es| - 1], chars, es[|es| - 1], Size(es[..|es| - 1]))
  {
    var fs := es[..|es| - 1];
    assert UndoAt(recs, chars, es, |es| - 1);
    forall i | 0 <= i < |fs| ensures UndoAt(recs, chars, fs, i) {
      assert UndoAt(recs, chars, es, i) && fs[..i] == es[..i];
    }
  }

  lemma {:induction false} RedoPushed(recs: seq<Record>, chars: seq<char>, es: seq<Edit>, e: Edit)
    requires RedoSide(recs, chars, es) && |es| < |recs|
    requires Stores(recs[|recs| - |es| - 1], chars, e, |chars| - Size(es) - |e.restore|)
    ensures RedoSide(recs, chars, [e] + es) && Size([e] + es) == Size(es) + |e.restore|
  {
    var fs := [e] + es;
    SizeConcat([e], es);
    SizeOne(e);
    assert fs[0..] == fs;
    forall i | 0 <= i < |fs| ensures RedoAt(recs, chars, fs, i) {
      if i > 0 {
        var k := i - 1;
        assert RedoAt(recs, chars, es, k);
        assert fs[i..] == es[k..] && fs[i] == es[k];
        assert |recs| - |fs| + i == |recs| - |es| + k;
      }
    }
  }

  lemma {:induction false} RedoPopped(recs: seq<Record>, chars: seq<char>, es: seq<Edit>)
    requires es != [] && |es| <= |recs| && RedoSide(recs, chars, es)
    ensures RedoSide(recs, chars, es[1..]) && Size(es[1..]) == Size(es) - |es[0].restore|
    ensures Stores(recs[|recs| - |es|], chars, es[0], |chars| - Size(es))
  {
    assert RedoAt(recs, chars, es, 0) && es[0..] == es;
    Offsets(es, 0);
    forall i | 0 <= i < |es[1..]| ensures RedoAt(recs, chars, es[1..], i) {
      RedoOnePopped(recs, chars, es, i);
    }
  }

  lemma {:induction false} RedoOnePopped(recs: seq<Record>, chars: seq<char>, es: seq<Edit>, i: nat)
    requires i + 1 < |es| <= |recs| && RedoSide(recs, chars, es)
    ensures RedoAt(recs, chars, es[1..], i)
  {
    assert RedoAt(recs, chars, es, i + 1) && es[1..][i..] == es[i + 1..];
  }

  /** Two records tell the same step. */
  predicate SameStep(r: Record, s: Record) {
    r.where == s.where && r.insertLength == s.insertLength && r.deleteLength == s.deleteLength
  }

  predicate Tells(r: Record, e: Edit) {
    r.where == e.where && r.insertLength == |e.restore| && r.deleteLength == e.delete
  }

  // ----- What discarding redo records gives back -----

  function Freed(r: Record): int {
    if r.storage >= 0 then r.insertLength else 0
  }

  /** The characters that the records from slot `k` on would give back. */
  function Released(recs: seq<Record>, k: nat): int
    requires k <= |recs|
    decreases |recs| - k
  {
    if k == |recs| then 0 else Freed(recs[k]) + Released(recs, k + 1)
  }

  ghost predicate Sane(recs: seq<Record>, p: nat) {
    forall k :: p <= k < |recs| ==> 0 <= recs[k].insertLength
  }

  lemma {:induction false} ReleasedRises(recs: seq<Record>, j: nat, k: nat)
    requires j <= k <= |recs| && Sane(recs, j)
    ensures 0 <= Released(recs, k) <= Released(recs, j)
    decreases |recs| - j
  {
    if j < |recs| { ReleasedRises(recs, j + 1, if j < k then k else j + 1); }
  }

  /** On a sound redo side they are exactly the characters the steps restore. */
  lemma {:induction false} ReleasedIsSize(recs: seq<Record>, chars: seq<char>, es: seq<Edit>, i: nat)
    requires RedoSide(recs, chars, es) && i <= |es| <= |recs|
    ensures Released(recs, |recs| - |es| + i) == Size(es[i..])
    decreases |es| - i
  {
    if i < |es| {
      assert RedoAt(recs, chars, es, i);
      Offsets(es, i);
      ReleasedIsSize(recs, chars, es, i + 1);
    } else {
      assert es[i..] == [];
    }
  }

  /** Some number of oldest redo records, once discarded, makes the redo characters
      begin at `need` or later without pushing them off the end. */
  ghost predicate Makeable(recs: seq<Record>, p: nat, rc: int, need: int) {
    exists k: nat :: MadeAt(recs, p, rc, need, k)
  }

  ghost predicate MadeAt(recs: seq<Record>, p: nat, rc: int, need: int, k: nat) {
    p <= k <= |recs| && need <= rc + Released(recs, k) <= CHARS
  }

  /** None does when all of them together give back too little, or when one that is
      needed gives back too much. */
  lemma {:induction false} NotMakeable(recs: seq<Record>, p: nat, rc: int, need: int, k: nat)
    requires p <= k <= |recs| && Sane(recs, p) && rc + Released(recs, k) < need
    requires p < k ==> rc + Released(recs, k - 1) > CHARS
    ensures !Makeable(recs, p, rc, need)
    ensures p < k && need <= CHARS ==> need <= rc + Released(recs, p)
  {
    forall j: nat | p <= j <= |recs| ensures !MadeAt(recs, p, rc, need, j) {
      if k <= j { ReleasedRises(recs, k, j); } else { ReleasedRises(recs, j, k - 1); }
    }
    if p < k { ReleasedRises(recs, p, k - 1); }
  }

  /** After discards, each slot holds what the one `m` slots below held at first, its
      characters `n` further on. */
  ghost predicate ShiftedBy(recs: seq<Record>, was: seq<Record>, p: nat, m: nat, n: int) {
    |recs| == |was| && m <= p && forall k :: p <= k < |recs| ==> MovedAt(recs, was, k, m, n)
  }

  ghost predicate MovedAt(recs: seq<Record>, was: seq<Record>, k: nat, m: nat, n: int) {
    m <= k < |recs| == |was| && recs[k] == Moved(was[k - m], n)
  }

  /** The slots once the oldest record is gone: those above `p` hold what the one
      below held, their characters `n` further on. */
  ghost predicate Dropped(recs: seq<Record>, was: seq<Record>, p: nat, n: int) {
    && |recs| == |was| && p < |recs|
    && (forall k :: 0 <= k < p ==> recs[k] == was[k])
    && SameStep(recs[p], was[p])
    && (forall k :: p < k < |recs| ==> recs[k] == Moved(was[k - 1], n))
  }

  /** All records from `p` on but the last have their characters `n` further on. */
  ghost predicate MovedFrom(recs: seq<Record>, was: seq<Record>, p: nat, n: int) {
    |recs| == |was| && forall k :: 0 <= k < |recs| ==>
      recs[k] == if p <= k < |recs| - 1 then Moved(was[k], n) else was[k]
  }

  /** The records from `p` on stand one slot further up. */
  ghost predicate UpOne(recs: seq<Record>, mid: seq<Record>, p: nat) {
    |recs| == |mid| && p < |recs| && recs[..p + 1] == mid[..p + 1] && recs[p + 1..] == mid[p..|mid| - 1]
  }

  lemma {:induction false} MovedUp(was: seq<Record>, mid: seq<Record>, recs: seq<Record>, p: nat, n: int)
    requires MovedFrom(mid, was, p, n) && UpOne(recs, mid, p)
    ensures Dropped(recs, was, p, n)
  {
    forall k | 0 <= k <= p ensures recs[k] == mid[k] {
      assert recs[..p + 1][k] == mid[..p + 1][k];
    }
    forall k | p < k < |recs| ensures recs[k] == Moved(was[k - 1], n) {
      assert recs[p + 1..][k - p - 1] == mid[p..|mid| - 1][k - p - 1] && mid[k - 1] == Moved(was[k - 1], n);
    }
  }

  lemma {:induction false} ShiftOnce(was: seq<Record>, recs: seq<Record>, recs': seq<Record>, p: nat, m: nat, n: nat, n': nat)
    requires ShiftedBy(recs, was, p, m, n) && Dropped(recs', recs, p, n')
    ensures ShiftedBy(recs', was, p + 1, m + 1, n + n')
  {
    var m', total := m + 1, n + n';
    forall k | p < k < |recs'| ensures MovedAt(recs', was, k, m', total) {
      assert MovedAt(recs, was, k - 1, m, n);
    }
  }

  /** What is discarded does not depend on the slots below. */
  lemma {:induction false} ReleasedSame(recs: seq<Record>, recs': seq<Record>, p: nat, k: nat)
    requires p <= k <= |recs| == |recs'| && forall i :: p <= i < |recs| ==> recs'[i] == recs[i]
    ensures Released(recs', k) == Released(recs, k)
    decreases |recs| - k
  {
    if k < |recs| { ReleasedSame(recs, recs', p, k + 1); }
  }

  lemma {:induction false} MakeableSame(recs: seq<Record>, recs': seq<Record>, p: nat, rc: int, need: int)
    requires p <= |recs| == |recs'| && forall i :: p <= i < |recs| ==> recs'[i] == recs[i]
    ensures Makeable(recs', p, rc, need) <==> Makeable(recs, p, rc, need)
  {
    forall k: nat | p <= k <= |recs| ensures MadeAt(recs', p, rc, need, k) <==> MadeAt(recs, p, rc, need, k) {
      ReleasedSame(recs, recs', p, k);
    }
  }

  /** After `m` discards. */
  ghost predicate Dug(was: seq<Record>, p: nat, rc: int, m: nat, recs: seq<Record>, rc': int) {
    && |was| == |recs| && p + m <= |was| && rc <= rc' && rc' == rc + Released(was, |was| - m)
    && ShiftedBy(recs, was, p + m, m, rc' - rc)
    && (forall i :: 0 <= i < p ==> recs[i] == was[i])
    && (p + m < |was| ==> SameStep(recs[p + m], was[p]))
    && (m > 0 ==> SameStep(recs[p + m - 1], was[p]))
  }

  /** As few as will do have been discarded, and at least one. */
  ghost predicate DugFor(was: seq<Record>, p: nat, rc: int, need: int, recs: seq<Record>, p': nat, rc': int) {
    && p < p' <= |was| && Dug(was, p, rc, p' - p, recs, rc')
    && need <= rc' && rc + Released(was, |was| - (p' - p) + 1) < need
  }

  lemma {:induction false} DugOnce(was: seq<Record>, p: nat, rc: int, m: nat, recs: seq<Record>, rc1: int,
                                   recs': seq<Record>, n: int)
    requires Dug(was, p, rc, m, recs, rc1) && p + m < |was| && Dropped(recs', recs, p + m, n)
    requires n == Freed(recs[|recs| - 1]) == Freed(was[|was| - 1 - m]) && 0 <= n
    ensures Dug(was, p, rc, m + 1, recs', rc1 + n)
  {
    ShiftOnce(was, recs, recs', p + m, m, rc1 - rc, n);
    var q := p + m + 1;
    if q < |was| { assert recs'[q] == Moved(recs[q - 1], n); }
  }

  // ----- The state -----

  /** The arrays and the pointers as values. */
  datatype Pool = Pool(recs: seq<Record>, chars: seq<char>, redoPoint: int, undoCharPoint: int, redoCharPoint: int)

  /** The undo stack, its newest record in slot `n` - 1. */
  ghost predicate UndoStack(a: Pool, n: int, undo: seq<Edit>) {
    && |a.recs| == STATES && |a.chars| == CHARS
    && n == |undo| <= STATES && a.undoCharPoint == Size(undo) <= CHARS && UndoSide(a.recs, a.chars, undo)
  }

  ghost predicate RedoStack(a: Pool, redo: seq<Edit>) {
    && |a.recs| == STATES && |a.chars| == CHARS
    && 0 <= a.redoPoint == STATES - |redo| && 0 <= a.redoCharPoint == CHARS - Size(redo)
    && RedoSide(a.recs, a.chars, redo)
  }

  /** The redo side, whatever its records tell: the pointers are in order, and no
      record gives back a negative number of characters. Redoing what such records
      tell can take the redo characters past the end of their array. */
  ghost predicate Bounded(a: Pool) {
    && |a.recs| == STATES && |a.chars| == CHARS
    && 0 <= a.redoPoint <= STATES && 0 <= a.redoCharPoint && Sane(a.recs, a.redoPoint)
  }

  /** They do begin inside it. */
  ghost predicate Contained(a: Pool) {
    Bounded(a) && a.redoCharPoint <= CHARS
  }

  /** What survives even an undo that spoils the redo side. */
  ghost predicate Stands(a: Pool, n: int, undo: seq<Edit>) {
    UndoStack(a, n, undo) && Bounded(a) && n <= a.redoPoint && a.undoCharPoint <= a.redoCharPoint
  }

  /** Both stacks in place, apart from each other, and with room to redo. */
  ghost predicate BothStand(a: Pool, n: int, undo: seq<Edit>, redo: seq<Edit>) {
    Stands(a, n, undo) && RedoStack(a, redo) && Room(a.undoCharPoint, a.redoCharPoint, redo)
  }

  /** A new record above the undo stack, with its characters, once redo is empty. */
  lemma {:induction false} RecordAdded(a: Pool, b: Pool, n: nat, undo: seq<Edit>, e: Edit)
    requires BothStand(a, n, undo, []) && n < STATES && a.undoCharPoint + |e.restore| <= CHARS
    requires |b.recs| == STATES && |b.chars| == CHARS && b.redoPoint == STATES && b.redoCharPoint == CHARS
    requires b.undoCharPoint == a.undoCharPoint + |e.restore|
    requires (forall i :: 0 <= i < n ==> b.recs[i] == a.recs[i]) && Stores(b.recs[n], b.chars, e, a.undoCharPoint)
    requires b.chars[..a.undoCharPoint] == a.chars[..a.undoCharPoint]
    ensures BothStand(b, n + 1, undo + [e], [])
  {
    SideStands(a, b, undo, n);
    UndoPushed(b.recs, b.chars, undo, e);
  }

  // ----- The two halves of an undo -----

  /** An undo that takes `d` characters out would fill the store with them. */
  predicate Fills(a: Pool, d: int) {
    0 < d && a.undoCharPoint + d >= CHARS
  }

  /** It has to discard redo records first. */
  predicate Squeezes(a: Pool, d: int) {
    0 < d && !Fills(a, d) && a.undoCharPoint + d > a.redoCharPoint
  }

  /** It would keep them past the end of the array. */
  predicate Spills(a: Pool, d: int) {
    0 < d && !Fills(a, d) && a.redoCharPoint > CHARS
  }

  /** The store can take it: nothing has to be discarded for it, or discarding can make
      the room, and the redo characters begin inside the array. */
  ghost predicate Takes(a: Pool, d: int) {
    && !Spills(a, d)
    && (Squeezes(a, d) ==> 0 <= a.redoPoint && Makeable(a.recs, a.redoPoint, a.redoCharPoint, a.undoCharPoint + d))
  }

  /** It is given up: all redo records together make too little room. */
  predicate Swallows(a: Pool, d: int) {
    Squeezes(a, d) && 0 <= a.redoPoint <= |a.recs|
    && a.redoCharPoint + Released(a.recs, a.redoPoint) < a.undoCharPoint + d
  }

  /** The characters it keeps are in the text. */
  predicate Readable(a: Pool, u: Record, text: string) {
    0 < u.deleteLength && !Fills(a, u.deleteLength) ==> 0 <= u.where && u.where + u.deleteLength <= |text|
  }

  /** Nothing is discarded: the record lies below the redo stack, with its
      characters or, when they fill the store, without. */
  ghost predicate Saved(a: Pool, b: Pool, u: Record, text: string) {
    var p, rc, d := a.redoPoint, b.redoCharPoint, u.deleteLength;
    && 0 < p == b.redoPoint <= |a.recs| == |b.recs| && b.undoCharPoint == a.undoCharPoint && |b.chars| == |a.chars|
    && (forall i :: 0 <= i < |a.recs| && i != p - 1 ==> b.recs[i] == a.recs[i])
    && if d == 0 || Fills(a, d)
       then b.chars == a.chars && rc == a.redoCharPoint && b.recs[p - 1] == Record(u.where, 0, u.insertLength, -1)
       else
         && 0 <= rc == a.redoCharPoint - d <= a.redoCharPoint <= |a.chars|
         && b.recs[p - 1] == Record(u.where, d, u.insertLength, rc)
         && b.chars[..rc] == a.chars[..rc] && b.chars[a.redoCharPoint..] == a.chars[a.redoCharPoint..]
         && 0 <= u.where && 0 <= d && u.where + d <= |text| && b.chars[rc..a.redoCharPoint] == Taken(text, u.where, d)
  }

  /** Just enough of the oldest records went for `d` more characters. The others and
      their characters have moved up. The new record is in the last slot they left, and
      tells what the newest of them told. */
  ghost predicate Discarded(a: Pool, b: Pool, d: int) {
    && 0 <= a.redoPoint < b.redoPoint <= |a.recs| == |b.recs| && 0 <= b.redoCharPoint
    && var m, n := b.redoPoint - a.redoPoint, b.redoCharPoint + d - a.redoCharPoint;
      && a.redoCharPoint + Released(a.recs, |a.recs| - m) == b.redoCharPoint + d
      && a.redoCharPoint + Released(a.recs, |a.recs| - m + 1) < a.undoCharPoint + d
      && ShiftedBy(b.recs, a.recs, b.redoPoint, m, n)
      && SameStep(b.recs[b.redoPoint - 1], a.recs[a.redoPoint]) && b.recs[b.redoPoint - 1].storage == b.redoCharPoint
      && 0 <= a.redoCharPoint <= a.redoCharPoint + n <= |a.chars| == |b.chars|
      && b.chars[b.redoCharPoint + d..] == a.chars[a.redoCharPoint..|a.chars| - n]
  }

  /** Records went for the new one, and its characters are in. */
  ghost predicate Squeezed(a: Pool, b: Pool, u: Record, text: string) {
    && 0 < a.redoPoint <= |a.recs| == |b.recs| && b.undoCharPoint == a.undoCharPoint && |b.chars| == |a.chars|
    && (forall i :: 0 <= i < a.redoPoint - 1 ==> b.recs[i] == a.recs[i])
    && 0 <= a.undoCharPoint <= |a.chars| && b.chars[..a.undoCharPoint] == a.chars[..a.undoCharPoint]
    && b.redoPoint <= |b.recs| && 0 < u.deleteLength && Discarded(a, b, u.deleteLength)
    && KeptIn(b, u.where, u.deleteLength, text)
  }

  /** The redo characters begin with those an undo has taken out. */
  ghost predicate KeptIn(b: Pool, where: int, d: int, text: string) {
    && 0 <= where && 0 <= d && where + d <= |text| && 0 <= b.redoCharPoint && b.redoCharPoint + d <= |b.chars|
    && b.chars[b.redoCharPoint..b.redoCharPoint + d] == Taken(text, where, d)
  }

  /** All redo records went, in vain. */
  ghost predicate Emptied(a: Pool, b: Pool, u: Record) {
    && 0 < a.redoPoint <= |a.recs| == |b.recs| && b.undoCharPoint == a.undoCharPoint && |b.chars| == |a.chars|
    && (forall i :: 0 <= i < a.redoPoint - 1 ==> b.recs[i] == a.recs[i])
    && 0 <= a.undoCharPoint <= |a.chars| && b.chars[..a.undoCharPoint] == a.chars[..a.undoCharPoint]
    && b.redoPoint == |b.recs| && a.undoCharPoint <= b.redoCharPoint < a.undoCharPoint + u.deleteLength
    && b.recs[a.redoPoint - 1] == Record(u.where, u.deleteLength, u.insertLength, -1)
  }

  /** What saving the redo record of `u` comes to. */
  ghost predicate SavedOr(a: Pool, b: Pool, step: Step, u: Record, text: string) {
    && step in {Done, Swallowed, Beyond}
    && (step == Done <==> Takes(a, u.deleteLength) && Readable(a, u, text))
    && (step == Swallowed <==> Swallows(a, u.deleteLength))
    && (step == Done ==> if Squeezes(a, u.deleteLength) then Squeezed(a, b, u, text) else Saved(a, b, u, text))
    && (step == Swallowed ==> Emptied(a, b, u))
  }

  /** None of this depends on what the slot of the new record held. */
  lemma {:induction false} SavedSame(a: Pool, a': Pool, b: Pool, step: Step, u: Record, text: string)
    requires 0 < a.redoPoint <= |a.recs| == |a'.recs| && a' == a.(recs := a'.recs)
    requires forall i :: 0 <= i < |a.recs| && i != a.redoPoint - 1 ==> a'.recs[i] == a.recs[i]
    requires SavedOr(a', b, step, u, text)
    ensures SavedOr(a, b, step, u, text)
  {
    var p := a.redoPoint;
    MakeableSame(a.recs, a'.recs, p, a.redoCharPoint, a.undoCharPoint + u.deleteLength);
    ReleasedSame(a.recs, a'.recs, p, p);
    if step == Done && Squeezes(a, u.deleteLength) { DiscardedSame(a, a', b, u.deleteLength); }
  }

  lemma {:induction false} DiscardedSame(a: Pool, a': Pool, b: Pool, d: int)
    requires 0 < a.redoPoint <= |a.recs| == |a'.recs| && a' == a.(recs := a'.recs)
    requires forall i :: a.redoPoint <= i < |a.recs| ==> a'.recs[i] == a.recs[i]
    requires Discarded(a', b, d)
    ensures Discarded(a, b, d)
  {
    var p, m := a.redoPoint, b.redoPoint - a.redoPoint;
    ReleasedSame(a.recs, a'.recs, p, |a.recs| - m);
    ReleasedSame(a.recs, a'.recs, p, |a.recs| - m + 1);
    var n := b.redoCharPoint + d - a.redoCharPoint;
    forall k | b.redoPoint <= k < |b.recs| ensures MovedAt(b.recs, a.recs, k, m, n) {
      assert MovedAt(b.recs, a'.recs, k, m, n);
    }
  }

  /** What making room for `need` comes to. */
  ghost predicate Roomed(a: Pool, b: Pool, need: int, step: Step) {
    && |b.recs| == |a.recs| && |b.chars| == |a.chars| && b.undoCharPoint == a.undoCharPoint
    && 0 <= a.redoPoint <= |a.recs| && 0 <= a.redoCharPoint <= |a.chars| && step in {Done, Swallowed, Beyond}
    && (step == Done <==> Makeable(a.recs, a.redoPoint, a.redoCharPoint, need))
    && (step == Swallowed <==> a.redoCharPoint + Released(a.recs, a.redoPoint) < need)
    && b.chars[..a.redoCharPoint] == a.chars[..a.redoCharPoint]
    && (forall i :: 0 <= i < a.redoPoint ==> b.recs[i] == a.recs[i])
    && (step == Done ==> need <= b.redoCharPoint <= |b.chars| && 0 <= b.redoPoint)
    && (need <= a.redoCharPoint ==> step == Done && b == a)
    && (need > a.redoCharPoint && step == Done ==>
          TailMoved(a, b) && DugFor(a.recs, a.redoPoint, a.redoCharPoint, need, b.recs, b.redoPoint, b.redoCharPoint))
    && (step == Swallowed ==> b.redoPoint == |b.recs| && a.redoCharPoint <= b.redoCharPoint < need)
  }

  /** One discard of an oldest record. */
  ghost predicate OneLess(a: Pool, b: Pool, ok: bool) {
    && 0 <= a.redoPoint < |a.recs| == |b.recs| && 0 <= a.redoCharPoint <= |a.chars| == |b.chars|
    && b.undoCharPoint == a.undoCharPoint
    && var n := Freed(a.recs[|a.recs| - 1]);
      && b.redoCharPoint == a.redoCharPoint + n && ok == (b.redoCharPoint <= CHARS)
      && b.chars[..a.redoCharPoint] == a.chars[..a.redoCharPoint]
      && (forall k :: 0 <= k < a.redoPoint ==> b.recs[k] == a.recs[k])
      && (ok ==> b.redoPoint == a.redoPoint + 1 && Dropped(b.recs, a.recs, a.redoPoint, n) && TailMoved(a, b))
  }

  /** The redo characters that stay have moved to the end. */
  ghost predicate TailMoved(a: Pool, b: Pool) {
    && 0 <= a.redoCharPoint <= b.redoCharPoint <= CHARS == |a.chars| == |b.chars|
    && b.chars[b.redoCharPoint..CHARS] == a.chars[a.redoCharPoint..CHARS - (b.redoCharPoint - a.redoCharPoint)]
  }

  lemma {:induction false} TailMovedOn(a: Pool, b: Pool, c: Pool)
    requires TailMoved(a, b) && TailMoved(b, c)
    ensures TailMoved(a, c)
  {
    TailsChain(a.chars, b.chars, c.chars, a.redoCharPoint, b.redoCharPoint, c.redoCharPoint);
  }

  lemma {:induction false} TailsChain(x: seq<char>, y: seq<char>, z: seq<char>, i: nat, j: nat, k: nat)
    requires i <= j <= k <= CHARS == |x| == |y| == |z|
    requires y[j..CHARS] == x[i..CHARS - (j - i)] && z[k..CHARS] == y[j..CHARS - (k - j)]
    ensures z[k..CHARS] == x[i..CHARS - (k - i)]
  {
    assert y[j..CHARS - (k - j)] == y[j..CHARS][..CHARS - k];
    assert x[i..CHARS - (k - i)] == x[i..CHARS - (j - i)][..CHARS - k];
  }

  lemma {:induction false} BoundedLess(a: Pool, b: Pool)
    requires Contained(a) && OneLess(a, b, true)
    ensures Contained(b)
  {
    DroppedSane(a.recs, b.recs, a.redoPoint, Freed(a.recs[STATES - 1]));
  }

  lemma {:induction false} LostOldest(a: Pool, b: Pool, ok: bool, redo: seq<Edit>)
    requires RedoStack(a, redo) && OneLess(a, b, ok)
    ensures ok && RedoStack(b, redo[..|redo| - 1])
  {
    OldestFreed(a.recs, a.chars, redo);
    DroppedRedo(a.recs, a.chars, redo, b.recs, b.chars);
  }

  /** Some discards later, none of them in vain. */
  ghost predicate Digging(a: Pool, b: Pool, need: int) {
    && 0 <= a.redoPoint <= b.redoPoint <= |a.recs| && |b.chars| == |a.chars| && b.undoCharPoint == a.undoCharPoint
    && 0 <= a.redoCharPoint <= |a.chars| == CHARS && Sane(a.recs, a.redoPoint)
    && var m := b.redoPoint - a.redoPoint;
      && Dug(a.recs, a.redoPoint, a.redoCharPoint, m, b.recs, b.redoCharPoint) && TailMoved(a, b)
      && b.chars[..a.redoCharPoint] == a.chars[..a.redoCharPoint]
      && (m > 0 ==> a.redoCharPoint < need && a.redoCharPoint + Released(a.recs, |a.recs| - m + 1) < need)
      && (m == 0 ==> b == a)
  }

  lemma {:induction false} DigOn(a: Pool, b: Pool, c: Pool, need: int)
    requires Digging(a, b, need) && b.redoCharPoint < need && OneLess(b, c, true)
    ensures Digging(a, c, need)
  {
    var m, n, rc := b.redoPoint - a.redoPoint, Freed(b.recs[|b.recs| - 1]), a.redoCharPoint;
    assert MovedAt(b.recs, a.recs, |b.recs| - 1, m, b.redoCharPoint - rc);
    TailMovedOn(a, b, c);
    DugOnce(a.recs, a.redoPoint, rc, m, b.recs, b.redoCharPoint, c.recs, n);
    assert c.chars[..b.redoCharPoint][..rc] == c.chars[..rc] && b.chars[..b.redoCharPoint][..rc] == b.chars[..rc];
  }

  lemma {:induction false} DigDone(a: Pool, b: Pool, need: int)
    requires Digging(a, b, need) && need <= b.redoCharPoint <= CHARS
    ensures Roomed(a, b, need, Done)
  {
    var m := b.redoPoint - a.redoPoint;
    assert MadeAt(a.recs, a.redoPoint, a.redoCharPoint, need, |a.recs| - m);
    ReleasedRises(a.recs, a.redoPoint, |a.recs| - m);
  }

  lemma {:induction false} DigFails(a: Pool, b: Pool, need: int)
    requires Digging(a, b, need) && b.redoCharPoint < need && b.redoPoint == |a.recs|
    ensures Roomed(a, b, need, Swallowed)
  {
    NotMakeable(a.recs, a.redoPoint, a.redoCharPoint, need, a.redoPoint);
  }

  lemma {:induction false} DigBeyond(a: Pool, b: Pool, c: Pool, need: int)
    requires Digging(a, b, need) && b.redoCharPoint < need <= CHARS && OneLess(b, c, false)
    ensures Roomed(a, c, need, Beyond)
  {
    var m, rc := b.redoPoint - a.redoPoint, a.redoCharPoint;
    assert MovedAt(b.recs, a.recs, |b.recs| - 1, m, b.redoCharPoint - rc);
    NotMakeable(a.recs, a.redoPoint, rc, need, |a.recs| - m);
    assert c.chars[..b.redoCharPoint][..rc] == c.chars[..rc] && b.chars[..b.redoCharPoint][..rc] == b.chars[..rc];
  }

  /** The taken characters stored right below the redo characters. */
  ghost predicate TakenIn(b: Pool, c: Pool, text: string, u: Record) {
    var rc := c.redoCharPoint;
    && 0 < b.redoPoint <= |b.recs| && |c.chars| == |b.chars| && 0 <= u.where && u.where + u.deleteLength <= |text|
    && 0 <= rc == b.redoCharPoint - u.deleteLength <= b.redoCharPoint <= |b.chars|
    && c == b.(redoCharPoint := rc, chars := c.chars,
               recs := b.recs[b.redoPoint - 1 := b.recs[b.redoPoint - 1].(storage := rc)])
    && c.chars[..rc] == b.chars[..rc] && c.chars[b.redoCharPoint..] == b.chars[b.redoCharPoint..]
    && 0 <= u.deleteLength && c.chars[rc..b.redoCharPoint] == Taken(text, u.where, u.deleteLength)
  }

  /** Room made and characters stored are the first half of an undo. */
  lemma {:induction false} FirstHalfIs(a: Pool, b: Pool, c: Pool, text: string, u: Record)
    requires Roomed(a, b, a.undoCharPoint + u.deleteLength, Done) && TakenIn(b, c, text, u)
    requires 0 < a.redoPoint && 0 <= a.undoCharPoint <= a.redoCharPoint
    requires 0 < u.deleteLength && a.undoCharPoint + u.deleteLength < CHARS == |a.chars|
    requires a.recs[a.redoPoint - 1] == Record(u.where, u.deleteLength, u.insertLength, -1)
    ensures SavedOr(a, c, Done, u, text)
  {
    var n := a.undoCharPoint;
    assert c.chars[..n] == c.chars[..c.redoCharPoint][..n] == b.chars[..c.redoCharPoint][..n]
      == b.chars[..a.redoCharPoint][..n] == a.chars[..n] by {
      assert a.chars[..a.redoCharPoint][..n] == a.chars[..n];
    }
    if Squeezes(a, u.deleteLength) { DugDiscarded(a, b, c, u.deleteLength); }
  }

  lemma {:induction false} GivenUp(a: Pool, b: Pool, step: Step, u: Record, text: string)
    requires Roomed(a, b, a.undoCharPoint + u.deleteLength, step) && step != Done
    requires 0 < a.redoPoint && 0 <= a.undoCharPoint <= a.redoCharPoint
    requires 0 < u.deleteLength && a.undoCharPoint + u.deleteLength < CHARS == |a.chars|
    requires a.recs[a.redoPoint - 1] == Record(u.where, u.deleteLength, u.insertLength, -1)
    ensures SavedOr(a, b, step, u, text)
  {
    var n := a.undoCharPoint;
    assert b.chars[..a.redoCharPoint][..n] == a.chars[..a.redoCharPoint][..n];
    assert b.chars[..n] == b.chars[..a.redoCharPoint][..n] && a.chars[..n] == a.chars[..a.redoCharPoint][..n];
  }

  /** Room has been made, and the record completed in the last slot it left. */
  lemma {:induction false} DugDiscarded(a: Pool, b: Pool, c: Pool, d: int)
    requires 0 <= a.redoPoint && 0 <= b.redoPoint && TailMoved(a, b)
    requires DugFor(a.recs, a.redoPoint, a.redoCharPoint, a.undoCharPoint + d, b.recs, b.redoPoint, b.redoCharPoint)
    requires 0 < b.redoPoint == c.redoPoint && 0 <= c.redoCharPoint == b.redoCharPoint - d
    requires |b.recs| == |c.recs| && c.recs == b.recs[b.redoPoint - 1 := b.recs[b.redoPoint - 1].(storage := c.redoCharPoint)]
    requires |c.chars| == |b.chars| && c.chars[b.redoCharPoint..] == b.chars[b.redoCharPoint..]
    ensures Discarded(a, c, d)
  {
    var m, n := b.redoPoint - a.redoPoint, b.redoCharPoint - a.redoCharPoint;
    forall k | b.redoPoint <= k < |c.recs| ensures MovedAt(c.recs, a.recs, k, m, n) {
      assert MovedAt(b.recs, a.recs, k, m, n);
    }
    assert b.chars[b.redoCharPoint..] == b.chars[b.redoCharPoint..CHARS];
  }

  /** The step redoing would take after undoing `e`, had nothing to be discarded. */
  function Redoable(a: Pool, text: string, e: Edit): Edit
    requires InRange(text, e)
  {
    if Fills(a, e.delete) then Edit(e.where, [], |e.restore|) else Inverse(text, e)
  }

  /** The shape of a step turned round. */
  function Turned(e: Edit): Edit {
    Edit(e.where, seq(e.delete, _ => ' '), |e.restore|)
  }

  /** The record left for redoing: it tells the step exactly when nothing was cut,
      and nothing was discarded unless the stale record has the same shape. */
  ghost predicate Recorded(a: Pool, b: Pool, e: Edit, text: string) {
    && InRange(text, e) && 0 <= b.redoPoint < |b.recs|
    && (!Squeezes(a, e.delete) ==>
          b.redoPoint == a.redoPoint - 1 && Stores(b.recs[b.redoPoint], b.chars, Redoable(a, text, e), b.redoCharPoint))
    && (Squeezes(a, e.delete) ==>
          Discarded(a, b.(redoPoint := b.redoPoint + 1), e.delete) && KeptIn(b, e.where, e.delete, text))
    && (Tells(b.recs[b.redoPoint], Inverse(text, e)) <==>
          !Fills(a, e.delete) && (Squeezes(a, e.delete) ==> Tells(a.recs[a.redoPoint], Inverse(text, e))))
  }

  /** What the first half of an undo leaves, once the new record is in. */
  lemma {:induction false} SavedIsRecorded(a: Pool, b: Pool, u: Record, e: Edit, text: string)
    requires InRange(text, e) && u.where == e.where && u.insertLength == |e.restore| && u.deleteLength == e.delete
    requires |a.chars| == CHARS && 0 <= a.redoCharPoint && 0 <= a.redoPoint && 0 < b.redoPoint
    requires if Squeezes(a, e.delete) then Squeezed(a, b, u, text) else Saved(a, b, u, text)
    ensures Recorded(a, b.(redoPoint := b.redoPoint - 1), e, text)
    ensures Recorded(a, b.(redoPoint := b.redoPoint - 1, undoCharPoint := b.undoCharPoint - |e.restore|), e, text)
  {
  }

  lemma {:induction false} SavedForRedo(a: Pool, b: Pool, u: Record, e: Edit, text: string, redo: seq<Edit>)
    requires InRange(text, e) && u.where == e.where && u.insertLength == |e.restore| && u.deleteLength == e.delete
    requires |a.recs| == STATES && |a.chars| == CHARS && !Squeezes(a, e.delete) && Saved(a, b, u, text)
    requires RedoSide(a.recs, a.chars, redo) && 0 <= a.redoPoint == STATES - |redo|
    requires 0 <= a.redoCharPoint == CHARS - Size(redo)
    ensures RedoSide(b.recs, b.chars, [Redoable(a, text, e)] + redo)
    ensures b.redoCharPoint == CHARS - Size([Redoable(a, text, e)] + redo)
  {
    StoredAbove(a.chars, b.chars, a.redoCharPoint, Size(redo), a.redoCharPoint);
    RedoFramed(a.recs, a.chars, redo, b.recs, b.chars);
    RedoPushed(b.recs, b.chars, redo, Redoable(a, text, e));
  }

  /** Where an undo of `e` stands once the redo record is in and before the text and
      the pointers change; `redo` was in place at first if `valid`. */
  ghost predicate HalfDone(a: Pool, b: Pool, u: Record, n: int, es: seq<Edit>, e: Edit, text: string, valid: bool,
                           redo: seq<Edit>) {
    && |a.recs| == |b.recs| == STATES && |a.chars| == |b.chars| == CHARS && InRange(text, e)
    && UndoSide(b.recs, b.chars, es) && Stores(u, b.chars, e, Size(es))
    && n == |es| + 1 && 1 <= n <= a.redoPoint && b.undoCharPoint == a.undoCharPoint == Size(es) + |e.restore| <= CHARS
    && Bounded(b) && n <= b.redoPoint && a.undoCharPoint <= a.redoCharPoint && b.undoCharPoint <= b.redoCharPoint
    && 0 <= b.recs[b.redoPoint - 1].insertLength
    && (if Squeezes(a, e.delete) then Squeezed(a, b, u, text) else Saved(a, b, u, text))
    && (valid && !Squeezes(a, e.delete) ==>
          RedoStack(a, redo) && Room(a.undoCharPoint, a.redoCharPoint, redo))
  }

  lemma {:induction false} HalfReached(a: Pool, b: Pool, u: Record, n: int, undo: seq<Edit>, text: string, valid: bool,
                                       redo: seq<Edit>)
    requires Stands(a, n, undo) && undo != [] && u == a.recs[n - 1] && InRange(text, undo[|undo| - 1])
    requires valid ==> BothStand(a, n, undo, redo)
    requires Bounded(b) && 0 < b.redoPoint && b.undoCharPoint <= b.redoCharPoint
    requires 0 <= b.recs[b.redoPoint - 1].insertLength
    requires if Squeezes(a, u.deleteLength) then Squeezed(a, b, u, text) else Saved(a, b, u, text)
    ensures HalfDone(a, b, u, n, undo[..|undo| - 1], undo[|undo| - 1], text, valid, redo)
  {
    var es, e := undo[..|undo| - 1], undo[|undo| - 1];
    UndoPopped(a.recs, a.chars, undo);
    assert b.chars[..a.undoCharPoint] == a.chars[..a.undoCharPoint] by {
      if u.deleteLength != 0 && !Squeezes(a, u.deleteLength) && !Fills(a, u.deleteLength) {
        assert b.chars[..b.redoCharPoint][..a.undoCharPoint] == a.chars[..b.redoCharPoint][..a.undoCharPoint];
      }
    }
    SideStands(a, b, es, n - 1);
    StoredBelow(a.chars, b.chars, Size(es), |e.restore|, a.undoCharPoint);
  }

  /** Work at or above slot `n` and the undo characters leaves the side below. */
  lemma {:induction false} SideStands(a: Pool, b: Pool, es: seq<Edit>, n: nat)
    requires |b.recs| == |a.recs| && |b.chars| == |a.chars| && |es| == n <= |a.recs|
    requires Size(es) <= a.undoCharPoint <= |a.chars| && UndoSide(a.recs, a.chars, es)
    requires forall i :: 0 <= i < n ==> b.recs[i] == a.recs[i]
    requires b.chars[..a.undoCharPoint] == a.chars[..a.undoCharPoint]
    ensures UndoSide(b.recs, b.chars, es)
  {
    StoredBelow(a.chars, b.chars, 0, Size(es), a.undoCharPoint);
    UndoFramed(a.recs, a.chars, es, b.recs, b.chars);
  }

  /** The pointers a whole undo leaves. */
  function Popped(b: Pool, u: Record): Pool {
    b.(redoPoint := b.redoPoint - 1, undoCharPoint := b.undoCharPoint - u.insertLength)
  }

  lemma {:induction false} HalfEnds(a: Pool, b: Pool, u: Record, n: int, es: seq<Edit>, e: Edit, text: string,
                                    valid: bool, redo: seq<Edit>)
    requires HalfDone(a, b, u, n, es, e, text, valid, redo)
    ensures Stands(Popped(b, u), n - 1, es) && Recorded(a, Popped(b, u), e, text)
    ensures valid && !Squeezes(a, e.delete) ==>
      BothStand(Popped(b, u), n - 1, es, [Redoable(a, text, e)] + redo)
  {
    HalfStands(a, b, u, n, es, e, text, valid, redo);
    SavedIsRecorded(a, b, u, e, text);
    if valid && !Squeezes(a, e.delete) {
      SavedForRedo(a, b, u, e, text, redo);
      assert ([Redoable(a, text, e)] + redo)[1..] == redo;
    }
  }

  lemma {:induction false} HalfStands(a: Pool, b: Pool, u: Record, n: int, es: seq<Edit>, e: Edit, text: string,
                                      valid: bool, redo: seq<Edit>)
    requires HalfDone(a, b, u, n, es, e, text, valid, redo)
    ensures Stands(Popped(b, u), n - 1, es)
  {
  }

  /** An undo that is given up leaves the undo side, unless its stack touched the
      redo stack. */
  lemma {:induction false} SwallowedStands(a: Pool, b: Pool, u: Record, n: int, undo: seq<Edit>)
    requires Stands(a, n, undo) && undo != [] && u == a.recs[n - 1] && Emptied(a, b, u) && Bounded(b)
    ensures if n < a.redoPoint then Stands(b, n, undo)
      else n == |undo| <= |b.recs| && Tells(b.recs[n - 1], Turned(undo[n - 1]))
  {
    UndoPopped(a.recs, a.chars, undo);
    if n < a.redoPoint { SideStands(a, b, undo, n); }
  }

  /** What the first half of an undo comes to. */
  ghost predicate HalfComes(a: Pool, b: Pool, step: Step, u: Record, n: int, undo: seq<Edit>, text: string, valid: bool,
                            redo: seq<Edit>)
    requires undo != []
  {
    var e := undo[|undo| - 1];
    && (step == Done <==> Takes(a, e.delete) && InRange(text, e)) && (step == Swallowed <==> Swallows(a, e.delete))
    && (step == Done ==> HalfDone(a, b, u, n, undo[..|undo| - 1], e, text, valid, redo))
    && (step == Swallowed ==> GivenUpBy(a, b, n, undo))
  }

  ghost predicate GivenUpBy(a: Pool, b: Pool, n: int, undo: seq<Edit>)
    requires undo != []
  {
    && b.redoPoint == STATES && b.redoCharPoint < b.undoCharPoint + undo[|undo| - 1].delete
    && n == |undo| <= |b.recs| == STATES
    && if n < a.redoPoint then Stands(b, n, undo) else Tells(b.recs[n - 1], Turned(undo[n - 1]))
  }

  /** The record keeps inside the text. */
  predicate Reaches(u: Record, text: string) {
    0 <= u.where && ((u.deleteLength == 0 && u.insertLength == 0) || u.where + u.deleteLength <= |text|)
  }

  lemma {:induction false} HalfIs(a: Pool, b: Pool, step: Step, u: Record, n: int, undo: seq<Edit>, text: string,
                                  valid: bool, redo: seq<Edit>)
    requires Stands(a, n, undo) && undo != [] && u == a.recs[n - 1]
    requires valid ==> BothStand(a, n, undo, redo)
    requires SavedOr(a, b, step, u, text)
    requires step != Beyond ==> Bounded(b)
    requires step == Done ==>
      0 < b.redoPoint && b.undoCharPoint <= b.redoCharPoint && 0 <= b.recs[b.redoPoint - 1].insertLength
    ensures HalfComes(a, b, if step == Done && !Reaches(u, text) then Beyond else step, u, n, undo, text, valid, redo)
  {
    UndoPopped(a.recs, a.chars, undo);
    if step == Done && Reaches(u, text) {
      HalfReached(a, b, u, n, undo, text, valid, redo);
    } else if step == Swallowed {
      SwallowedStands(a, b, u, n, undo);
    }
  }

  // ----- The two halves of a redo -----

  /** The record keeps inside the text, and its characters are inside the store. */
  predicate Legible(r: Record, text: string) {
    && 0 <= r.deleteLength && Reaches(r, text)
    && 0 <= r.insertLength && (0 < r.insertLength ==> 0 <= r.storage && r.storage + r.insertLength <= CHARS)
  }

  /** The step a legible record tells. */
  function Told(r: Record, chars: seq<char>): Edit
    requires |chars| == CHARS && 0 <= r.where && 0 <= r.deleteLength
    requires 0 <= r.insertLength && (0 < r.insertLength ==> 0 <= r.storage && r.storage + r.insertLength <= CHARS)
  {
    Edit(r.where, if r.insertLength == 0 then [] else chars[r.storage..r.storage + r.insertLength], r.deleteLength)
  }

  lemma {:induction false} StoresTold(r: Record, chars: seq<char>, e: Edit, at: int)
    requires |chars| == CHARS && Stores(r, chars, e, at)
    ensures Told(r, chars) == e
  {
  }

  /** A redo that takes `d` characters out has no room for them. */
  predicate Cuts(a: Pool, d: int) {
    0 < d && a.undoCharPoint + d > a.redoCharPoint
  }

  /** It would keep them past the end of the array. */
  predicate Overruns(a: Pool, d: int) {
    0 < d && !Cuts(a, d) && a.undoCharPoint + d > CHARS
  }

  /** The step undoing would take after redoing `r`. */
  function Undoable(a: Pool, text: string, r: Record): Edit
    requires Legible(r, text)
  {
    if Cuts(a, r.deleteLength) then Edit(r.where, [], 0)
    else Edit(r.where, Taken(text, r.where, r.deleteLength), r.insertLength)
  }

  /** The undo record is in above the undo stack, with its characters; the other
      records and characters are as they were. */
  ghost predicate Recalled(a: Pool, b: Pool, text: string, r: Record, n: nat) {
    && Legible(r, text) && n <= a.redoPoint && n < |a.recs| == |b.recs| && |a.chars| == |b.chars|
    && 0 <= a.undoCharPoint <= a.redoCharPoint
    && (forall i :: 0 <= i < |a.recs| && i != n ==> b.recs[i] == a.recs[i])
    && b.redoPoint == a.redoPoint && b.redoCharPoint == a.redoCharPoint
    && b.undoCharPoint == a.undoCharPoint + |Undoable(a, text, r).restore| <= b.redoCharPoint
    && b.undoCharPoint <= |b.chars|
    && b.chars[..a.undoCharPoint] == a.chars[..a.undoCharPoint] && b.chars[b.undoCharPoint..] == a.chars[b.undoCharPoint..]
    && Stores(b.recs[n], b.chars, Undoable(a, text, r), a.undoCharPoint)
  }

  /** The pointers a whole redo leaves. */
  function Pushed(b: Pool, r: Record): Pool {
    b.(redoPoint := b.redoPoint + 1, redoCharPoint := b.redoCharPoint + r.insertLength)
  }

  lemma {:induction false} RedoEnds(a: Pool, b: Pool, text: string, r: Record, n: int, undo: seq<Edit>)
    requires Stands(a, n, undo) && a.redoPoint < STATES && Recalled(a, b, text, r, n)
    ensures Stands(Pushed(b, r), n + 1, undo + [Undoable(a, text, r)])
  {
    SideStands(a, b, undo, n);
    UndoPushed(b.recs, b.chars, undo, Undoable(a, text, r));
  }

  /** With both stacks in place the rest of the redo side is untouched, and the
      record tells the step last undone. */
  ghost predicate SteadyAt(a: Pool, b: Pool, text: string, r: Record, redo: seq<Edit>) {
    && redo != [] && RedoStack(Pushed(b, r), redo[1..])
    && Room(b.undoCharPoint, b.redoCharPoint + r.insertLength, redo[1..])
    && |b.chars| == CHARS && Legible(r, text) && Told(r, b.chars) == redo[0] && InRange(text, redo[0])
    && Undoable(a, text, r) == Inverse(text, redo[0])
  }

  lemma {:induction false} SteadyRedo(a: Pool, b: Pool, text: string, r: Record, n: nat, undo: seq<Edit>, redo: seq<Edit>)
    requires BothStand(a, n, undo, redo) && a.redoPoint < STATES && r == a.recs[a.redoPoint]
    requires Recalled(a, b, text, r, n)
    ensures SteadyAt(a, b, text, r, redo)
  {
    RedoPopped(a.recs, a.chars, redo);
    var k := |redo[0].restore|;
    StoredAbove(a.chars, b.chars, a.redoCharPoint, k, a.redoCharPoint);
    StoresTold(r, b.chars, redo[0], a.redoCharPoint);
    StoredAbove(a.chars, b.chars, a.redoCharPoint + k, Size(redo[1..]), a.redoCharPoint);
    RedoFramed(a.recs, a.chars, redo[1..], b.recs, b.chars);
  }

  lemma {:induction false} DroppedSane(was: seq<Record>, recs: seq<Record>, p: nat, n: int)
    requires Sane(was, p) && Dropped(recs, was, p, n)
    ensures Sane(recs, p + 1)
  {
    forall k | p + 1 <= k < |recs| ensures 0 <= recs[k].insertLength {
      assert recs[k] == Moved(was[k - 1], n);
    }
  }

  lemma {:induction false} OldestFreed(recs: seq<Record>, chars: seq<char>, es: seq<Edit>)
    requires es != [] && |es| <= |recs| && RedoSide(recs, chars, es)
    ensures var n := |es[|es| - 1].restore|; Freed(recs[|recs| - 1]) == n <= Size(es)
  {
    assert RedoAt(recs, chars, es, |es| - 1);
    Offsets(es, |es| - 1);
  }

  lemma {:induction false} DroppedRedo(was: seq<Record>, chars: seq<char>, es: seq<Edit>, recs: seq<Record>, chars': seq<char>)
    requires es != [] && |es| <= |was| && |chars'| == |chars| && RedoSide(was, chars, es) && Size(es) <= |chars|
    requires Dropped(recs, was, |was| - |es|, Freed(was[|was| - 1]))
    requires 0 <= Freed(was[|was| - 1]) <= Size(es)
    requires var n := Freed(was[|was| - 1]);
      chars'[|chars| - Size(es) + n..|chars|] == chars[|chars| - Size(es)..|chars| - n]
    ensures RedoSide(recs, chars', es[..|es| - 1]) && Size(es[..|es| - 1]) == Size(es) - Freed(was[|was| - 1])
  {
    OldestFreed(was, chars, es);
    RedoShifted(was, chars, es, recs, chars');
    SizeSplit(es, |es| - 1);
    SizeOne(es[|es| - 1]);
    assert es[|es| - 1..] == [es[|es| - 1]];
  }

  /** What an undo or a redo comes to. Swallowed: it returns having changed neither
      the text nor the undo stack. Beyond: it moves or reads characters outside the
      store or the text, where the program's behaviour is not defined. */
  datatype Step = Idle | Done | Swallowed | Beyond

  /** The whole state as values: `undo` oldest first, with its newest record in slot
      `point` - 1, and `redo` newest first. */
  datatype Store = Store(pool: Pool, point: int, undo: seq<Edit>, redo: seq<Edit>)

  ghost predicate StoreStands(s: Store) {
    Stands(s.pool, s.point, s.undo)
  }

  ghost predicate StoreSound(s: Store) {
    BothStand(s.pool, s.point, s.undo, s.redo)
  }

  /** What one undo does. When nothing has to be discarded, or discarding makes the
      room, the text before the newest step comes back; otherwise nothing is undone,
      and if the stacks touched, the slot of its record now tells the reverse. */
  ghost predicate Undid(s: Store, t: Store, text: string, cursor: int, text': string, cursor': int, step: Step) {
    if s.undo == [] then step == Idle && text' == text && cursor' == cursor && t == s
    else
      var e := s.undo[|s.undo| - 1];
      && step != Idle && (step == Done <==> Takes(s.pool, e.delete) && InRange(text, e))
      && (step == Swallowed <==> Swallows(s.pool, e.delete))
      && (step != Done ==> text' == text && cursor' == cursor && t.undo == s.undo && t.point == s.point)
      && (step == Swallowed ==> GivenUpBy(s.pool, t.pool, t.point, t.undo))
      && (step == Done ==>
            && InRange(text, e) && text' == Apply(text, e) && cursor' == e.where + |e.restore|
            && StoreStands(t) && t.point == s.point - 1 && t.undo == s.undo[..|s.undo| - 1] && Recorded(s.pool, t.pool, e, text)
            && (StoreSound(s) && !Squeezes(s.pool, e.delete) ==>
                  StoreSound(t) && t.redo == [Redoable(s.pool, text, e)] + s.redo))
  }

  /** What one redo does. With both stacks in place it carries out the step last
      undone; otherwise whatever the newest redo record tells. */
  ghost predicate Redid(s: Store, t: Store, text: string, cursor: int, text': string, cursor': int, step: Step) {
    if s.pool.redoPoint == STATES then step == Idle && text' == text && cursor' == cursor && t == s
    else
      && 0 <= s.pool.redoPoint < |s.pool.recs|
      && var r := s.pool.recs[s.pool.redoPoint];
      && step == (if Legible(r, text) && !Overruns(s.pool, r.deleteLength) then Done else Beyond)
      && (step == Done ==> Forth(s, t, text, r, text', cursor'))
      && (StoreSound(s) ==> s.redo != [] && (InRange(text, s.redo[0]) ==> step == Done))
  }

  ghost predicate Forth(s: Store, t: Store, text: string, r: Record, text': string, cursor': int)
    requires Legible(r, text)
  {
    && StoreStands(t) && t.undo == s.undo + [Undoable(s.pool, text, r)]
    && text' == Apply(text, Told(r, t.pool.chars)) && cursor' == r.where + r.insertLength
    && t.pool.redoCharPoint == s.pool.redoCharPoint + r.insertLength
    && t.pool.redoPoint == s.pool.redoPoint + 1 && t.point == s.point + 1
    && |t.pool.recs| == |s.pool.recs| && |t.pool.chars| == |s.pool.chars|
    && (forall i :: 0 <= i < |t.pool.recs| && i != s.point ==> t.pool.recs[i] == s.pool.recs[i])
    && t.pool.chars[t.pool.undoCharPoint..] == s.pool.chars[t.pool.undoCharPoint..]
    && (StoreSound(s) ==> SoundForth(s, t, text, r))
  }

  /** The step last undone is carried out, and both stacks stay in place. */
  ghost predicate SoundForth(s: Store, t: Store, text: string, r: Record) {
    && StoreSound(t) && s.redo != [] && t.redo == s.redo[1..] && Legible(r, text) && Told(r, t.pool.chars) == s.redo[0]
    && InRange(text, s.redo[0]) && t.undo == s.undo + [Inverse(text, s.redo[0])]
  }

  /** The states runs of edits, undos and redos reach: both stacks are in place, or a
      discarded record has left at least one slot between them. */
  ghost predicate Reached(s: Store) {
    StoreStands(s) && (StoreSound(s) || s.point < s.pool.redoPoint)
  }

  /** So an undo that is given up loses nothing. */
  lemma {:induction false} UndoReaches(s: Store, t: Store, text: string, cursor: int, text': string, cursor': int,
                                       step: Step)
    requires Reached(s) && Undid(s, t, text, cursor, text', cursor', step) && step != Beyond
    ensures Reached(t)
  {
    if s.undo != [] && StoreSound(s) { SoundTakes(s, s.undo[|s.undo| - 1].delete); }
  }

  lemma {:induction false} RedoReaches(s: Store, t: Store, text: string, cursor: int, text': string, cursor': int,
                                       step: Step)
    requires Reached(s) && Redid(s, t, text, cursor, text', cursor', step) && step != Beyond
    ensures Reached(t)
  {
  }

  /** Discarding for it would move a negative number of characters: one record that is
      needed gives back too many. */
  ghost predicate Overmoves(a: Pool, d: int) {
    && Squeezes(a, d) && 0 <= a.redoPoint <= |a.recs|
    && a.undoCharPoint + d <= a.redoCharPoint + Released(a.recs, a.redoPoint)
    && !Makeable(a.recs, a.redoPoint, a.redoCharPoint, a.undoCharPoint + d)
  }

  /** When an undo goes outside the arrays or the text: it would keep characters past the
      end of the array, move a negative number of them, or its record tells a place that
      is not in the text. */
  lemma {:induction false} BeyondExactly(s: Store, t: Store, text: string, cursor: int, text': string, cursor': int,
                                         step: Step)
    requires StoreStands(s) && s.undo != [] && Undid(s, t, text, cursor, text', cursor', step)
    ensures var e := s.undo[|s.undo| - 1];
      step == Beyond <==>
        Spills(s.pool, e.delete) || Overmoves(s.pool, e.delete) || (!InRange(text, e) && !Swallows(s.pool, e.delete))
  {
    var a, e := s.pool, s.undo[|s.undo| - 1];
    if Swallows(a, e.delete) { NotMakeable(a.recs, a.redoPoint, a.redoCharPoint, a.undoCharPoint + e.delete, a.redoPoint); }
  }

  /** With both stacks in place every undo takes effect. */
  lemma {:induction false} SoundTakes(s: Store, d: int)
    requires StoreSound(s)
    ensures Takes(s.pool, d) && !Swallows(s.pool, d)
  {
    var a := s.pool;
    ReleasedIsSize(a.recs, a.chars, s.redo, 0);
    assert s.redo[0..] == s.redo;
    assert Squeezes(a, d) ==> MadeAt(a.recs, a.redoPoint, a.redoCharPoint, a.undoCharPoint + d, a.redoPoint);
  }

  /** So does one that needs nothing discarded, whatever the redo side holds. */
  lemma {:induction false} RoomyTakes(s: Store, d: int)
    requires StoreStands(s) && (d == 0 || s.pool.undoCharPoint + d <= s.pool.redoCharPoint <= CHARS || Fills(s.pool, d))
    ensures Takes(s.pool, d)
  {
  }

  /** The state once the second half of an undo has moved the pointers. */
  function UndoneStore(s: Store, b: Pool, u: Record, text: string): Store
    requires s.undo != []
  {
    var e := s.undo[|s.undo| - 1];
    Store(Popped(b, u), s.point - 1, s.undo[..|s.undo| - 1],
          if InRange(text, e) && !Squeezes(s.pool, e.delete) then [Redoable(s.pool, text, e)] + s.redo else s.redo)
  }

  lemma {:induction false} UndidIs(s: Store, b: Pool, u: Record, t: Store, text: string, cursor: int, text': string,
                                   cursor': int, step: Step)
    requires StoreStands(s) && s.undo != [] && step != Idle
    requires HalfComes(s.pool, b, step, u, s.point, s.undo, text, StoreSound(s), s.redo)
    requires step == Done ==> Legible(u, text) && |b.chars| == CHARS
    requires if step == Done
      then t == UndoneStore(s, b, u, text) && text' == Apply(text, Told(u, b.chars)) && cursor' == u.where + u.insertLength
      else t.pool == b && t.point == s.point && t.undo == s.undo && text' == text && cursor' == cursor
    ensures Undid(s, t, text, cursor, text', cursor', step)
  {
    if step == Done {
      var es, e := s.undo[..|s.undo| - 1], s.undo[|s.undo| - 1];
      HalfEnds(s.pool, b, u, s.point, es, e, text, StoreSound(s), s.redo);
      StoresTold(u, b.chars, e, Size(es));
    }
  }

  lemma {:induction false} ForthIs(s: Store, b: Pool, t: Store, text: string, r: Record, text': string, cursor': int)
    requires StoreStands(s) && s.pool.redoPoint < STATES && r == s.pool.recs[s.pool.redoPoint]
    requires Legible(r, text) && Recalled(s.pool, b, text, r, s.point)
    requires t.pool == Pushed(b, r) && t.point == s.point + 1 && t.undo == s.undo + [Undoable(s.pool, text, r)]
    requires StoreSound(s) ==> s.redo != [] && t.redo == s.redo[1..]
    requires |b.chars| == CHARS && text' == Apply(text, Told(r, b.chars)) && cursor' == r.where + r.insertLength
    ensures Forth(s, t, text, r, text', cursor')
  {
    RedoEnds(s.pool, b, text, r, s.point, s.undo);
    if StoreSound(s) { SoundForthIs(s, b, t, text, r); }
  }

  lemma {:induction false} SoundForthIs(s: Store, b: Pool, t: Store, text: string, r: Record)
    requires StoreSound(s) && s.pool.redoPoint < STATES && r == s.pool.recs[s.pool.redoPoint]
    requires Legible(r, text) && Recalled(s.pool, b, text, r, s.point) && StoreStands(t)
    requires t.pool == Pushed(b, r) && t.point == s.point + 1 && t.undo == s.undo + [Undoable(s.pool, text, r)]
    requires s.redo != [] && t.redo == s.redo[1..]
    ensures SoundForth(s, t, text, r)
  {
    SteadyRedo(s.pool, b, text, r, s.point, s.undo, s.redo);
  }

  class UndoState {
    const rec: array<Record>
    const chars: array<char>
    var undoPoint: int
    var redoPoint: int
    var undoCharPoint: int
    var redoCharPoint: int

    /** The two stacks: `undo` oldest first, `redo` newest first. */
    ghost var undo: seq<Edit>
    ghost var redo: seq<Edit>

    ghost predicate UndoValid()
      reads this, rec, chars
    {
      UndoStack(Now(), undoPoint, undo)
    }

    ghost predicate RedoValid()
      reads this, rec, chars
    {
      RedoStack(Now(), redo)
    }

    ghost predicate RedoBounded()
      reads this, rec, chars
    {
      Bounded(Now())
    }

    ghost predicate RedoContained()
      reads this, rec, chars
    {
      Contained(Now())
    }

    ghost predicate Standing()
      reads this, rec, chars
    {
      Stands(Now(), undoPoint, undo)
    }

    ghost predicate Valid()
      reads this, rec, chars
    {
      BothStand(Now(), undoPoint, undo, redo)
    }

    ghost function Now(): Pool
      reads this, rec, chars
    {
      Pool(rec[..], chars[..], redoPoint, undoCharPoint, redoCharPoint)
    }

    ghost function View(): Store
      reads this, rec, chars
    {
      Store(Now(), undoPoint, undo, redo)
    }

    constructor ()
      ensures Valid() && undo == [] && redo == [] && fresh(rec) && fresh(chars)
    {
      rec := new Record[STATES](_ => Record(0, 0, 0, -1));
      chars := new char[CHARS](_ => ' ');
      undoPoint, redoPoint := 0, STATES;
      undoCharPoint, redoCharPoint := 0, CHARS;
      undo, redo := [], [];
    }

    method FlushRedo()
      requires UndoValid()
      modifies this`redoPoint, this`redoCharPoint, this`redo
      ensures Valid() && redo == []
    {
      redoPoint := STATES;
      redoCharPoint := CHARS;
      redo := [];
    }

    /** Adjusts the storage of the records from `first` up to `end`. */
    method Relocate(first: int, end: int, d: int)
      requires 0 <= first <= end <= rec.Length
      modifies rec
      ensures forall k :: 0 <= k < rec.Length ==>
        rec[k] == if first <= k < end then Moved(old(rec[k]), d) else old(rec[k])
    {
      for i := first to end
        invariant forall k :: 0 <= k < rec.Length ==>
          rec[k] == if first <= k < i then Moved(old(rec[k]), d) else old(rec[k])
      {
        if rec[i].storage >= 0 {
          rec[i] := rec[i].(storage := rec[i].storage + d);
        }
      }
    }

    /** Discards the oldest undo record, closing the gap it leaves. */
    method DiscardUndo()
      requires UndoValid()
      modifies this`undoPoint, this`undoCharPoint, this`undo, rec, chars
      ensures UndoValid() && undo == if old(undo) == [] then [] else old(undo)[1..]
    {
      if undoPoint > 0 {
        ghost var recs, cs, es := rec[..], chars[..], undo;
        assert UndoAt(recs, cs, es, 0) && es[..0] == [];
        Offsets(es, 0);
        ReleaseFirst(|es[0].restore|);
        undoPoint := undoPoint - 1;
        forall i | 0 <= i < undoPoint { rec[i] := rec[i + 1]; }
        undo := undo[1..];
        UndoShifted(recs, cs, es, rec[..], chars[..]);
      }
    }

    /** Gives back the characters of the oldest undo record. */
    method ReleaseFirst(ghost n: int)
      requires chars.Length == CHARS && rec.Length == STATES && 0 < undoPoint <= STATES && 0 <= n <= undoCharPoint <= CHARS
      requires var r := rec[0]; r.insertLength == n && (r.storage >= 0 <==> n > 0)
      modifies this`undoCharPoint, rec, chars
      ensures undoCharPoint == old(undoCharPoint) - n
      ensures chars[..][0..undoCharPoint] == old(chars[..])[n..old(undoCharPoint)]
      ensures forall k :: 0 <= k < STATES ==>
        rec[k] == if k < undoPoint then Moved(old(rec[k]), -n) else old(rec[k])
    {
      if rec[0].storage >= 0 {
        var n := rec[0].insertLength;
        undoCharPoint := undoCharPoint - n;
        forall i | 0 <= i < undoCharPoint { chars[i] := chars[i + n]; }
        Relocate(0, undoPoint, -n);
      }
    }

    /** Gives back the characters of the oldest redo record, unless that moves the
        others off the end of the array. */
    method ReleaseOldest() returns (ok: bool)
      requires RedoContained() && redoPoint < STATES
      modifies this`redoCharPoint, rec, chars
      ensures ok == (old(redoCharPoint + Freed(rec[STATES - 1])) <= CHARS)
      ensures redoCharPoint == old(redoCharPoint + Freed(rec[STATES - 1]))
      ensures chars[..old(redoCharPoint)] == old(chars[..redoCharPoint])
      ensures !ok ==> rec[..] == old(rec[..])
      ensures ok ==>
        chars[..][redoCharPoint..CHARS] == old(chars[..][redoCharPoint..CHARS - Freed(rec[STATES - 1])])
      ensures ok ==> MovedFrom(rec[..], old(rec[..]), redoPoint, old(Freed(rec[STATES - 1])))
    {
      var k := STATES - 1;
      if rec[k].storage >= 0 {
        var n := rec[k].insertLength;
        redoCharPoint := redoCharPoint + n;
        if redoCharPoint > CHARS {
          // The number of characters to move would be negative.
          return false;
        }
        forall i | redoCharPoint <= i < CHARS { chars[i] := chars[i - n]; }
        Relocate(redoPoint, k, n);
      }
      ok := true;
    }

    /** Discards the oldest redo record, closing the gap it leaves. The slot of
        the newest one keeps what it held, but for the storage index. */
    method DropOldest() returns (ok: bool)
      requires RedoContained()
      modifies this`redoPoint, this`redoCharPoint, rec, chars
      ensures if old(redoPoint) == STATES then ok && Now() == old(Now()) else OneLess(old(Now()), Now(), ok)
    {
      ok := true;
      if redoPoint <= STATES - 1 {
        ghost var was, n, p := rec[..], Freed(rec[STATES - 1]), redoPoint;
        ok := ReleaseOldest();
        if !ok {
          return;
        }
        ghost var mid := rec[..];
        CloseGap();
        MovedUp(was, mid, rec[..], p, n);
      }
    }

    /** Moves the redo records one slot up. */
    method CloseGap()
      requires rec.Length == STATES && 0 <= redoPoint < STATES
      modifies this`redoPoint, rec
      ensures redoPoint == old(redoPoint) + 1
      ensures UpOne(rec[..], old(rec[..]), old(redoPoint))
    {
      forall i | redoPoint + 1 <= i < STATES { rec[i] := rec[i - 1]; }
      redoPoint := redoPoint + 1;
    }

    /** On a sound redo side the redo stack loses exactly its oldest step. */
    method DiscardRedo() returns (ok: bool)
      requires RedoContained()
      modifies this`redoPoint, this`redoCharPoint, this`redo, rec, chars
      ensures if old(redoPoint) == STATES then ok && Now() == old(Now()) else OneLess(old(Now()), Now(), ok)
      ensures ok ==> RedoContained()
      ensures old(RedoValid()) ==>
        ok && RedoValid() && redo == if old(redo) == [] then [] else old(redo)[..|old(redo)| - 1]
    {
      ghost var a, sound := Now(), RedoValid();
      ok := DropOldest();
      if a.redoPoint < STATES {
        if ok { BoundedLess(a, Now()); }
        if sound {
          LostOldest(a, Now(), ok, redo);
          redo := redo[..|redo| - 1];
        }
      }
    }

    /** Forgets what could be redone and makes room for a record of `n`
        characters, giving up the oldest undo records, or all of them when the
        characters will never fit. */
    method MakeRoom(n: nat) returns (ok: bool)
      requires UndoValid()
      modifies this`undoPoint, this`undoCharPoint, this`undo, this`redoPoint, this`redoCharPoint, this`redo, rec, chars
      ensures Valid() && redo == [] && ok == (n <= CHARS)
      ensures undo == if ok then KeptFor(old(undo), n) else []
      ensures ok ==> undoPoint < STATES && undoCharPoint + n <= CHARS
    {
      FlushRedo();
      if undoPoint == STATES {
        DiscardUndo();
      }
      if n > CHARS {
        undoPoint := 0;
        undoCharPoint := 0;
        undo := [];
        return false;
      }
      while undoCharPoint + n > CHARS
        invariant UndoValid() && undoPoint < STATES
        invariant redo == [] && redoPoint == STATES && redoCharPoint == CHARS
        invariant KeptFor(undo, n) == KeptFor(old(undo), n)
        decreases undoPoint
      {
        DiscardUndo();
      }
      return true;
    }

    /** Records a step that takes `len` characters out of the text at `pos` and
        puts `added` in; undoing it will do the reverse. */
    method MakeUndo(text: string, pos: int, len: nat, added: nat)
      requires UndoValid() && 0 <= pos && pos + len <= |text|
      modifies this`undoPoint, this`undoCharPoint, this`undo, this`redoPoint, this`redoCharPoint, this`redo, rec, chars
      ensures Valid() && redo == []
      ensures undo == if len > CHARS then [] else KeptFor(old(undo), len) + [Edit(pos, text[pos..pos + len], added)]
    {
      var ok := MakeRoom(len);
      if ok {
        AddRecord(text, pos, len, added);
      }
    }

    method AddRecord(text: string, pos: int, len: nat, added: nat)
      requires Valid() && redo == [] && undoPoint < STATES && undoCharPoint + len <= CHARS
      requires 0 <= pos && pos + len <= |text|
      modifies this`undoPoint, this`undoCharPoint, this`undo, rec, chars
      ensures Valid() && undo == old(undo) + [Edit(pos, text[pos..pos + len], added)]
    {
      ghost var a, e := Now(), Edit(pos, text[pos..pos + len], added);
      rec[undoPoint] := Record(pos, len, added, if len == 0 then -1 else undoCharPoint);
      SaveChars(undoCharPoint, text, pos, len);
      undoPoint := undoPoint + 1;
      undoCharPoint := undoCharPoint + len;
      undo := undo + [e];
      RecordAdded(a, Now(), undoPoint - 1, old(undo), e);
    }

    /** Discards redo records until the redo characters begin at `need` or later.
        If any went, the slot for the new record holds what told the newest redo
        step. */
    method RoomForRedo(need: int) returns (step: Step)
      requires RedoContained() && need <= CHARS
      modifies this`redoPoint, this`redoCharPoint, this`redo, rec, chars
      ensures Roomed(old(Now()), Now(), need, step)
      ensures step != Beyond ==> RedoContained()
      ensures need <= old(redoCharPoint) ==> redo == old(redo)
    {
      ghost var a := Now();
      while need > redoCharPoint
        invariant RedoContained() && Digging(a, Now(), need) && (Now() == a ==> redo == old(redo))
        decreases STATES - redoPoint
      {
        ghost var b := Now();
        if redoPoint == STATES {
          DigFails(a, b, need);
          return Swallowed;
        }
        var ok := DiscardRedo();
        if !ok {
          DigBeyond(a, b, Now(), need);
          return Beyond;
        }
        DigOn(a, b, Now(), need);
      }
      DigDone(a, Now(), need);
      step := Done;
    }

    /** Saves `n` characters of the text at `at`. */
    method SaveChars(at: int, text: string, where: int, n: nat)
      requires 0 <= where && where + n <= |text| && 0 <= at && at + n <= chars.Length
      modifies chars
      ensures chars[..at] == old(chars[..at]) && chars[at + n..] == old(chars[at + n..])
      ensures chars[at..at + n] == text[where..where + n]
    {
      forall i | 0 <= i < n { chars[at + i] := text[where + i]; }
      ghost var saved := text[where..where + n];
      assert forall k :: 0 <= k < n ==> chars[at + k] == saved[k];
    }

    /** The first half of an undo: the redo record goes below the redo stack, and
        with it the characters the undo will take out, unless they fill the store. */
    method SaveForRedo(text: string, u: Record) returns (step: Step)
      requires RedoBounded() && 0 < redoPoint && 0 <= undoCharPoint <= redoCharPoint && 0 <= u.insertLength
      requires 0 <= u.where && 0 <= u.deleteLength
      modifies this`redoPoint, this`redoCharPoint, this`redo, rec, chars
      ensures SavedOr(old(Now()), Now(), step, u, text)
      ensures step == Done && !Squeezes(old(Now()), u.deleteLength) ==> redo == old(redo)
      ensures step == Done ==> SlotReady()
      ensures step == Swallowed ==> RedoBounded()
    {
      ghost var a := Now();
      rec[redoPoint - 1] := Record(u.where, u.deleteLength, u.insertLength, -1);
      if u.deleteLength != 0 {
        if undoCharPoint + u.deleteLength >= CHARS {
          rec[redoPoint - 1] := rec[redoPoint - 1].(insertLength := 0);
        } else {
          ghost var a' := Now();
          step := KeepTaken(text, u);
          SavedSame(a, a', Now(), step, u, text);
          return;
        }
      }
      step := Done;
    }

    /** The redo side with one more record below it. */
    ghost predicate SlotReady()
      reads this, rec, chars
    {
      RedoBounded() && 0 < redoPoint && undoCharPoint <= redoCharPoint && 0 <= rec[redoPoint - 1].insertLength
    }

    /** Finds room for the characters the undo will take out, and saves them. */
    method KeepTaken(text: string, u: Record) returns (step: Step)
      requires RedoBounded() && 0 < redoPoint && 0 <= undoCharPoint <= redoCharPoint && 0 <= u.insertLength
      requires 0 <= u.where && 0 < u.deleteLength && undoCharPoint + u.deleteLength < CHARS
      requires rec[redoPoint - 1] == Record(u.where, u.deleteLength, u.insertLength, -1)
      modifies this`redoPoint, this`redoCharPoint, this`redo, rec, chars
      ensures SavedOr(old(Now()), Now(), step, u, text)
      ensures step == Done && !Squeezes(old(Now()), u.deleteLength) ==> redo == old(redo)
      ensures step == Done ==> SlotReady()
      ensures step == Swallowed ==> RedoBounded()
    {
      ghost var a := Now();
      if redoCharPoint > CHARS {
        // Nothing has to be discarded, and the characters go past the array's end.
        return Beyond;
      }
      step := RoomForRedo(undoCharPoint + u.deleteLength);
      ghost var b := Now();
      if step != Done {
        GivenUp(a, b, step, u, text);
        return;
      }
      if u.where + u.deleteLength > |text| {
        // Some of the characters to save lie past the end of the text.
        return Beyond;
      }
      StoreTaken(text, u);
      FirstHalfIs(a, b, Now(), text, u);
    }

    method StoreTaken(text: string, u: Record)
      requires RedoContained() && 0 < redoPoint && 0 <= undoCharPoint && 0 <= rec[redoPoint - 1].insertLength
      requires 0 <= u.where && 0 < u.deleteLength && u.where + u.deleteLength <= |text|
      requires undoCharPoint + u.deleteLength <= redoCharPoint
      modifies this`redoCharPoint, rec, chars
      ensures SlotReady() && TakenIn(old(Now()), Now(), text, u)
    {
      rec[redoPoint - 1] := rec[redoPoint - 1].(storage := redoCharPoint - u.deleteLength);
      redoCharPoint := redoCharPoint - u.deleteLength;
      SaveChars(redoCharPoint, text, u.where, u.deleteLength);
    }

    /** Takes characters out of the text and puts stored ones in. */
    method CarryOut(text: string, r: Record) returns (text': string)
      requires chars.Length == CHARS && Legible(r, text)
      ensures text' == Apply(text, Told(r, chars[..]))
    {
      text' := text;
      if r.deleteLength != 0 {
        text' := text'[..r.where] + text'[r.where + r.deleteLength..];
      }
      if r.insertLength != 0 {
        text' := text'[..r.where] + chars[r.storage..r.storage + r.insertLength] + text'[r.where..];
      }
    }

    /** Undoes the newest step. */
    method Undo(text: string, cursor: int) returns (text': string, cursor': int, step: Step)
      requires Standing()
      modifies this`undoPoint, this`undoCharPoint, this`undo, this`redoPoint, this`redoCharPoint, this`redo, rec, chars
      ensures Undid(old(View()), View(), text, cursor, text', cursor', step)
    {
      if undoPoint == 0 {
        return text, cursor, Idle;
      }
      text', cursor', step := UndoNewest(text, cursor);
    }

    method UndoNewest(text: string, cursor: int) returns (text': string, cursor': int, step: Step)
      requires Standing() && undo != []
      modifies this`undoPoint, this`undoCharPoint, this`undo, this`redoPoint, this`redoCharPoint, this`redo, rec, chars
      ensures Undid(old(View()), View(), text, cursor, text', cursor', step)
    {
      ghost var s := View();
      var u;
      step, u := FirstHalf(text);
      ghost var b := Now();
      if step == Done {
        ghost var t := UndoneStore(s, b, u, text);
        text' := CarryOut(text, u);
        cursor' := u.where + u.insertLength;
        PassToRedo(u, t.undo, t.redo);
      } else {
        text', cursor' := text, cursor;
      }
      UndidIs(s, b, u, View(), text, cursor, text', cursor', step);
    }

    method FirstHalf(text: string) returns (step: Step, u: Record)
      requires Standing() && undo != []
      modifies this`redoPoint, this`redoCharPoint, this`redo, rec, chars
      ensures step in {Done, Swallowed, Beyond}
      ensures HalfComes(old(Now()), Now(), step, u, undoPoint, undo, text, old(Valid()), old(redo))
      ensures step == Done ==> Legible(u, text) && chars.Length == CHARS
    {
      ghost var a, valid, rs := Now(), Valid(), redo;
      UndoPopped(rec[..], chars[..], undo);
      u := rec[undoPoint - 1];
      step := SaveForRedo(text, u);
      HalfIs(a, Now(), step, u, undoPoint, undo, text, valid, rs);
      if step == Done && !Reaches(u, text) {
        step := Beyond;
      }
    }

    /** The last half of an undo: the step leaves the undo stack, and unless records
        went for it, its record joins the redo stack. */
    method PassToRedo(u: Record, ghost es: seq<Edit>, ghost rs: seq<Edit>)
      modifies this`undoPoint, this`undoCharPoint, this`undo, this`redoPoint, this`redo
      ensures Now() == Popped(old(Now()), u) && undoPoint == old(undoPoint) - 1 && undo == es && redo == rs
    {
      undoCharPoint := undoCharPoint - u.insertLength;
      undoPoint := undoPoint - 1;
      redoPoint := redoPoint - 1;
      undo, redo := es, rs;
    }

    /** Characters a redo would keep go past the array's end. */
    predicate SavesPast(d: int)
      reads this
    {
      0 < d && CHARS < undoCharPoint + d <= redoCharPoint
    }

    /** Redoes the step the newest redo record tells. */
    method Redo(text: string, cursor: int) returns (text': string, cursor': int, step: Step)
      requires Standing()
      modifies this`undoPoint, this`undoCharPoint, this`undo, this`redoPoint, this`redoCharPoint, this`redo, rec, chars
      ensures Redid(old(View()), View(), text, cursor, text', cursor', step)
    {
      if redoPoint == STATES {
        return text, cursor, Idle;
      }
      if !Legible(rec[redoPoint], text) || SavesPast(rec[redoPoint].deleteLength) {
        if Valid() { RedoPopped(rec[..], chars[..], redo); }
        return text, cursor, Beyond;
      }
      text', cursor' := RedoNewest(text);
      step := Done;
    }

    method RedoNewest(text: string) returns (text': string, cursor': int)
      requires Standing() && redoPoint < STATES && Legible(rec[redoPoint], text)
      requires !Overruns(Now(), rec[redoPoint].deleteLength)
      modifies this`undoPoint, this`undoCharPoint, this`undo, this`redoPoint, this`redoCharPoint, this`redo, rec, chars
      ensures Forth(old(View()), View(), text, old(rec[..])[old(redoPoint)], text', cursor')
    {
      ghost var s := View();
      var r := rec[redoPoint];
      if StoreSound(s) { RedoPopped(rec[..], chars[..], redo); }
      SaveForUndo(text, r);
      ghost var b := Now();
      text' := CarryOut(text, r);
      cursor' := r.where + r.insertLength;
      PassToUndo(r, undo + [Undoable(s.pool, text, r)], if StoreSound(s) then redo[1..] else redo);
      ForthIs(s, b, View(), text, r, text', cursor');
    }

    /** The first half of a redo: the undo record, and the characters the redo
        will take out, if there is room for them. */
    method SaveForUndo(text: string, r: Record)
      requires Standing() && redoPoint < STATES && Legible(r, text) && !Overruns(Now(), r.deleteLength)
      modifies this`undoCharPoint, rec, chars
      ensures Recalled(old(Now()), Now(), text, r, undoPoint)
    {
      rec[undoPoint] := Record(r.where, r.deleteLength, r.insertLength, -1);
      if r.deleteLength != 0 {
        if undoCharPoint + rec[undoPoint].insertLength > redoCharPoint {
          rec[undoPoint] := rec[undoPoint].(insertLength := 0, deleteLength := 0);
        } else {
          rec[undoPoint] := rec[undoPoint].(storage := undoCharPoint);
          undoCharPoint := undoCharPoint + r.deleteLength;
          SaveChars(undoCharPoint - r.deleteLength, text, r.where, r.deleteLength);
        }
      }
    }

    /** The last half of a redo: the step leaves the redo stack and joins the
        undo stack. */
    method PassToUndo(r: Record, ghost es: seq<Edit>, ghost rs: seq<Edit>)
      modifies this`undoPoint, this`undo, this`redoPoint, this`redoCharPoint, this`redo
      ensures Now() == Pushed(old(Now()), r) && undoPoint == old(undoPoint) + 1 && undo == es && redo == rs
    {
      redoCharPoint := redoCharPoint + r.insertLength;
      undoPoint := undoPoint + 1;
      redoPoint := redoPoint + 1;
      undo, redo := es, rs;
    }
  }
}
