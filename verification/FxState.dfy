/** The floating-point part of a signal frame: saving the guest's x87, SSE and AVX
    state and restoring it, possibly after the handler has edited it. */
module FxState {
  import opened Bits

  const XSTATE_MAGIC1 := 0x46505853
  const XSTATE_MAGIC2 := 0x46505845
  const EMPTY_TAG := 3

  type Uint16 = x: int | 0 <= x < 0x1_0000 witness 0
  type Uint32 = x: int | 0 <= x < 0x1_0000_0000 witness 0
  type Tag = x: int | 0 <= x <= 3 witness 3

  datatype Reg = Reg(significand: Uint64, signExp: Uint16)
  datatype Slot = Slot(lo: Uint64, hi: Uint64)
  const ZERO := Slot(0, 0)

  type Regs = s: seq<Reg> | |s| == 8 witness seq(8, _ => Reg(0, 0))
  type Tags = s: seq<Tag> | |s| == 8 witness seq(8, _ => 3)
  type Flags = s: seq<bool> | |s| == 8 witness seq(8, _ => false)
  type Stack = s: seq<Slot> | |s| == 8 witness seq(8, _ => Slot(0, 0))
  type Vectors = s: seq<Slot> | |s| == 16 witness seq(16, _ => Slot(0, 0))

  /** The legacy area; the tag byte as its bits, one per physical register. */
  datatype Fx = Fx(control: Uint16, status: Uint16, tag: Flags, mxcsr: Uint32, mxcsrMask: Uint32,
                   st: Stack, xmm: Vectors)

  datatype Info = Info(magic: Uint32, extendedSize: Uint32, features: Uint64, stateSize: Uint32)
  const NO_INFO := Info(0, 0, 0, 0)

  /** The features word as its three bits: x87, SSE, AVX. */
  datatype Features = Features(x87: bool, sse: bool, avx: bool)

  datatype Frame = Frame(legacy: Fx, info: Info, features: Features, ymmHigh: Vectors, magic2: Uint32)

  /** What the guest can see of its processor here. */
  datatype State = State(control: Uint16, status: Uint16, mxcsr: Uint32, regs: Regs, tags: Tags,
                         cached: Flags, inMmx: bool, xmm: Vectors, ymmHigh: Vectors, xsave: bool)

  function Top(status: Uint16): (t: nat)
    ensures t < 8
  {
    (status / 0x800) % 8
  }

  // ----- The status word -----

  predicate BitSet(x: nat, k: nat) {
    if k == 0 then x % 2 == 1 else BitSet(x / 2, k - 1)
  }

  /** Some exception the status word names is not masked by the control word. */
  predicate Pending(control: Uint16, status: Uint16) {
    exists k :: 0 <= k < 6 && PendingAt(control, status, k)
  }

  predicate PendingAt(control: Uint16, status: Uint16, k: nat) {
    BitSet(status, k) && !BitSet(control, k)
  }

  /** An exception is pending when one of the six low bits is set in the status word and
      clear in the control word. */
  lemma {:induction false} PendingIs(control: Uint16, status: Uint16)
    ensures Pending(control, status) <==>
      || (status % 2 == 1 && control % 2 == 0) || (status / 2 % 2 == 1 && control / 2 % 2 == 0)
      || (status / 4 % 2 == 1 && control / 4 % 2 == 0) || (status / 8 % 2 == 1 && control / 8 % 2 == 0)
      || (status / 16 % 2 == 1 && control / 16 % 2 == 0) || (status / 32 % 2 == 1 && control / 32 % 2 == 0)
  {
    SixBits(control);
    SixBits(status);
    assert Pending(control, status) <==>
      || PendingAt(control, status, 0) || PendingAt(control, status, 1) || PendingAt(control, status, 2)
      || PendingAt(control, status, 3) || PendingAt(control, status, 4) || PendingAt(control, status, 5);
  }

  lemma {:induction false} SixBits(x: nat)
    ensures (BitSet(x, 0) <==> x % 2 == 1) && (BitSet(x, 1) <==> x / 2 % 2 == 1) && (BitSet(x, 2) <==> x / 4 % 2 == 1)
    ensures (BitSet(x, 3) <==> x / 8 % 2 == 1) && (BitSet(x, 4) <==> x / 16 % 2 == 1) && (BitSet(x, 5) <==> x / 32 % 2 == 1)
  {
    var a, b, c, d, e := x / 2, x / 4, x / 8, x / 16, x / 32;
    assert a / 2 == b && b / 2 == c && c / 2 == d && d / 2 == e;
    assert BitSet(x, 1) == BitSet(a, 0);
    assert BitSet(x, 2) == BitSet(a, 1) == BitSet(b, 0);
    assert BitSet(x, 3) == BitSet(a, 2) == BitSet(b, 1) == BitSet(c, 0);
    assert BitSet(x, 4) == BitSet(a, 3) == BitSet(b, 2) == BitSet(c, 1) == BitSet(d, 0);
    assert BitSet(x, 5) == BitSet(a, 4) == BitSet(b, 3) == BitSet(c, 2) == BitSet(d, 1) == BitSet(e, 0);
  }

  /** The status word with bit 7 telling whether an unmasked exception is pending. */
  function Summarized(control: Uint16, status: Uint16): (r: Uint16)
    ensures r / 0x80 % 2 == 1 <==> Pending(control, status)
    ensures r % 0x80 == status % 0x80 && r / 0x100 == status / 0x100
  {
    var rest := status / 0x100 * 0x100 + status % 0x80;
    if Pending(control, status) then rest + 0x80 else rest
  }

  /** A word told twice is told once: the flags and the stack top are not touched. */
  lemma {:induction false} SummaryStays(control: Uint16, status: Uint16)
    ensures Summarized(control, Summarized(control, status)) == Summarized(control, status)
    ensures Top(Summarized(control, status)) == Top(status)
  {
    var r := Summarized(control, status);
    forall k | 0 <= k < 6 ensures PendingAt(control, r, k) <==> PendingAt(control, status, k) { LowBit(r, status, k); }
    assert Pending(control, r) <==> Pending(control, status);
    assert r / 0x800 == r / 0x100 / 8 && status / 0x800 == status / 0x100 / 8;
  }

  lemma {:induction false} LowBit(x: nat, y: nat, k: nat)
    requires x % 0x80 == y % 0x80 && k < 7
    ensures BitSet(x, k) <==> BitSet(y, k)
  {
    assert Pow2(7) == 0x80;
    RestBit(x / 0x80, x % 0x80, 7, k);
    RestBit(y / 0x80, y % 0x80, 7, k);
  }

  lemma {:induction false} RestBit(a: nat, r: nat, n: nat, k: nat)
    requires k < n
    ensures BitSet(Pow2(n) * a + r, k) <==> BitSet(r, k)
    decreases k
  {
    var m := Pow2(n - 1) * a;
    assert Pow2(n) * a == 2 * m by { Pull(Pow2(n - 1), a); }
    assert (2 * m + r) / 2 == m + r / 2 && (2 * m + r) % 2 == r % 2;
    if k > 0 { RestBit(a, r / 2, n - 1, k - 1); }
  }

  function X87Tag(significand: Uint64, signExp: Uint16, present: bool): Tag {
    if !present then EMPTY_TAG
    else
      var exponent := signExp % 0x8000;
      if exponent == 0 && significand == 0 then 1
      else if exponent == 0 || exponent == 0x7FFF || significand / 0x8000_0000_0000_0000 == 0 then 2
      else 0
  }

  /** Empty, zero, a normal number, or anything else: denormals, infinities, NaNs and
      numbers without their integer bit. */
  lemma {:induction false} TagClasses(significand: Uint64, signExp: Uint16)
    ensures X87Tag(significand, signExp, false) == 3
    ensures X87Tag(significand, signExp, true) == 1 <==> significand == 0 && signExp in {0, 0x8000}
    ensures X87Tag(significand, signExp, true) == 0 <==>
      0x8000_0000_0000_0000 <= significand && (1 <= signExp <= 0x7FFE || 0x8001 <= signExp <= 0xFFFE)
    ensures X87Tag(significand, signExp, true) in {0, 1, 2}
  {
  }

  // ----- What saving and restoring compute -----

  function Saved(s: State): Fx {
    Fx(s.control, s.status, seq(8, i requires 0 <= i < 8 => s.tags[i] != EMPTY_TAG), s.mxcsr, 0xFFFF,
       seq(8, i requires 0 <= i < 8 => SlotOf(s.regs, s.status, i)),
       s.xmm)
  }

  /** Where the stack top puts logical register `i`. */
  function Physical(status: Uint16, i: nat): (p: nat)
    requires i < 8
    ensures p < 8 && p == if Top(status) + i < 8 then Top(status) + i else Top(status) + i - 8
  {
    (Top(status) + i) % 8
  }

  function SlotOf(regs: Regs, status: Uint16, i: nat): Slot
    requires i < 8
  {
    var r := regs[Physical(status, i)];
    Slot(r.significand, r.signExp)
  }

  /** The logical register held by physical register `p`. */
  function Logical(status: Uint16, p: nat): (i: nat)
    requires p < 8
    ensures i < 8 && Physical(status, i) == p
    ensures forall j :: 0 <= j < 8 && Physical(status, j) == p ==> j == i
  {
    if Top(status) <= p then p - Top(status) else p + 8 - Top(status)
  }

  function Restored(s: State, fx: Fx): State {
    s.(control := fx.control, status := Summarized(fx.control, fx.status), mxcsr := fx.mxcsr % 0x1_0000,
       regs := seq(8, p requires 0 <= p < 8 => RegOf(fx, p)),
       tags := seq(8, p requires 0 <= p < 8 => X87Tag(RegOf(fx, p).significand, RegOf(fx, p).signExp, fx.tag[p])),
       cached := seq(8, _ => false), inMmx := false, xmm := fx.xmm)
  }

  function RegOf(fx: Fx, p: nat): Reg
    requires p < 8
  {
    var slot := fx.st[Logical(fx.status, p)];
    Reg(slot.lo, slot.hi % 0x1_0000)
  }

  // ----- The processor -----

  class Cpu {
    var control: Uint16
    var status: Uint16
    var mxcsr: Uint32
    const regs: array<Reg>
    const tags: array<Tag>
    const isRegCached: array<bool>
    var isMMXInUse: bool
    const xmm: array<Slot>
    const ymmHigh: array<Slot>
    const signalXsave: bool

    ghost predicate Valid() {
      && regs.Length == 8 && tags.Length == 8 && isRegCached.Length == 8
      && xmm.Length == 16 && ymmHigh.Length == 16 && xmm != ymmHigh
    }

    ghost function Now(): State
      reads this, regs, tags, isRegCached, xmm, ymmHigh
      requires Valid()
    {
      State(control, status, mxcsr, regs[..], tags[..], isRegCached[..], isMMXInUse, xmm[..], ymmHigh[..], signalXsave)
    }

    method SaveFx() returns (out: Fx)
      requires Valid()
      ensures out == Saved(Now())
    {
      var top := (status / 0x800) % 8;
      var tag, st := seq(8, _ => false), seq(8, _ => ZERO);
      for i := 0 to 8
        invariant |tag| == 8 && |st| == 8
        invariant forall k :: 0 <= k < i ==> tag[k] == (tags[k] != EMPTY_TAG)
        invariant forall k :: i <= k < 8 ==> !tag[k]
        invariant forall k :: 0 <= k < i ==> st[k] == SlotOf(regs[..], status, k)
      {
        if tags[i] != EMPTY_TAG {
          tag := tag[i := true];
        }
        var reg := regs[(top + i) % 8];
        assert Physical(status, i) == (top + i) % 8;
        st := st[i := Slot(reg.significand, reg.signExp)];
      }
      var copied := seq(16, _ => ZERO);
      for i := 0 to 16
        invariant |copied| == 16 && forall k :: 0 <= k < i ==> copied[k] == xmm[k]
      {
        copied := copied[i := xmm[i]];
      }
      assert copied == xmm[..];
      out := Fx(control, status, tag, mxcsr, 0xFFFF, st, copied);
      assert out.st == Saved(Now()).st && out.tag == Saved(Now()).tag;
    }

    /** Puts register `i` of the stack, with its tag, where it belongs. */
    method RestoreFx(fx: Fx)
      requires Valid()
      modifies this, regs, tags, isRegCached, xmm
      ensures Now() == Restored(old(Now()), fx)
    {
      control, status := fx.control, Summarized(fx.control, fx.status);
      mxcsr := fx.mxcsr % 0x1_0000;
      RestoreRegs(fx);
      isMMXInUse := false;
      for i := 0 to 16
        modifies xmm
        invariant forall k :: 0 <= k < i ==> xmm[k] == fx.xmm[k]
      {
        xmm[i] := Slot(fx.xmm[i].lo, fx.xmm[i].hi);
      }
      assert xmm[..] == fx.xmm;
      ghost var r := Restored(old(Now()), fx);
      forall p | 0 <= p < 8 ensures regs[p] == r.regs[p] && tags[p] == r.tags[p] && isRegCached[p] == r.cached[p] {
        assert RegRestored(fx, p);
      }
      assert regs[..] == r.regs && tags[..] == r.tags && isRegCached[..] == r.cached;
    }

    method RestoreRegs(fx: Fx)
      requires Valid()
      modifies regs, tags, isRegCached
      ensures forall p :: 0 <= p < 8 ==> RegRestored(fx, p)
    {
      var top := (fx.status / 0x800) % 8;
      for i := 0 to 8
        invariant forall p :: 0 <= p < 8 && Logical(fx.status, p) < i ==> RegRestored(fx, p)
      {
        var physical := (top + i) % 8;
        var reg := Reg(fx.st[i].lo, fx.st[i].hi % 0x1_0000);
        regs[physical] := reg;
        tags[physical] := X87Tag(reg.significand, reg.signExp, fx.tag[physical]);
        isRegCached[physical] := false;
        assert Physical(fx.status, i) == physical;
      }
    }

    ghost predicate RegRestored(fx: Fx, p: nat)
      requires Valid() && p < 8
      reads regs, tags, isRegCached
    {
      && regs[p] == RegOf(fx, p) && !isRegCached[p]
      && tags[p] == X87Tag(RegOf(fx, p).significand, RegOf(fx, p).signExp, fx.tag[p])
    }

    method SaveFrame() returns (out: Frame)
      requires Valid()
      ensures out == SavedFrame(Now())
    {
      var legacy := SaveFx();
      out := Frame(legacy, NO_INFO, Features(false, false, false), seq(16, _ => ZERO), 0);
      if signalXsave {
        out := out.(info := Info(XSTATE_MAGIC1, 836, 7, 832), features := Features(true, true, true),
                    magic2 := XSTATE_MAGIC2);
        for i := 0 to 16
          invariant out == SavedFrame(Now()).(ymmHigh := out.ymmHigh)
          invariant forall k :: 0 <= k < i ==> out.ymmHigh[k] == ymmHigh[k]
        {
          out := out.(ymmHigh := out.ymmHigh[i := ymmHigh[i]]);
        }
        assert out.ymmHigh == ymmHigh[..];
      }
    }

    method RestoreFrame(frame: Frame, extended: bool)
      requires Valid()
      modifies this, regs, tags, isRegCached, xmm, ymmHigh
      ensures Now() == RestoredFrame(old(Now()), frame, extended)
    {
      var legacy := frame.legacy;
      if extended {
        if !frame.features.x87 {
          legacy := legacy.(control := 0x37F, status := 0, tag := seq(8, _ => false), st := seq(8, _ => ZERO));
        }
        if !frame.features.sse {
          legacy := legacy.(mxcsr := 0x1F80, xmm := seq(16, _ => ZERO));
        }
      }
      RestoreFx(legacy);
      for i := 0 to 16
        modifies ymmHigh
        invariant forall k :: 0 <= k < i ==> ymmHigh[k] == HighOf(frame, extended)[k]
      {
        ymmHigh[i] := if extended && frame.features.avx then frame.ymmHigh[i] else ZERO;
      }
      assert ymmHigh[..] == HighOf(frame, extended);
    }
  }

  // ----- Frames -----

  function SavedFrame(s: State): Frame {
    if s.xsave
    then Frame(Saved(s), Info(XSTATE_MAGIC1, 836, 7, 832), Features(true, true, true), s.ymmHigh, XSTATE_MAGIC2)
    else Frame(Saved(s), NO_INFO, Features(false, false, false), seq(16, _ => ZERO), 0)
  }

  /** An absent component stands for its initial state. */
  function Effective(frame: Frame, extended: bool): Fx {
    var x := frame.legacy;
    var a := if extended && !frame.features.x87
      then x.(control := 0x37F, status := 0, tag := seq(8, _ => false), st := seq(8, _ => ZERO)) else x;
    if extended && !frame.features.sse then a.(mxcsr := 0x1F80, xmm := seq(16, _ => ZERO)) else a
  }

  function HighOf(frame: Frame, extended: bool): Vectors {
    if extended && frame.features.avx then frame.ymmHigh else seq(16, _ => ZERO)
  }

  function RestoredFrame(s: State, frame: Frame, extended: bool): State {
    Restored(s, Effective(frame, extended)).(ymmHigh := HighOf(frame, extended))
  }

  // ----- Round trips -----

  /** Whatever the stack top, every physical register returns to its own place,
      and stays empty or not. */
  lemma {:induction false} RegistersReturn(s: State, t: State)
    ensures var r := Restored(t, Saved(s));
      && r.regs == s.regs && r.xmm == s.xmm && r.control == s.control
      && r.status == Summarized(s.control, s.status) && r.mxcsr == s.mxcsr % 0x1_0000
      && forall p :: 0 <= p < 8 ==> (r.tags[p] == EMPTY_TAG <==> s.tags[p] == EMPTY_TAG)
  {
    var fx, r := Saved(s), Restored(t, Saved(s));
    forall p | 0 <= p < 8 ensures r.regs[p] == s.regs[p] && RegOf(fx, p) == s.regs[p] {
      assert fx.st[Logical(s.status, p)] == SlotOf(s.regs, s.status, Logical(s.status, p));
    }
  }

  /** Every tag of the register it names is the one its contents call for. */
  predicate Classified(s: State) {
    forall p :: 0 <= p < 8 ==>
      s.tags[p] == X87Tag(s.regs[p].significand, s.regs[p].signExp, s.tags[p] != EMPTY_TAG)
  }

  /** The summary bit tells what the other bits call for. */
  predicate Told(s: State) {
    s.status == Summarized(s.control, s.status)
  }

  /** Restoring what was saved gives back the visible state itself exactly when the
      tags were the computed ones, the summary bit told, and MXCSR's upper half clear. */
  lemma {:induction false} StateReturns(s: State)
    ensures var r := Restored(s, Saved(s));
      r == s.(cached := r.cached, inMmx := false) <==> Classified(s) && Told(s) && s.mxcsr < 0x1_0000
  {
    var r := Restored(s, Saved(s));
    RegistersReturn(s, s);
    forall p | 0 <= p < 8
      ensures r.tags[p] == X87Tag(s.regs[p].significand, s.regs[p].signExp, s.tags[p] != EMPTY_TAG)
    {
      assert r.regs[p] == RegOf(Saved(s), p);
    }
    if Classified(s) { assert r.tags == s.tags; }
  }

  /** Saving, restoring anywhere and saving again gives the same area exactly when
      the summary bit told and MXCSR's upper half was clear. */
  lemma {:induction false} SavedAgain(s: State, t: State)
    ensures Saved(Restored(t, Saved(s))) == Saved(s) <==> Told(s) && s.mxcsr < 0x1_0000
  {
    var fx, r := Saved(s), Restored(t, Saved(s));
    RegistersReturn(s, t);
    SummaryStays(s.control, s.status);
    forall i | 0 <= i < 8 ensures Saved(r).st[i] == fx.st[i] && Saved(r).tag[i] == fx.tag[i] {
      assert Saved(r).st[i] == SlotOf(r.regs, r.status, i);
    }
    assert Saved(r).st == fx.st && Saved(r).tag == fx.tag;
  }

  // ----- What writes MXCSR and the status word -----

  /** LDMXCSR, FLDCW, an exception that leaves these flags, FCLEX, FXRSTOR and the
      return from a signal. */
  datatype Write = LoadMxcsr(value: Uint32) | LoadControl(word: Uint16) | Raise(flags: Uint16) | Clear
                 | RestoreArea(fx: Fx) | SignalReturn(frame: Frame, extended: bool)

  function Written(s: State, w: Write): State {
    match w
    case LoadMxcsr(value) => s.(mxcsr := value % 0x1_0000)
    case LoadControl(word) => s.(control := word, status := Summarized(word, s.status))
    case Raise(flags) => s.(status := Summarized(s.control, flags))
    case Clear => s.(status := s.status % 0x8000 / 0x100 * 0x100)
    case RestoreArea(fx) => Restored(s, fx)
    case SignalReturn(frame, extended) => RestoredFrame(s, frame, extended)
  }

  function AllWritten(s: State, ws: seq<Write>): State {
    if ws == [] then s else Written(AllWritten(s, ws[..|ws| - 1]), ws[|ws| - 1])
  }

  /** From the initial state on, whatever these write, saving what was restored gives
      the area that was saved. */
  lemma {:induction false} RunsSaveAgain(s: State, ws: seq<Write>, t: State)
    requires s.mxcsr == 0x1F80 && s.status == 0
    ensures var r := AllWritten(s, ws); Saved(Restored(t, Saved(r))) == Saved(r)
  {
    Settled(s, ws);
    SavedAgain(AllWritten(s, ws), t);
  }

  lemma {:induction false} Settled(s: State, ws: seq<Write>)
    requires s.mxcsr == 0x1F80 && s.status == 0
    ensures Told(AllWritten(s, ws)) && AllWritten(s, ws).mxcsr < 0x1_0000
  {
    if ws == [] {
      NoneIsTold(s.control, 0);
    } else {
      Settled(s, ws[..|ws| - 1]);
      StaysTold(AllWritten(s, ws[..|ws| - 1]), ws[|ws| - 1]);
    }
  }

  lemma {:induction false} NoneIsTold(control: Uint16, status: Uint16)
    requires status % 0x100 == 0
    ensures Summarized(control, status) == status
  {
    assert status % 0x80 == 0 % 0x80 by { NoLowByte(status); }
    forall k | 0 <= k < 6 ensures !BitSet(status, k) {
      LowBit(status, 0, k);
      NoBit(k);
    }
    NoLowByte(status);
  }

  lemma {:induction false} NoLowByte(x: nat)
    requires x % 0x100 == 0
    ensures x / 0x100 * 0x100 == x && x % 0x80 == 0
  {
  }

  lemma {:induction false} NoBit(k: nat)
    ensures !BitSet(0, k)
  {
    if k > 0 { NoBit(k - 1); }
  }

  lemma {:induction false} StaysTold(s: State, w: Write)
    requires Told(s)
    ensures Told(Written(s, w))
  {
    match w
    case LoadMxcsr(value) =>
    case LoadControl(word) => SummaryStays(word, s.status);
    case Raise(flags) => SummaryStays(s.control, flags);
    case Clear => NoneIsTold(s.control, s.status % 0x8000 / 0x100 * 0x100);
    case RestoreArea(fx) => SummaryStays(fx.control, fx.status);
    case SignalReturn(frame, extended) =>
      var fx := Effective(frame, extended);
      SummaryStays(fx.control, fx.status);
  }

  /** With XSAVE on, the upper halves return as well. */
  lemma {:induction false} FrameReturns(s: State, t: State)
    requires s.xsave
    ensures var r := RestoredFrame(t, SavedFrame(s), true);
      && r.regs == s.regs && r.xmm == s.xmm && r.ymmHigh == s.ymmHigh
      && r.control == s.control && r.status == Summarized(s.control, s.status) && r.mxcsr == s.mxcsr % 0x1_0000
  {
    RegistersReturn(s, t);
  }

  /** A component the frame lacks comes back as its initial state, and the others
      as the frame has them. */
  lemma {:induction false} AbsentIsInitial(t: State, frame: Frame)
    ensures var r := RestoredFrame(t, frame, true);
      && (!frame.features.x87 ==> r.control == 0x37F && r.status == 0)
      && (!frame.features.x87 ==> forall p :: 0 <= p < 8 ==> r.tags[p] == EMPTY_TAG && r.regs[p] == Reg(0, 0))
      && (!frame.features.sse ==> r.mxcsr == 0x1F80 && forall i :: 0 <= i < 16 ==> r.xmm[i] == ZERO)
      && (!frame.features.avx ==> forall i :: 0 <= i < 16 ==> r.ymmHigh[i] == ZERO)
      && (frame.features.sse ==> r.xmm == frame.legacy.xmm)
      && (frame.features.avx ==> r.ymmHigh == frame.ymmHigh)
  {
    var fx := Effective(frame, true);
    NoneIsTold(fx.control, 0);
    forall p | 0 <= p < 8 && !frame.features.x87 ensures RegOf(fx, p) == Reg(0, 0) {
      assert fx.st[Logical(fx.status, p)] == ZERO;
    }
  }

  /** A frame taken without its extended part: only the legacy area counts, and the
      upper halves are cleared. */
  lemma {:induction false} LegacyAlone(t: State, frame: Frame)
    ensures var r, fx := RestoredFrame(t, frame, false), frame.legacy;
      && r.control == fx.control && r.status == Summarized(fx.control, fx.status)
      && r.mxcsr == fx.mxcsr % 0x1_0000 && r.xmm == fx.xmm
      && (forall p :: 0 <= p < 8 ==> r.regs[p] == RegOf(fx, p) && (r.tags[p] == EMPTY_TAG <==> !fx.tag[p]))
      && forall i :: 0 <= i < 16 ==> r.ymmHigh[i] == ZERO
  {
  }

  /** So without XSAVE everything but the upper halves returns. */
  lemma {:induction false} LegacyReturns(s: State, t: State)
    requires !s.xsave
    ensures var r := RestoredFrame(t, SavedFrame(s), false);
      && r.regs == s.regs && r.xmm == s.xmm && r.control == s.control
      && r.status == Summarized(s.control, s.status) && r.mxcsr == s.mxcsr % 0x1_0000
      && forall i :: 0 <= i < 16 ==> r.ymmHigh[i] == ZERO
  {
    RegistersReturn(s, t);
  }

  /** What a frame says of itself: with XSAVE 832 bytes of state, four more with the magic
      number behind it, and all three components; without, nothing. */
  lemma {:induction false} FrameSays(s: State)
    ensures var f := SavedFrame(s);
      && f.legacy.mxcsrMask == 0xFFFF
      && (s.xsave ==>
            && f.info == Info(0x46505853, 832 + 4, 7, 832) && f.magic2 == 0x46505845
            && f.features.x87 && f.features.sse && f.features.avx)
      && (!s.xsave ==>
            && f.info == Info(0, 0, 0, 0) && f.magic2 == 0
            && !f.features.x87 && !f.features.sse && !f.features.avx && forall i :: 0 <= i < 16 ==> f.ymmHigh[i] == ZERO)
  {
  }
}
