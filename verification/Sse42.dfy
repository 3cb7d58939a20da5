/** The four packed string compares of SSE4.2, against their definition in the
    Intel Software Developer's Manual, volume 2, section 4.1. */
module Sse42 {
  import opened Numbers
  import opened Masks

  type Operand = b: seq<bv8> | |b| == 16 witness seq(16, _ => 0)

  // ----- The control byte -----

  function Count(imm: bv8): int { if imm & 1 != 0 then 8 else 16 }
  function Signed(imm: bv8): bool { imm & 2 != 0 }
  function Aggregation(imm: bv8): bv8 { (imm >> 2) & 3 }
  function Polarity(imm: bv8): bv8 { (imm >> 4) & 3 }
  function Expanded(imm: bv8): bool { imm & 0x40 != 0 }

  /** An element as the compared integer. */
  function Element(bytes: Operand, i: nat, imm: bv8): int
    requires i < Count(imm)
  {
    if imm & 1 != 0 then AsWord(bytes[2 * i], bytes[2 * i + 1], Signed(imm)) else AsByte(bytes[i], Signed(imm))
  }

  function AsByte(x: bv8, signed: bool): int {
    if signed && x as int >= 0x80 then x as int - 0x100 else x as int
  }

  function AsWord(low: bv8, high: bv8, signed: bool): int {
    var raw := low as int + 256 * (high as int);
    if signed && raw >= 0x8000 then raw - 0x1_0000 else raw
  }

  // ----- The manual's definition -----

  /** An instruction's operands, with lengths already at most the element count. */
  datatype Input = Input(a: Operand, la: nat, b: Operand, lb: nat, imm: bv8) {
    ghost predicate Ok() { la <= Count(imm) && lb <= Count(imm) }

    /** Comparison of element i of the first with element j of the second operand. */
    ghost predicate Compared(i: nat, j: nat)
      requires i < Count(imm) && j < Count(imm)
    {
      var x, y := Element(a, i, imm), Element(b, j, imm);
      if Aggregation(imm) != 1 then x == y else if i % 2 == 0 then x <= y else y <= x
    }

    /** BoolRes, with the overrides for invalid elements. */
    ghost predicate BoolRes(i: nat, j: nat)
      requires i < Count(imm) && j < Count(imm)
    {
      if i < la && j < lb then Compared(i, j)
      else if i < la then false
      else if j < lb then Aggregation(imm) == 3
      else Aggregation(imm) == 2 || Aggregation(imm) == 3
    }

    /** IntRes1, bit j. */
    ghost predicate Aggregated(j: nat)
      requires j < Count(imm)
    {
      var n := Count(imm);
      if Aggregation(imm) == 0 then exists i: nat :: i < n && BoolRes(i, j)
      else if Aggregation(imm) == 1 then exists k: nat :: 2 * k + 1 < n && BoolRes(2 * k, j) && BoolRes(2 * k + 1, j)
      else if Aggregation(imm) == 2 then BoolRes(j, j)
      else forall i: nat :: OrderedAt(i, j)
    }

    ghost predicate OrderedAt(i: nat, j: nat) {
      i + j < Count(imm) ==> BoolRes(i, i + j)
    }

    /** IntRes2 from IntRes1. */
    ghost predicate Polarized(bit: bool, j: nat) {
      if Polarity(imm) == 1 || (Polarity(imm) == 3 && j < lb) then !bit else bit
    }

    /** Where equal-ordered departs from the manual: the first operand runs off
        the end of a full second operand, all that is left of which it matches. */
    ghost predicate RunsOff(j: nat) {
      && Aggregation(imm) == 3 && j < Count(imm) < j + la && lb == Count(imm)
      && forall i: nat :: SameAt(i, j)
    }

    ghost predicate SameAt(i: nat, j: nat) {
      i + j < Count(imm) ==> Element(a, i, imm) == Element(b, i + j, imm)
    }
  }

  // ----- The lengths -----

  /** |value|, saturated to the element count; `wide` reads all 64 bits as signed,
      otherwise the low 32. */
  function ExplicitLength(value: int, wide: bool, imm: bv8): (n: nat)
    requires 0 <= value < 0x1_0000_0000_0000_0000
    ensures n <= Count(imm)
  {
    var low := value % 0x1_0000_0000;
    var signed := if wide then (if value < 0x8000_0000_0000_0000 then value else value - 0x1_0000_0000_0000_0000)
                  else if low < 0x8000_0000 then low else low - 0x1_0000_0000;
    var magnitude := if signed < 0 then -(signed + 1) + 1 else signed;
    if magnitude > Count(imm) then Count(imm) else magnitude
  }

  /** The register read as a signed number, of 64 bits or of its low 32. */
  predicate ReadsAs(value: int, wide: bool, n: int) {
    var width := if wide then 0x1_0000_0000_0000_0000 else 0x1_0000_0000;
    -width / 2 <= n < width / 2 && (value - n) % width == 0
  }

  /** The length is the absolute value cut to the element count, down to the most
      negative value. */
  lemma {:induction false} LengthIsMagnitude(value: int, wide: bool, imm: bv8, n: int)
    requires 0 <= value < 0x1_0000_0000_0000_0000 && ReadsAs(value, wide, n)
    ensures ExplicitLength(value, wide, imm) == Min(Max(n, -n), Count(imm))
  {
    if wide { ReadsAsWide(value, n); } else { ReadsAsLow(value, n); }
  }

  lemma {:induction false} ReadsAsWide(value: int, n: int)
    requires 0 <= value < 0x1_0000_0000_0000_0000 && ReadsAs(value, true, n)
    ensures n == if value < 0x8000_0000_0000_0000 then value else value - 0x1_0000_0000_0000_0000
  {
  }

  lemma {:induction false} ReadsAsLow(value: int, n: int)
    requires ReadsAs(value, false, n)
    ensures var low := value % 0x1_0000_0000;
      n == if low < 0x8000_0000 then low else low - 0x1_0000_0000
  {
    var low := value % 0x1_0000_0000;
    assert (low - n) % 0x1_0000_0000 == 0;
  }

  /** The elements before the first zero element. */
  method ImplicitLength(bytes: Operand, imm: bv8) returns (n: nat)
    ensures n <= Count(imm)
    ensures forall i :: 0 <= i < n ==> Element(bytes, i, imm) != 0
    ensures n < Count(imm) ==> Element(bytes, n, imm) == 0
  {
    for i := 0 to Count(imm)
      invariant forall k :: 0 <= k < i ==> Element(bytes, k, imm) != 0
    {
      if imm & 1 != 0 {
        if bytes[i * 2] == 0 && bytes[i * 2 + 1] == 0 { return i; }
      } else if bytes[i] == 0 {
        return i;
      }
    }
    return Count(imm);
  }

  // ----- The compare -----

  /** A byte as its bits, lowest first. */
  type Byte = b: seq<bool> | |b| == 8 witness seq(8, _ => false)

  datatype Result = Result(mask: Word, index: int, xmm0: seq<Byte>, cf: bool, zf: bool, sf: bool, of: bool)

  /** Equal-ordered as the program has it: the whole first operand stands in the
      second at element j. */
  ghost predicate StandsAt(q: Input, j: nat)
    requires q.Ok()
  {
    forall i: nat :: i < q.la ==> StandsOne(q, i, j)
  }

  ghost predicate StandsOne(q: Input, i: nat, j: nat)
    requires q.Ok() && i < q.la
  {
    i + j < q.lb && Element(q.a, i, q.imm) == Element(q.b, i + j, q.imm)
  }

  /** IntRes1, bit j, as the program has it. */
  ghost predicate Matched(q: Input, j: nat)
    requires q.Ok() && j < Count(q.imm)
  {
    if Aggregation(q.imm) == 3 then StandsAt(q, j) else q.Aggregated(j)
  }

  method AnyEqual(q: Input, j: nat) returns (bit: bool)
    requires q.Ok() && j < Count(q.imm) && Aggregation(q.imm) == 0
    ensures bit == q.Aggregated(j)
  {
    bit := false;
    if j < q.lb {
      for i := 0 to q.la
        invariant forall k :: 0 <= k < i ==> Element(q.a, k, q.imm) != Element(q.b, j, q.imm)
      {
        if Element(q.a, i, q.imm) == Element(q.b, j, q.imm) {
          assert q.BoolRes(i, j);
          return true;
        }
      }
    }
  }

  /** Element j of the second operand lies in range number m of the first. */
  ghost predicate LiesIn(q: Input, m: nat, j: nat)
    requires q.Ok() && j < Count(q.imm)
  {
    && j < q.lb && 2 * m + 1 < q.la
    && Element(q.a, 2 * m, q.imm) <= Element(q.b, j, q.imm) <= Element(q.a, 2 * m + 1, q.imm)
  }

  lemma {:induction false} RangeAt(q: Input, m: nat, j: nat)
    requires q.Ok() && j < Count(q.imm) && Aggregation(q.imm) == 1 && 2 * m + 1 < Count(q.imm)
    ensures q.BoolRes(2 * m, j) && q.BoolRes(2 * m + 1, j) <==> LiesIn(q, m, j)
  {
    assert 2 * m % 2 == 0 && (2 * m + 1) % 2 == 1;
  }

  lemma {:induction false} RangeIs(q: Input, j: nat)
    requires q.Ok() && j < Count(q.imm) && Aggregation(q.imm) == 1
    ensures q.Aggregated(j) <==> exists m: nat :: LiesIn(q, m, j)
  {
    if q.Aggregated(j) {
      var m: nat :| 2 * m + 1 < Count(q.imm) && q.BoolRes(2 * m, j) && q.BoolRes(2 * m + 1, j);
      RangeAt(q, m, j);
    }
    if m: nat :| LiesIn(q, m, j) {
      RangeAt(q, m, j);
    }
  }

  method InRange(q: Input, j: nat) returns (bit: bool)
    requires q.Ok() && j < Count(q.imm) && Aggregation(q.imm) == 1
    ensures bit == q.Aggregated(j)
  {
    RangeIs(q, j);
    bit := false;
    if j < q.lb {
      var y := Element(q.b, j, q.imm);
      var k := 0;
      while k + 1 < q.la
        invariant 0 <= k && k % 2 == 0
        invariant forall m: nat :: 2 * m < k ==> !LiesIn(q, m, j)
      {
        if Element(q.a, k, q.imm) <= y && y <= Element(q.a, k + 1, q.imm) {
          ghost var m := k / 2;
          assert LiesIn(q, m, j);
          return true;
        }
        k := k + 2;
      }
    }
  }

  method EachEqual(q: Input, j: nat) returns (bit: bool)
    requires q.Ok() && j < Count(q.imm) && Aggregation(q.imm) == 2
    ensures bit == q.Aggregated(j)
  {
    if j < q.la && j < q.lb {
      bit := Element(q.a, j, q.imm) == Element(q.b, j, q.imm);
    } else {
      bit := !(j < q.la) && !(j < q.lb);
    }
  }

  method Ordered(q: Input, j: nat) returns (bit: bool)
    requires q.Ok() && j < Count(q.imm)
    ensures bit == StandsAt(q, j)
  {
    for i := 0 to Count(q.imm)
      invariant forall k: nat :: k < i && k < q.la ==> StandsOne(q, k, j)
    {
      if !(i < q.la) {
        break;
      }
      if j + i >= Count(q.imm) || j + i >= q.lb {
        assert !StandsOne(q, i, j);
        return false;
      }
      if Element(q.a, i, q.imm) != Element(q.b, j + i, q.imm) {
        assert !StandsOne(q, i, j);
        return false;
      }
    }
    return true;
  }

  /** Where the whole compare is what the manual says it is: wherever the first
      operand does not run off the end of the second. */
  lemma {:induction false} MatchedIsAggregated(q: Input, j: nat)
    requires q.Ok() && j < Count(q.imm)
    ensures (Matched(q, j) <==> q.Aggregated(j)) <==> !q.RunsOff(j)
  {
    if Aggregation(q.imm) == 3 {
      var n := Count(q.imm);
      if j + q.la <= n {
        assert forall i: nat :: i < q.la ==> (StandsOne(q, i, j) <==> q.OrderedAt(i, j));
      } else {
        assert !StandsOne(q, n - j, j);
        if q.RunsOff(j) {
          assert forall i: nat :: q.SameAt(i, j) ==> q.OrderedAt(i, j);
        } else if q.lb == n {
          var i: nat :| !q.SameAt(i, j);
          assert !q.OrderedAt(i, j);
        } else {
          assert !q.OrderedAt(n - 1 - j, j);
        }
      }
    }
  }

  /** A needle of two bytes whose first stands last in the haystack: the manual
      reports the match that runs off the end, the program does not. */
  lemma {:induction false} OrderedDeparts(a: Operand, b: Operand)
    requires b[15] == a[0]
    ensures var q := Input(a, 2, b, 16, 0x0c); q.RunsOff(15) && q.Aggregated(15) && !Matched(q, 15)
  {
    var q := Input(a, 2, b, 16, 0x0c);
    assert Element(a, 0, 0x0c) == Element(b, 15, 0x0c);
    assert forall i: nat :: q.SameAt(i, 15);
    MatchedIsAggregated(q, 15);
    assert !StandsOne(q, 1, 15);
  }

  /** IntRes1: one bit per element of the second operand. */
  method Aggregate(q: Input) returns (intRes1: Word)
    requires q.Ok()
    ensures forall j :: 0 <= j < 32 ==> (intRes1[j] <==> j < Count(q.imm) && Matched(q, j))
  {
    intRes1 := ZERO;
    for j := 0 to Count(q.imm)
      invariant forall k :: 0 <= k < 32 ==> (intRes1[k] <==> k < j && Matched(q, k))
    {
      var bit;
      if Aggregation(q.imm) == 0 {
        bit := AnyEqual(q, j);
      } else if Aggregation(q.imm) == 1 {
        bit := InRange(q, j);
      } else if Aggregation(q.imm) == 2 {
        bit := EachEqual(q, j);
      } else {
        bit := Ordered(q, j);
      }
      if bit {
        intRes1 := Or(intRes1, Bit(j));
      }
    }
  }

  /** The bit of the second operand's element j in IntRes2. */
  ghost predicate Outcome(q: Input, j: nat)
    requires q.Ok() && j < Count(q.imm)
  {
    q.Polarized(Matched(q, j), j)
  }

  method Polarize(q: Input, intRes1: Word) returns (intRes2: Word)
    requires q.Ok()
    requires forall j :: 0 <= j < 32 ==> (intRes1[j] <==> j < Count(q.imm) && Matched(q, j))
    ensures forall j :: 0 <= j < 32 ==> (intRes2[j] <==> j < Count(q.imm) && Outcome(q, j))
  {
    var allBits := Ones(Count(q.imm));
    intRes2 := intRes1;
    if Polarity(q.imm) == 1 {
      intRes2 := And(Not(intRes1), allBits);
    } else if Polarity(q.imm) == 3 {
      intRes2 := Xor(intRes1, if q.lb >= Count(q.imm) then allBits else Ones(q.lb));
    }
    intRes2 := And(intRes2, allBits);
  }

  /** The least or, with the expanded form, the greatest set bit; the element
      count when there is none. */
  ghost predicate IsIndex(mask: Word, last: bool, count: int, index: int)
    requires count <= 32
  {
    if forall j :: 0 <= j < count ==> !mask[j] then index == count else
      && 0 <= index < count && mask[index]
      && (last ==> forall j :: index < j < count ==> !mask[j])
      && (!last ==> forall j :: 0 <= j < index ==> !mask[j])
  }

  method FindIndex(mask: Word, last: bool, count: int) returns (index: int)
    requires count == 8 || count == 16
    requires forall j :: count <= j < 32 ==> !mask[j]
    ensures IsIndex(mask, last, count, index)
  {
    if mask == ZERO {
      index := count;
    } else if last {
      index := 0;
      for j := 0 to count
        invariant 0 <= index < count && (mask[index] || forall k :: 0 <= k < j ==> !mask[k])
        invariant forall k :: index < k < j ==> !mask[k]
      {
        if mask[j] { index := j; }
      }
    } else {
      index := 0;
      while !mask[index]
        invariant 0 <= index < count && forall k :: 0 <= k < index ==> !mask[k]
        decreases count - index
      {
        assert mask != ZERO;
        index := index + 1;
      }
    }
  }

  /** The mask form's register: the mask's bits, or one byte or word of ones or
      zeros per element. */
  ghost predicate IsMaskRegister(mask: Word, imm: bv8, xmm0: seq<Byte>) {
    |xmm0| == 16 && forall b, t :: 0 <= b < 16 && 0 <= t < 8 ==>
      xmm0[b][t] == if Expanded(imm) then mask[if Count(imm) == 16 then b else b / 2] else b < 2 && mask[8 * b + t]
  }

  method MaskRegister(mask: Word, imm: bv8) returns (xmm0: seq<Byte>)
    ensures IsMaskRegister(mask, imm, xmm0)
  {
    var zero: Byte := seq(8, _ => false);
    xmm0 := seq(16, _ => zero);
    if Expanded(imm) {
      for j := 0 to Count(imm)
        invariant |xmm0| == 16
        invariant forall b, t :: 0 <= b < (if Count(imm) == 16 then j else 2 * j) && 0 <= t < 8 ==>
          xmm0[b][t] == mask[if Count(imm) == 16 then b else b / 2]
      {
        var flood := seq(8, _ => mask[j]);
        if Count(imm) == 16 {
          xmm0 := xmm0[j := flood];
        } else {
          xmm0 := xmm0[2 * j := flood][2 * j + 1 := flood];
        }
      }
    } else {
      xmm0 := xmm0[0 := mask[0..8]][1 := mask[8..16]];
    }
  }

  // ----- The compare in raw bytes -----

  /** The element count, by the data size in bit 0. */
  predicate Counts(imm: bv8, n: int) {
    n == if imm & 0x01 == 0 then 16 else 8
  }

  ghost predicate InBytes(imm: bv8, i: nat) {
    i < 16 && (imm & 0x01 == 0 || 2 * i + 1 < 16)
  }

  /** The same bytes; words take two, the low one first. */
  ghost predicate SameBytes(imm: bv8, s: Operand, i: nat, t: Operand, j: nat)
    requires InBytes(imm, i) && InBytes(imm, j)
  {
    if imm & 0x01 == 0 then s[i] == t[j] else s[2 * i] == t[2 * j] && s[2 * i + 1] == t[2 * j + 1]
  }

  /** Not above, byte for byte: in two's complement the sign bit counts the other way. */
  ghost predicate NotAbove(imm: bv8, s: Operand, i: nat, t: Operand, j: nat)
    requires InBytes(imm, i) && InBytes(imm, j)
  {
    var signed := imm & 0x02 != 0;
    if imm & 0x01 == 0 then ByteNotAbove(s[i], t[j], signed)
    else WordNotAbove(s[2 * i], s[2 * i + 1], t[2 * j], t[2 * j + 1], signed)
  }

  predicate ByteNotAbove(x: bv8, y: bv8, signed: bool) {
    Biased(x, signed) <= Biased(y, signed)
  }

  predicate WordNotAbove(x0: bv8, x1: bv8, y0: bv8, y1: bv8, signed: bool) {
    Biased(x1, signed) < Biased(y1, signed) || (x1 == y1 && x0 <= y0)
  }

  function Biased(x: bv8, signed: bool): bv8 {
    if signed then x ^ 0x80 else x
  }

  lemma {:induction false} BiasedAsInt(x: bv8, signed: bool)
    ensures Biased(x, signed) as int == AsByte(x, signed) + (if signed then 0x80 else 0)
  {
    if signed {
      assert (x ^ 0x80) as int == if x as int >= 0x80 then x as int - 0x80 else x as int + 0x80;
    }
  }

  lemma {:induction false} BytesAsInts(x: bv8, y: bv8)
    ensures (x as int <= y as int <==> x <= y) && (x as int == y as int <==> x == y)
  {
  }

  lemma {:induction false} ElementsAreBytes(imm: bv8, s: Operand, i: nat, t: Operand, j: nat)
    requires i < Count(imm) && j < Count(imm)
    ensures InBytes(imm, i) && InBytes(imm, j)
    ensures Element(s, i, imm) == Element(t, j, imm) <==> SameBytes(imm, s, i, t, j)
    ensures Element(s, i, imm) <= Element(t, j, imm) <==> NotAbove(imm, s, i, t, j)
  {
    DataSize(imm);
    if imm & 0x01 == 0 { ByteElementsOrder(imm, s, i, t, j); } else { WordElementsOrder(imm, s, i, t, j); }
  }

  lemma {:induction false} DataSize(imm: bv8)
    ensures imm & 1 != 0 <==> imm & 0x01 != 0
    ensures Signed(imm) <==> imm & 0x02 != 0
    ensures Count(imm) == if imm & 0x01 == 0 then 16 else 8
  {
  }

  lemma {:induction false} ByteElementsOrder(imm: bv8, s: Operand, i: nat, t: Operand, j: nat)
    requires i < 16 && j < 16 && imm & 0x01 == 0 && Count(imm) == 16 && (Signed(imm) <==> imm & 0x02 != 0)
    ensures Element(s, i, imm) == Element(t, j, imm) <==> SameBytes(imm, s, i, t, j)
    ensures Element(s, i, imm) <= Element(t, j, imm) <==> NotAbove(imm, s, i, t, j)
  {
    ByteOrder(s[i], t[j], Signed(imm));
  }

  lemma {:induction false} WordElementsOrder(imm: bv8, s: Operand, i: nat, t: Operand, j: nat)
    requires i < 8 && j < 8 && imm & 0x01 != 0 && Count(imm) == 8 && (Signed(imm) <==> imm & 0x02 != 0)
    ensures Element(s, i, imm) == Element(t, j, imm) <==> SameBytes(imm, s, i, t, j)
    ensures Element(s, i, imm) <= Element(t, j, imm) <==> NotAbove(imm, s, i, t, j)
  {
    WordOrder(s[2 * i], s[2 * i + 1], t[2 * j], t[2 * j + 1], Signed(imm));
  }

  lemma {:induction false} ByteOrder(x: bv8, y: bv8, signed: bool)
    ensures AsByte(x, signed) <= AsByte(y, signed) <==> ByteNotAbove(x, y, signed)
    ensures AsByte(x, signed) == AsByte(y, signed) <==> Biased(x, signed) == Biased(y, signed)
    ensures Biased(x, signed) == Biased(y, signed) <==> x == y
  {
    BiasedAsInt(x, signed);
    BiasedAsInt(y, signed);
    BytesAsInts(Biased(x, signed), Biased(y, signed));
    OneBias(x, y, signed);
  }

  lemma {:induction false} OneBias(x: bv8, y: bv8, signed: bool)
    ensures Biased(x, signed) == Biased(y, signed) <==> x == y
  {
  }

  lemma {:induction false} WordSplits(low: bv8, high: bv8, signed: bool)
    ensures AsWord(low, high, signed) == low as int + 256 * AsByte(high, signed)
    ensures 0 <= low as int < 256
  {
  }

  lemma {:induction false} WordOrder(x0: bv8, x1: bv8, y0: bv8, y1: bv8, signed: bool)
    ensures AsWord(x0, x1, signed) <= AsWord(y0, y1, signed) <==> WordNotAbove(x0, x1, y0, y1, signed)
    ensures AsWord(x0, x1, signed) == AsWord(y0, y1, signed) <==> x0 == y0 && x1 == y1
  {
    WordSplits(x0, x1, signed);
    WordSplits(y0, y1, signed);
    BytesAsInts(x0, y0);
    ByteOrder(x1, y1, signed);
    ByteOrder(y1, x1, signed);
  }

  /** Bit j of IntRes1 as the program has it, by the aggregation in bits 2 and 3: equal
      any, ranges, equal each, equal ordered. */
  ghost predicate RawMatch(a: Operand, la: int, b: Operand, lb: int, imm: bv8, j: nat)
    requires InBytes(imm, j)
  {
    if imm & 0x0c == 0x00 then j < lb && exists i: nat :: RawSame(a, la, b, imm, i, j)
    else if imm & 0x0c == 0x04 then j < lb && exists m: nat :: RawRange(a, la, b, imm, m, j)
    else if imm & 0x0c == 0x08 then
      if j < la && j < lb then SameBytes(imm, a, j, b, j) else la <= j && lb <= j
    else forall i: nat :: i < la ==> RawFollows(a, b, lb, imm, i, j)
  }

  ghost predicate RawSame(a: Operand, la: int, b: Operand, imm: bv8, i: nat, j: nat)
    requires InBytes(imm, j)
  {
    i < la && InBytes(imm, i) && SameBytes(imm, a, i, b, j)
  }

  ghost predicate RawRange(a: Operand, la: int, b: Operand, imm: bv8, m: nat, j: nat)
    requires InBytes(imm, j)
  {
    && 2 * m + 1 < la && InBytes(imm, 2 * m + 1)
    && NotAbove(imm, a, 2 * m, b, j) && NotAbove(imm, b, j, a, 2 * m + 1)
  }

  ghost predicate RawFollows(a: Operand, b: Operand, lb: int, imm: bv8, i: nat, j: nat) {
    i + j < lb && InBytes(imm, i) && InBytes(imm, i + j) && SameBytes(imm, a, i, b, i + j)
  }

  /** Bit j of the mask, by the polarity in bits 4 and 5: as it is, negated, or negated
      where the second operand is valid. */
  ghost predicate RawOutcome(a: Operand, la: int, b: Operand, lb: int, imm: bv8, j: nat)
    requires InBytes(imm, j)
  {
    var m := RawMatch(a, la, b, lb, imm, j);
    if imm & 0x30 == 0x10 then !m else if imm & 0x30 == 0x30 && j < lb then !m else m
  }

  /** What the control byte asks for, bit by bit, is what the compare reads in it. */
  lemma {:induction false} ControlBits(imm: bv8)
    ensures Counts(imm, Count(imm)) && (Signed(imm) <==> imm & 0x02 != 0) && (Expanded(imm) <==> imm & 0x40 == 0x40)
    ensures Aggregation(imm) == 0 <==> imm & 0x0c == 0x00
    ensures Aggregation(imm) == 1 <==> imm & 0x0c == 0x04
    ensures Aggregation(imm) == 2 <==> imm & 0x0c == 0x08
    ensures Aggregation(imm) == 3 <==> imm & 0x0c == 0x0c
    ensures imm & 0x0c in {0x00, 0x04, 0x08, 0x0c}
    ensures (Polarity(imm) == 1 <==> imm & 0x30 == 0x10) && (Polarity(imm) == 3 <==> imm & 0x30 == 0x30)
  {
  }

  lemma {:induction false} OutcomeIsRaw(q: Input, j: nat)
    requires q.Ok() && j < Count(q.imm)
    ensures InBytes(q.imm, j) && (Outcome(q, j) <==> RawOutcome(q.a, q.la, q.b, q.lb, q.imm, j))
  {
    ControlBits(q.imm);
    MatchIsRaw(q, j);
  }

  lemma {:induction false} MatchIsRaw(q: Input, j: nat)
    requires q.Ok() && j < Count(q.imm)
    ensures InBytes(q.imm, j) && (Matched(q, j) <==> RawMatch(q.a, q.la, q.b, q.lb, q.imm, j))
  {
    ControlBits(q.imm);
    if Aggregation(q.imm) == 0 {
      AnyIsRaw(q, j);
    } else if Aggregation(q.imm) == 1 {
      RangesAreRaw(q, j);
    } else if Aggregation(q.imm) == 2 {
      ElementsAreBytes(q.imm, q.a, j, q.b, j);
    } else {
      OrderedIsRaw(q, j);
    }
  }

  lemma {:induction false} AnyIsRaw(q: Input, j: nat)
    requires q.Ok() && j < Count(q.imm) && Aggregation(q.imm) == 0 && InBytes(q.imm, j)
    ensures q.Aggregated(j) <==> j < q.lb && exists i: nat :: RawSame(q.a, q.la, q.b, q.imm, i, j)
  {
    if q.Aggregated(j) {
      var i: nat :| i < Count(q.imm) && q.BoolRes(i, j);
      ElementsAreBytes(q.imm, q.a, i, q.b, j);
      assert RawSame(q.a, q.la, q.b, q.imm, i, j);
    }
    if i: nat :| j < q.lb && RawSame(q.a, q.la, q.b, q.imm, i, j) {
      ElementsAreBytes(q.imm, q.a, i, q.b, j);
      assert q.BoolRes(i, j);
    }
  }

  lemma {:induction false} RangesAreRaw(q: Input, j: nat)
    requires q.Ok() && j < Count(q.imm) && Aggregation(q.imm) == 1 && InBytes(q.imm, j)
    ensures q.Aggregated(j) <==> j < q.lb && exists m: nat :: RawRange(q.a, q.la, q.b, q.imm, m, j)
  {
    RangeIs(q, j);
    forall m: nat | 2 * m + 1 < q.la ensures j < q.lb ==> (LiesIn(q, m, j) <==> RawRange(q.a, q.la, q.b, q.imm, m, j)) {
      ElementsAreBytes(q.imm, q.a, 2 * m, q.b, j);
      ElementsAreBytes(q.imm, q.b, j, q.a, 2 * m + 1);
    }
  }

  lemma {:induction false} OrderedIsRaw(q: Input, j: nat)
    requires q.Ok() && j < Count(q.imm)
    ensures StandsAt(q, j) <==> forall i: nat :: i < q.la ==> RawFollows(q.a, q.b, q.lb, q.imm, i, j)
  {
    forall i: nat | i < q.la ensures StandsOne(q, i, j) <==> RawFollows(q.a, q.b, q.lb, q.imm, i, j) {
      if i + j < q.lb { ElementsAreBytes(q.imm, q.a, i, q.b, i + j); }
    }
  }

  /** The mask bit for bit, its index, and the flags, in terms of the operands' bytes and
      the control byte's bits alone. */
  ghost predicate RawResult(a: Operand, la: int, b: Operand, lb: int, imm: bv8, n: int, r: Result) {
    && (forall j :: 0 <= j < 32 ==> (r.mask[j] <==> j < n && InBytes(imm, j) && RawOutcome(a, la, b, lb, imm, j)))
    && 0 < n <= 16 && IsIndex(r.mask, imm & 0x40 == 0x40, n, r.index)
    && (r.zf <==> lb < n) && (r.sf <==> la < n)
  }

  lemma {:induction false} RawResultIs(q: Input, r: Result)
    requires q.Ok()
    requires forall j :: 0 <= j < 32 ==> (r.mask[j] <==> j < Count(q.imm) && Outcome(q, j))
    requires IsIndex(r.mask, Expanded(q.imm), Count(q.imm), r.index)
    requires (r.zf <==> q.lb < Count(q.imm)) && (r.sf <==> q.la < Count(q.imm))
    ensures RawResult(q.a, q.la, q.b, q.lb, q.imm, Count(q.imm), r) && Counts(q.imm, Count(q.imm))
  {
    ControlBits(q.imm);
    forall j: nat | j < Count(q.imm)
      ensures InBytes(q.imm, j) && (Outcome(q, j) <==> RawOutcome(q.a, q.la, q.b, q.lb, q.imm, j))
    {
      OutcomeIsRaw(q, j);
    }
  }

  // ----- The compare itself -----

  /** The mask has the manual's bits but where a match runs off the register. */
  lemma {:induction false} MaskMeets(q: Input, mask: Word)
    requires q.Ok()
    requires forall j :: 0 <= j < 32 ==> (mask[j] <==> j < Count(q.imm) && Outcome(q, j))
    ensures forall j :: 0 <= j < Count(q.imm) ==>
      ((mask[j] <==> q.Polarized(q.Aggregated(j), j)) <==> !q.RunsOff(j))
    ensures mask != ZERO <==> exists j :: 0 <= j < Count(q.imm) && mask[j]
  {
    forall j | 0 <= j < Count(q.imm)
      ensures (mask[j] <==> q.Polarized(q.Aggregated(j), j)) <==> !q.RunsOff(j)
    {
      MatchedIsAggregated(q, j);
    }
  }

  method Compare(first: Operand, firstLength: nat, second: Operand, secondLength: nat, imm: bv8)
    returns (r: Result, ghost q: Input)
    ensures q.Ok() && q == Input(first, Min(firstLength, Count(imm)), second, Min(secondLength, Count(imm)), imm)
    ensures forall j :: 0 <= j < Count(imm) ==>
      ((r.mask[j] <==> q.Polarized(q.Aggregated(j), j)) <==> !q.RunsOff(j))
    ensures forall j :: 0 <= j < Count(imm) ==> (r.mask[j] <==> q.Polarized(Matched(q, j), j))
    ensures forall j :: Count(imm) <= j < 32 ==> !r.mask[j]
    ensures IsIndex(r.mask, Expanded(imm), Count(imm), r.index) && IsMaskRegister(r.mask, imm, r.xmm0)
    ensures r.cf <==> exists j :: 0 <= j < Count(imm) && r.mask[j]
    ensures (r.zf <==> secondLength < Count(imm)) && (r.sf <==> firstLength < Count(imm)) && r.of == r.mask[0]
    ensures forall n :: Counts(imm, n) ==>
      RawResult(first, Min(firstLength, n), second, Min(secondLength, n), imm, n, r)
  {
    var count := Count(imm);
    var la := if firstLength > count then count else firstLength;
    var lb := if secondLength > count then count else secondLength;
    var input := Input(first, la, second, lb, imm);
    q := input;
    var intRes1 := Aggregate(input);
    var mask := Polarize(input, intRes1);
    MaskMeets(input, mask);
    var index := FindIndex(mask, Expanded(imm), count);
    var xmm0 := MaskRegister(mask, imm);
    r := Result(mask, index, xmm0, mask != ZERO, lb < count, la < count, mask[0]);
    RawResultIs(q, r);
  }

  // ----- What strcmp uses -----

  const STRCMP: bv8 := 0x1a

  /** The place where two strings first differ, or 16. */
  ghost predicate FirstDifference(s: seq<bv8>, t: seq<bv8>, r: int) {
    if s == t then r == 16 else
      && 0 <= r <= |s| && r <= |t| && s[..r] == t[..r]
      && ((r == |s|) != (r == |t|) || (r < |s| && r < |t| && s[r] != t[r]))
  }

  /** `n` characters come before the terminator, if there is one in the chunk. */
  ghost predicate IsLength(bytes: Operand, n: nat) {
    n <= 16 && (forall i :: 0 <= i < n ==> bytes[i] != 0) && (n < 16 ==> bytes[n] == 0)
  }

  /** PCMPISTRI with the immediate of strcmp finds where two sixteen-byte chunks
      of C strings first differ. */
  method StringsDiffer(first: Operand, second: Operand) returns (r: int, ghost la: nat, ghost lb: nat)
    ensures IsLength(first, la) && IsLength(second, lb) && FirstDifference(first[..la], second[..lb], r)
  {
    var m := ImplicitLength(first, STRCMP);
    var n := ImplicitLength(second, STRCMP);
    la, lb := m, n;
    ChunkLength(first, m);
    ChunkLength(second, n);
    var result;
    ghost var q;
    result, q := Compare(first, m, second, n, STRCMP);
    r := result.index;
    StrcmpIndex(q, result.mask, r);
  }

  lemma {:induction false} ByteElements(b: Operand, i: nat, c: Operand, k: nat)
    requires i < 16 && k < 16
    ensures Element(b, i, STRCMP) == Element(c, k, STRCMP) <==> b[i] == c[k]
    ensures Element(b, i, STRCMP) == 0 <==> b[i] == 0
  {}

  lemma {:induction false} ChunkLength(b: Operand, n: nat)
    requires n <= 16 && forall i :: 0 <= i < n ==> Element(b, i, STRCMP) != 0
    requires n < 16 ==> Element(b, n, STRCMP) == 0
    ensures IsLength(b, n)
  {
    forall i | 0 <= i < n ensures b[i] != 0 {
      assert Element(b, i, STRCMP) != 0;
      ByteElements(b, i, b, i);
    }
    if n < 16 { ByteElements(b, n, b, n); }
  }

  lemma {:induction false} StrcmpIndex(q: Input, mask: Word, r: int)
    requires q.Ok() && q.imm == STRCMP
    requires forall j :: 0 <= j < 16 ==> ((mask[j] <==> q.Polarized(q.Aggregated(j), j)) <==> !q.RunsOff(j))
    requires IsIndex(mask, false, 16, r)
    ensures FirstDifference(q.a[..q.la], q.b[..q.lb], r)
  {
    var s, t := q.a[..q.la], q.b[..q.lb];
    forall j | 0 <= j < 16
      ensures !mask[j] <==> (if j < q.la && j < q.lb then s[j] == t[j] else (j < q.la) == (j < q.lb))
    {
      ByteElements(q.a, j, q.b, j);
    }
    if s != t {
      var short := Min(q.la, q.lb);
      assert mask[short] || exists j :: 0 <= j < short && s[j] != t[j];
      assert exists j :: 0 <= j < 16 && mask[j];
      assert r <= short;
    }
  }
}
