/** Packing a whole array of rectangles: tallest first, and then back into the
    caller's order. */
module PackRects {
  import opened Skyline
  import opened RectPack

  datatype Rect = Rect(id: int, w: Coord, h: Coord, x: Coord, y: Coord, wasPacked: int)

  predicate Empty(r: Rect) { r.w == 0 || r.h == 0 }

  function BoxOf(r: Rect): Box { Box(r.x, r.y, r.w, r.h) }

  function HeightCompare(p: Rect, q: Rect): int {
    if p.h > q.h then -1 else if p.h < q.h then 1 else if p.w > q.w then -1 else if p.w < q.w then 1 else 0
  }

  function OriginalOrder(p: Rect, q: Rect): int {
    if p.wasPacked < q.wasPacked then -1 else if p.wasPacked > q.wasPacked then 1 else 0
  }

  // ----- Sorting -----

  ghost predicate Ordering(cmp: (Rect, Rect) -> int) {
    && (forall p, q :: cmp(p, q) <= 0 || cmp(q, p) <= 0)
    && (forall p, q, r :: cmp(p, q) <= 0 && cmp(q, r) <= 0 ==> cmp(p, r) <= 0)
  }

  ghost predicate Sorted(s: seq<Rect>, cmp: (Rect, Rect) -> int) {
    forall i, j :: 0 <= i < j < |s| ==> cmp(s[i], s[j]) <= 0
  }

  ghost predicate Permutation(order: seq<int>) {
    && (forall i :: 0 <= i < |order| ==> 0 <= order[i] < |order|)
    && (forall i, j :: 0 <= i < j < |order| ==> order[i] != order[j])
  }

  /** `s` is `t` taken in the order `order`. */
  ghost predicate Reordered(s: seq<Rect>, t: seq<Rect>, order: seq<int>) {
    |s| == |t| == |order| && Permutation(order) && forall i :: 0 <= i < |s| ==> s[i] == t[order[i]]
  }

  lemma {:induction false} SwapReordered(s: seq<Rect>, t: seq<Rect>, order: seq<int>, i: nat, k: nat)
    requires Reordered(s, t, order) && i < |s| && k < |s|
    ensures Reordered(s[i := s[k]][k := s[i]], t, order[i := order[k]][k := order[i]])
  {}

  /** The first `n` are sorted and come before all the others. */
  ghost predicate SortedUpTo(s: seq<Rect>, cmp: (Rect, Rect) -> int, n: nat) {
    forall k, l :: 0 <= k < n && k < l < |s| ==> cmp(s[k], s[l]) <= 0
  }

  lemma {:induction false} SwapSorted(s: seq<Rect>, cmp: (Rect, Rect) -> int, i: nat, least: nat)
    requires i <= least < |s| && SortedUpTo(s, cmp, i)
    requires forall l :: i <= l < |s| ==> cmp(s[least], s[l]) <= 0
    ensures SortedUpTo(s[i := s[least]][least := s[i]], cmp, i + 1)
  {
    var t := s[i := s[least]][least := s[i]];
    forall k, l | 0 <= k < i + 1 && k < l < |t| ensures cmp(t[k], t[l]) <= 0 {
      assert t[l] == s[if l == least then i else if l == i then least else l];
    }
  }

  method Least(a: array<Rect>, i: nat, cmp: (Rect, Rect) -> int) returns (least: nat)
    requires Ordering(cmp) && i < a.Length
    ensures i <= least < a.Length && forall l :: i <= l < a.Length ==> cmp(a[least], a[l]) <= 0
  {
    least := i;
    assert cmp(a[i], a[i]) <= 0;
    for j := i + 1 to a.Length
      invariant i <= least < a.Length
      invariant forall l :: i <= l < j ==> cmp(a[least], a[l]) <= 0
    {
      if cmp(a[least], a[j]) > 0 {
        assert cmp(a[j], a[least]) <= 0 && cmp(a[j], a[j]) <= 0;
        least := j;
      }
    }
  }

  /** Stands in for the library sort: some permutation that sorts. */
  method Sort(a: array<Rect>, cmp: (Rect, Rect) -> int) returns (ghost order: seq<int>)
    requires Ordering(cmp)
    modifies a
    ensures Reordered(a[..], old(a[..]), order) && Sorted(a[..], cmp)
  {
    order := seq(a.Length, i => i);
    for i := 0 to a.Length
      invariant Reordered(a[..], old(a[..]), order)
      invariant SortedUpTo(a[..], cmp, i)
    {
      var least := Least(a, i, cmp);
      ghost var s := a[..];
      SwapReordered(s, old(a[..]), order, i, least);
      SwapSorted(s, cmp, i, least);
      a[i], a[least] := a[least], a[i];
      assert a[..] == s[i := s[least]][least := s[i]];
      order := order[i := order[least]][least := order[i]];
    }
  }

  /** In a strictly increasing list of marks from 0 to n - 1, each mark is its index. */
  lemma {:induction false} MarkAtLeast(marks: seq<int>, i: nat)
    requires i < |marks| && forall k :: 0 <= k < |marks| ==> 0 <= marks[k]
    requires forall k, l :: 0 <= k < l < |marks| ==> marks[k] < marks[l]
    ensures i <= marks[i]
  {
    if i > 0 {
      MarkAtLeast(marks, i - 1);
      assert marks[i - 1] < marks[i];
    }
  }

  lemma {:induction false} MarkAtMost(marks: seq<int>, i: nat)
    requires i < |marks| && forall k :: 0 <= k < |marks| ==> marks[k] < |marks|
    requires forall k, l :: 0 <= k < l < |marks| ==> marks[k] < marks[l]
    ensures marks[i] <= i
    decreases |marks| - i
  {
    if i + 1 < |marks| {
      MarkAtMost(marks, i + 1);
      assert marks[i] < marks[i + 1];
    }
  }

  /** Marked with their positions, reordered, and sorted by mark, rectangles are
      back where they were. */
  lemma {:induction false} Unsorted(s: seq<Rect>, marks: seq<int>)
    requires |s| == |marks| && Permutation(marks)
    requires forall i :: 0 <= i < |s| ==> s[i].wasPacked == marks[i]
    requires Sorted(s, OriginalOrder)
    ensures forall i :: 0 <= i < |s| ==> marks[i] == i
  {
    forall k, l | 0 <= k < l < |marks| ensures marks[k] < marks[l] {
      assert OriginalOrder(s[k], s[l]) <= 0;
    }
    forall i | 0 <= i < |s| ensures marks[i] == i {
      MarkAtLeast(marks, i);
      MarkAtMost(marks, i);
    }
  }

  // ----- Packing -----

  /** What becomes of a rectangle: an empty one goes to the origin, a packed one
      has its box among those placed, and an unpacked one is marked. */
  ghost predicate Settled(r: Rect, placed: seq<Box>, from: nat, slot: int) {
    if Empty(r) then slot < 0 && r.x == 0 && r.y == 0
    else if slot < 0 then r.x == MAXVAL && r.y == MAXVAL
    else from <= slot < |placed| && placed[slot] == BoxOf(r)
  }

  ghost predicate SameInput(r: Rect, t: Rect) {
    r.id == t.id && r.w == t.w && r.h == t.h && r.wasPacked == t.wasPacked
  }

  ghost predicate Rising(slots: seq<int>) {
    forall i, j :: 0 <= i < j < |slots| && 0 <= slots[i] && 0 <= slots[j] ==> slots[i] < slots[j]
  }

  /** With a node for every column the pool never runs dry. */
  lemma {:induction false} NodesSuffice(c: Packer)
    requires c.Valid() && c.width <= c.numNodes
    ensures c.free != []
  {
    FewSegments(c.skyline, |c.skyline| - 1);
  }

  /** A rectangle was left out although there was a node for it only if no
      position on the skyline takes it. */
  ghost predicate NoRoom(r: Rect, slot: int, enough: bool, hs: seq<int>, height: int, align: nat)
    requires 1 <= align
  {
    enough && !Empty(r) && slot < 0 ==> !Fits(hs, height, AlignUp(r.w, align), r.h)
  }

  method PackOne(c: Packer, r: Rect) returns (r': Rect, ghost slot: int)
    requires c.Valid()
    modifies c.nodes, c`activeHead, c`freeHead, c`active, c`free, c`skyline, c`heights, c`placed
    ensures c.Valid() && SameInput(r', r) && Settled(r', c.placed, |old(c.placed)|, slot)
    ensures c.placed == if 0 <= slot then old(c.placed) + [BoxOf(r')] else old(c.placed)
    ensures 0 <= slot ==> slot == |old(c.placed)|
    ensures NoLower(old(c.heights), c.heights)
    ensures NoRoom(r', slot, c.width <= c.numNodes, old(c.heights), c.height, c.align)
  {
    slot := -1;
    if r.w == 0 || r.h == 0 {
      r' := r.(x := 0, y := 0);
    } else {
      if c.width <= c.numNodes { NodesSuffice(c); }
      var packed, x, y := c.PackRectangle(r.w, r.h);
      if packed {
        slot := |c.placed| - 1;
        assert Under(c.placed[slot], c.heights, c.height);
        r' := r.(x := x, y := y);
      } else {
        r' := r.(x := MAXVAL, y := MAXVAL);
      }
    }
  }

  /** The rectangles handled so far, and the boxes placed for them. */
  ghost predicate Progress(before: seq<Rect>, now: seq<Rect>, slots: seq<int>, placed: seq<Box>, from: nat) {
    && |slots| <= |now| == |before| && from <= |placed|
    && (forall i :: 0 <= i < |slots| ==> SameInput(now[i], before[i]) && Settled(now[i], placed, from, slots[i]))
    && (forall i :: |slots| <= i < |now| ==> now[i] == before[i])
    && Rising(slots) && (forall i :: 0 <= i < |slots| ==> slots[i] < |placed|)
    && (forall b :: from <= b < |placed| ==> b in slots)
  }

  lemma {:induction false} ProgressOne(before: seq<Rect>, now: seq<Rect>, slots: seq<int>, placed: seq<Box>, from: nat,
                    r: Rect, slot: int, placed': seq<Box>)
    requires Progress(before, now, slots, placed, from) && |slots| < |now|
    requires SameInput(r, now[|slots|]) && Settled(r, placed', from, slot)
    requires placed' == if 0 <= slot then placed + [BoxOf(r)] else placed
    requires 0 <= slot ==> slot == |placed|
    ensures Progress(before, now[|slots| := r], slots + [slot], placed', from)
  {
    var now', slots' := now[|slots| := r], slots + [slot];
    forall b | from <= b < |placed'| ensures b in slots' {
      if b == |placed| { assert slots'[|slots|] == b; } else { assert b in slots; }
    }
    forall i | 0 <= i < |slots| ensures Settled(now'[i], placed', from, slots'[i]) {
      assert Settled(now[i], placed, from, slots[i]);
    }
  }

  ghost predicate NoRoomSoFar(now: seq<Rect>, slots: seq<int>, enough: bool, hs: seq<int>, height: int, align: nat)
    requires 1 <= align && |slots| <= |now|
  {
    forall i :: 0 <= i < |slots| ==> NoRoom(now[i], slots[i], enough, hs, height, align)
  }

  lemma {:induction false} NoRoomStays(now: seq<Rect>, slots: seq<int>, enough: bool, hs: seq<int>, ks: seq<int>, height: int, align: nat)
    requires 1 <= align && |slots| <= |now|
    requires NoRoomSoFar(now, slots, enough, hs, height, align) && NoLower(hs, ks)
    ensures NoRoomSoFar(now, slots, enough, ks, height, align)
  {
    forall i | 0 <= i < |slots| ensures NoRoom(now[i], slots[i], enough, ks, height, align) {
      assert NoRoom(now[i], slots[i], enough, hs, height, align);
      var w := AlignUp(now[i].w, align);
      if Fits(ks, height, w, now[i].h) { FitsMonotone(hs, ks, height, w, now[i].h); }
    }
  }

  method PackSorted(c: Packer, rects: array<Rect>) returns (ghost slots: seq<int>)
    requires c.Valid()
    modifies rects
    modifies c.nodes, c`activeHead, c`freeHead, c`active, c`free, c`skyline, c`heights, c`placed
    ensures c.Valid() && old(c.placed) <= c.placed && |slots| == rects.Length
    ensures Progress(old(rects[..]), rects[..], slots, c.placed, |old(c.placed)|)
    ensures NoRoomSoFar(rects[..], slots, c.width <= c.numNodes, c.heights, c.height, c.align)
  {
    slots := [];
    ghost var from, enough := |c.placed|, c.width <= c.numNodes;
    for i := 0 to rects.Length
      invariant |slots| == i && c.Valid() && old(c.placed) <= c.placed
      invariant Progress(old(rects[..]), rects[..], slots, c.placed, from)
      invariant NoRoomSoFar(rects[..], slots, enough, c.heights, c.height, c.align)
    {
      ghost var now, hs, placed := rects[..], c.heights, c.placed;
      var r;
      ghost var slot;
      r, slot := PackOne(c, rects[i]);
      ProgressOne(old(rects[..]), now, slots, placed, from, r, slot, c.placed);
      rects[i] := r;
      assert rects[..] == now[i := r];
      slots := slots + [slot];
      assert NoRoomSoFar(rects[..], slots, enough, hs, c.height, c.align);
      NoRoomStays(rects[..], slots, enough, hs, c.heights, c.height, c.align);
    }
  }

  ghost function SlotsBack(slots: seq<int>, up: seq<int>): seq<int>
    requires |slots| == |up| && Permutation(up)
  {
    seq(|up|, i requires 0 <= i < |up| => slots[up[i]])
  }

  /** After packing in sorted order and sorting back, the rectangle at each
      index is the caller's, settled in the slot that went along with it. */
  lemma {:induction false} BackInOrder(marked: seq<Rect>, sorted: seq<Rect>, packed: seq<Rect>, back: seq<Rect>,
                    down: seq<int>, up: seq<int>, slots: seq<int>, placed: seq<Box>, from: nat)
    requires Reordered(sorted, marked, down) && Reordered(back, packed, up) && Sorted(back, OriginalOrder)
    requires forall i :: 0 <= i < |marked| ==> marked[i].wasPacked == i
    requires |slots| == |packed| && Progress(sorted, packed, slots, placed, from)
    ensures |back| == |marked| == |up|
    ensures var slots' := SlotsBack(slots, up);
      && (forall i :: 0 <= i < |back| ==> SameInput(back[i], marked[i]) && Settled(back[i], placed, from, slots'[i]))
      && (forall i, j :: 0 <= i < j < |back| && 0 <= slots'[i] ==> slots'[i] != slots'[j])
  {
    var marks := seq(|up|, i requires 0 <= i < |up| => down[up[i]]);
    forall i | 0 <= i < |back|
      ensures back[i].wasPacked == marks[i] && SameInput(back[i], marked[marks[i]])
      ensures Settled(back[i], placed, from, slots[up[i]])
    {
      assert SameInput(packed[up[i]], sorted[up[i]]) && Settled(packed[up[i]], placed, from, slots[up[i]]);
    }
    Unsorted(back, marks);
  }

  lemma {:induction false} NoRoomBack(packed: seq<Rect>, back: seq<Rect>, up: seq<int>, slots: seq<int>,
                   enough: bool, hs: seq<int>, height: int, align: nat)
    requires 1 <= align && Reordered(back, packed, up) && |slots| == |packed|
    requires NoRoomSoFar(packed, slots, enough, hs, height, align)
    ensures NoRoomSoFar(back, SlotsBack(slots, up), enough, hs, height, align)
  {
    forall i | 0 <= i < |back| ensures NoRoom(back[i], SlotsBack(slots, up)[i], enough, hs, height, align) {
      assert NoRoom(packed[up[i]], slots[up[i]], enough, hs, height, align);
    }
  }

  /** The boxes placed from index `from` on are in order of falling height, those
      of one height in order of falling width. */
  ghost predicate TallestFirst(placed: seq<Box>, from: nat) {
    forall a, b :: from <= a < b < |placed| ==>
      placed[a].h > placed[b].h || (placed[a].h == placed[b].h && placed[a].w >= placed[b].w)
  }

  lemma {:induction false} PlacedInOrder(sorted: seq<Rect>, packed: seq<Rect>, slots: seq<int>, placed: seq<Box>, from: nat)
    requires Sorted(sorted, HeightCompare) && |slots| == |packed|
    requires Progress(sorted, packed, slots, placed, from)
    ensures TallestFirst(placed, from)
  {
    forall a, b | from <= a < b < |placed|
      ensures placed[a].h > placed[b].h || (placed[a].h == placed[b].h && placed[a].w >= placed[b].w)
    {
      assert a in slots && b in slots;
      var i :| 0 <= i < |slots| && slots[i] == a;
      var j :| 0 <= j < |slots| && slots[j] == b;
      assert Settled(packed[i], placed, from, a) && Settled(packed[j], placed, from, b);
      assert SameInput(packed[i], sorted[i]) && SameInput(packed[j], sorted[j]);
      assert i < j;
      assert HeightCompare(sorted[i], sorted[j]) <= 0;
    }
  }

  method Number(rects: array<Rect>)
    modifies rects
    ensures forall i :: 0 <= i < rects.Length ==> rects[i] == old(rects[i]).(wasPacked := i)
  {
    for i := 0 to rects.Length
      invariant forall k :: 0 <= k < i ==> rects[k] == old(rects[k]).(wasPacked := k)
      invariant forall k :: i <= k < rects.Length ==> rects[k] == old(rects[k])
    {
      rects[i] := rects[i].(wasPacked := i);
    }
  }

  /** A box inside the target never has the coordinates that mark an unpacked
      rectangle. */
  method SetFlags(rects: array<Rect>, ghost original: seq<Rect>, ghost placed: seq<Box>, ghost from: nat,
                  ghost slots: seq<int>, ghost hs: seq<int>, ghost height: int) returns (allPacked: bool)
    requires |original| == |slots| == rects.Length && Packed(placed, hs, height) && |hs| <= 0xffff
    requires forall i :: 0 <= i < rects.Length ==>
      && rects[i].id == original[i].id && rects[i].w == original[i].w && rects[i].h == original[i].h
      && Settled(rects[i], placed, from, slots[i])
    modifies rects
    ensures forall i :: 0 <= i < rects.Length ==> Outcome(rects[i], original[i], placed, from, slots[i])
    ensures forall i :: 0 <= i < rects.Length ==> rects[i].w == old(rects[i].w) && rects[i].h == old(rects[i].h)
    ensures allPacked <==> forall i :: 0 <= i < rects.Length ==> rects[i].wasPacked == 1
  {
    allPacked := true;
    for i := 0 to rects.Length
      invariant forall k :: 0 <= k < i ==> Outcome(rects[k], original[k], placed, from, slots[k])
      invariant forall k :: 0 <= k < rects.Length ==> rects[k].w == old(rects[k].w) && rects[k].h == old(rects[k].h)
      invariant forall k :: i <= k < rects.Length ==> rects[k] == old(rects[k])
      invariant allPacked <==> forall k :: 0 <= k < i ==> rects[k].wasPacked == 1
    {
      var r := rects[i];
      assert Settled(r, placed, from, slots[i]);
      if !Empty(r) && 0 <= slots[i] { assert Under(placed[slots[i]], hs, height); }
      rects[i] := r.(wasPacked := if r.x == MAXVAL && r.y == MAXVAL then 0 else 1);
      assert Outcome(rects[i], original[i], placed, from, slots[i]);
      if rects[i].wasPacked == 0 {
        allPacked := false;
      }
    }
  }

  /** The rectangle as the caller gets it back. */
  ghost predicate Outcome(r: Rect, t: Rect, placed: seq<Box>, from: nat, slot: int) {
    && r.id == t.id && r.w == t.w && r.h == t.h
    && Settled(r, placed, from, slot)
    && r.wasPacked == if Empty(r) || 0 <= slot then 1 else 0
  }

  /** What an outcome says of one rectangle, in plain terms: without width or height it
      goes to the origin and counts as packed; otherwise it is packed exactly when it has
      a box of its own, where it lies in its own size. */
  lemma {:induction false} OutcomeIs(r: Rect, t: Rect, placed: seq<Box>, from: nat, slot: int)
    requires Outcome(r, t, placed, from, slot)
    ensures r.id == t.id && r.w == t.w && r.h == t.h && (r.wasPacked == 0 || r.wasPacked == 1)
    ensures r.w == 0 || r.h == 0 ==> r.x == 0 && r.y == 0 && r.wasPacked == 1 && !Placed(r)
    ensures r.w != 0 && r.h != 0 ==> (Placed(r) <==> r.wasPacked == 1) && (r.wasPacked == 1 <==> 0 <= slot)
    ensures r.w != 0 && r.h != 0 && r.wasPacked == 1 ==>
      from <= slot < |placed| && placed[slot] == Box(r.x, r.y, r.w, r.h)
  {
  }

  ghost predicate Distinct(slots: seq<int>) {
    forall i, j :: 0 <= i < j < |slots| && 0 <= slots[i] ==> slots[i] != slots[j]
  }

  /** Sorts, packs and sorts back. */
  method PackInOrder(c: Packer, rects: array<Rect>) returns (ghost slots: seq<int>)
    requires c.Valid()
    modifies rects
    modifies c.nodes, c`activeHead, c`freeHead, c`active, c`free, c`skyline, c`heights, c`placed
    ensures c.Valid() && old(c.placed) <= c.placed && |slots| == rects.Length && Distinct(slots)
    ensures forall i :: 0 <= i < rects.Length ==>
      && rects[i].id == old(rects[i]).id && rects[i].w == old(rects[i]).w && rects[i].h == old(rects[i]).h
      && Settled(rects[i], c.placed, |old(c.placed)|, slots[i])
    ensures NoRoomSoFar(rects[..], slots, c.width <= c.numNodes, c.heights, c.height, c.align)
    ensures TallestFirst(c.placed, |old(c.placed)|)
  {
    ghost var from := |c.placed|;
    Number(rects);
    ghost var marked := rects[..];
    ghost var down := Sort(rects, HeightCompare);
    ghost var sorted := rects[..];
    ghost var done := PackSorted(c, rects);
    ghost var packed, placed, hs := rects[..], c.placed, c.heights;
    PlacedInOrder(sorted, packed, done, placed, from);
    ghost var up := Sort(rects, OriginalOrder);
    BackInOrder(marked, sorted, packed, rects[..], down, up, done, placed, from);
    NoRoomBack(packed, rects[..], up, done, c.width <= c.numNodes, hs, c.height, c.align);
    slots := SlotsBack(done, up);
  }

  /** Packs the rectangles. `slots` tells, per rectangle, which placed box is
      its own (negative: none); boxes are placed tallest first. */
  method PackRects(c: Packer, rects: array<Rect>) returns (allPacked: bool, ghost slots: seq<int>)
    requires c.Valid()
    modifies rects
    modifies c.nodes, c`activeHead, c`freeHead, c`active, c`free, c`skyline, c`heights, c`placed
    ensures c.Valid() && old(c.placed) <= c.placed && |slots| == rects.Length && Distinct(slots)
    ensures forall i :: 0 <= i < rects.Length ==>
      Outcome(rects[i], old(rects[i]), c.placed, |old(c.placed)|, slots[i])
    ensures allPacked <==> forall i :: 0 <= i < rects.Length ==> rects[i].wasPacked == 1
    ensures NoRoomSoFar(rects[..], slots, c.width <= c.numNodes, c.heights, c.height, c.align)
    ensures TallestFirst(c.placed, |old(c.placed)|)
  {
    ghost var from, original := |c.placed|, rects[..];
    slots := PackInOrder(c, rects);
    ghost var back := rects[..];
    allPacked := SetFlags(rects, original, c.placed, from, slots, c.heights, c.height);
    forall i | 0 <= i < rects.Length
      ensures NoRoom(rects[..][i], slots[i], c.width <= c.numNodes, c.heights, c.height, c.align)
    {
      assert NoRoom(back[i], slots[i], c.width <= c.numNodes, c.heights, c.height, c.align);
    }
  }

  predicate Placed(r: Rect) { r.wasPacked == 1 && !Empty(r) }

  lemma {:induction false} OwnBox(r: Rect, t: Rect, placed: seq<Box>, from: nat, slot: int)
    requires Outcome(r, t, placed, from, slot) && Placed(r)
    ensures from <= slot < |placed| && placed[slot] == BoxOf(r)
  {
  }

  /** Within one call, what was packed lies inside the target and nothing packed
      overlaps. */
  lemma {:induction false} NoOverlap(now: seq<Rect>, was: seq<Rect>, placed: seq<Box>, from: nat, slots: seq<int>,
                                     hs: seq<int>, height: int, i: nat, j: nat)
    requires |now| == |was| == |slots| && Distinct(slots) && Packed(placed, hs, height)
    requires forall k :: 0 <= k < |now| ==> Outcome(now[k], was[k], placed, from, slots[k])
    requires i < |now| && j < |now| && Placed(now[i])
    ensures Inside(BoxOf(now[i]), |hs|, height)
    ensures i != j && Placed(now[j]) ==> Disjoint(BoxOf(now[i]), BoxOf(now[j]))
  {
    OwnBox(now[i], was[i], placed, from, slots[i]);
    assert Under(placed[slots[i]], hs, height);
    if i != j && Placed(now[j]) {
      OwnBox(now[j], was[j], placed, from, slots[j]);
      assert slots[i] != slots[j];
    }
  }

  // ----- Any number of calls -----

  /** How the caller sets the packer up before a call. */
  datatype Setup = Setup(heuristic: Heuristic, allowOutOfMem: bool)

  /** Every packed rectangle has its own box among those placed from `lo` up to `hi`. */
  ghost predicate Owns(rects: seq<Rect>, slots: seq<int>, placed: seq<Box>, lo: nat, hi: nat) {
    && |slots| == |rects| && Distinct(slots) && lo <= hi <= |placed|
    && forall i :: 0 <= i < |rects| && Placed(rects[i]) ==> OwnsAt(rects, slots, placed, lo, hi, i)
  }

  ghost predicate OwnsAt(rects: seq<Rect>, slots: seq<int>, placed: seq<Box>, lo: nat, hi: nat, i: nat) {
    i < |rects| && i < |slots| && lo <= slots[i] < hi <= |placed| && placed[slots[i]] == BoxOf(rects[i])
  }

  /** The results of several calls, each with its own part of the boxes. */
  ghost predicate Shared(results: seq<seq<Rect>>, slots: seq<seq<int>>, bounds: seq<nat>, placed: seq<Box>) {
    && |slots| == |results| && |bounds| == |results| + 1
    && (forall k :: 0 <= k < |results| ==> Owns(results[k], slots[k], placed, bounds[k], bounds[k + 1]))
    && (forall k, l :: 0 <= k <= l < |bounds| ==> bounds[k] <= bounds[l])
  }

  lemma {:induction false} OwnsLater(rects: seq<Rect>, slots: seq<int>, placed: seq<Box>, lo: nat, hi: nat, placed': seq<Box>)
    requires Owns(rects, slots, placed, lo, hi) && placed <= placed'
    ensures Owns(rects, slots, placed', lo, hi)
  {
    forall i | 0 <= i < |rects| && Placed(rects[i]) ensures OwnsAt(rects, slots, placed', lo, hi, i) {
      assert OwnsAt(rects, slots, placed, lo, hi, i);
    }
  }

  lemma {:induction false} OneCallOwns(now: seq<Rect>, was: seq<Rect>, slots: seq<int>, placed: seq<Box>, from: nat)
    requires |now| == |was| == |slots| && Distinct(slots) && from <= |placed|
    requires forall i :: 0 <= i < |now| ==> Outcome(now[i], was[i], placed, from, slots[i])
    ensures Owns(now, slots, placed, from, |placed|)
  {
    forall i | 0 <= i < |now| && Placed(now[i]) ensures OwnsAt(now, slots, placed, from, |placed|, i) {
      OwnBox(now[i], was[i], placed, from, slots[i]);
    }
  }

  lemma {:induction false} OneMoreCall(results: seq<seq<Rect>>, slots: seq<seq<int>>, bounds: seq<nat>, placed: seq<Box>,
                                       now: seq<Rect>, own: seq<int>, placed': seq<Box>)
    requires Shared(results, slots, bounds, placed) && placed <= placed' && bounds[|results|] <= |placed|
    requires Owns(now, own, placed', |placed|, |placed'|) && bounds[|results|] == |placed|
    ensures Shared(results + [now], slots + [own], bounds + [|placed'|], placed')
  {
    var rs, ss, bs := results + [now], slots + [own], bounds + [|placed'|];
    forall k | 0 <= k < |rs| ensures Owns(rs[k], ss[k], placed', bs[k], bs[k + 1]) {
      if k < |results| { OwnsLater(results[k], slots[k], placed, bounds[k], bounds[k + 1], placed'); }
    }
  }

  /** Two different rectangles, of one call or of two, do not overlap. */
  lemma {:induction false} SharedApart(results: seq<seq<Rect>>, slots: seq<seq<int>>, bounds: seq<nat>, placed: seq<Box>,
                                       hs: seq<int>, height: int, k: nat, i: nat, l: nat, j: nat)
    requires Shared(results, slots, bounds, placed) && Packed(placed, hs, height)
    requires In(results, k, i) && In(results, l, j) && (k != l || i != j)
    ensures Disjoint(BoxOf(results[k][i]), BoxOf(results[l][j]))
  {
    assert Owns(results[k], slots[k], placed, bounds[k], bounds[k + 1]);
    assert Owns(results[l], slots[l], placed, bounds[l], bounds[l + 1]);
    assert OwnsAt(results[k], slots[k], placed, bounds[k], bounds[k + 1], i);
    assert OwnsAt(results[l], slots[l], placed, bounds[l], bounds[l + 1], j);
    assert Under(placed[slots[k][i]], hs, height);
    if k < l {
      assert bounds[k + 1] <= bounds[l];
    } else if l < k {
      assert bounds[l + 1] <= bounds[k];
    }
    assert slots[k][i] != slots[l][j];
  }

  /** Every packed rectangle of every call lies inside the target, and no two of them overlap. */
  ghost predicate AllApart(results: seq<seq<Rect>>, width: int, height: int) {
    && (forall k, i :: In(results, k, i) ==> Inside(BoxOf(results[k][i]), width, height))
    && (forall k, i, l, j :: In(results, k, i) && In(results, l, j) && (k != l || i != j) ==>
        Disjoint(BoxOf(results[k][i]), BoxOf(results[l][j])))
  }

  /** Call `k` packed its rectangle `i`. */
  ghost predicate In(results: seq<seq<Rect>>, k: int, i: int) {
    0 <= k < |results| && 0 <= i < |results[k]| && Placed(results[k][i])
  }

  lemma {:induction false} SharedAreApart(results: seq<seq<Rect>>, slots: seq<seq<int>>, bounds: seq<nat>,
                                          placed: seq<Box>, hs: seq<int>, height: int)
    requires Shared(results, slots, bounds, placed) && Packed(placed, hs, height)
    ensures AllApart(results, |hs|, height)
  {
    forall k, i | In(results, k, i) ensures Inside(BoxOf(results[k][i]), |hs|, height) {
      SharedInside(results, slots, bounds, placed, hs, height, k, i);
    }
    forall k, i, l, j | In(results, k, i) && In(results, l, j) && (k != l || i != j)
      ensures Disjoint(BoxOf(results[k][i]), BoxOf(results[l][j]))
    {
      SharedApart(results, slots, bounds, placed, hs, height, k, i, l, j);
    }
  }

  lemma {:induction false} SharedInside(results: seq<seq<Rect>>, slots: seq<seq<int>>, bounds: seq<nat>, placed: seq<Box>,
                                        hs: seq<int>, height: int, k: nat, i: nat)
    requires Shared(results, slots, bounds, placed) && Packed(placed, hs, height) && In(results, k, i)
    ensures Inside(BoxOf(results[k][i]), |hs|, height)
  {
    assert Owns(results[k], slots[k], placed, bounds[k], bounds[k + 1]);
    assert OwnsAt(results[k], slots[k], placed, bounds[k], bounds[k + 1], i);
    assert Under(placed[slots[k][i]], hs, height);
  }

  /** The caller's rectangles, wherever they have been put. */
  ghost predicate SameRects(now: seq<Rect>, was: seq<Rect>) {
    |now| == |was| && forall i :: 0 <= i < |now| ==>
      now[i].id == was[i].id && now[i].w == was[i].w && now[i].h == was[i].h
  }

  /** Of the first `n` calls, number `k` is the last on its array. */
  ghost predicate LastUse(batches: seq<array<Rect>>, k: int, n: int) {
    0 <= k < n <= |batches| && forall l :: k < l < n ==> batches[l] != batches[k]
  }

  /** Packs one array after the other into one target, the same one again if it comes
      again, set up anew before each call: of all that the calls packed, as each left
      it, no two rectangles overlap, and all lie inside the target. */
  method PackMany(c: Packer, batches: seq<array<Rect>>, setups: seq<Setup>) returns (ghost results: seq<seq<Rect>>)
    requires c.Valid() && |setups| == |batches|
    modifies set r | r in batches
    modifies c.nodes, c`activeHead, c`freeHead, c`active, c`free, c`skyline, c`heights, c`placed, c`heuristic, c`align
    ensures c.Valid() && AllApart(results, c.width, c.height)
    ensures |results| == |batches| && forall k :: 0 <= k < |batches| ==> SameRects(results[k], old(batches[k][..]))
    ensures forall k :: LastUse(batches, k, |batches|) ==> results[k] == batches[k][..]
  {
    ghost var slots: seq<seq<int>>, bounds: seq<nat> := [], [|c.placed|];
    results := [];
    for k := 0 to |batches|
      invariant c.Valid() && |results| == k && Shared(results, slots, bounds, c.placed) && bounds[k] == |c.placed|
      invariant forall l :: 0 <= l < k ==> SameRects(results[l], old(batches[l][..]))
      invariant forall l :: 0 <= l < |batches| ==> SameRects(batches[l][..], old(batches[l][..]))
      invariant forall l :: LastUse(batches, l, k) ==> results[l] == batches[l][..]
    {
      ghost var own;
      ghost var placed := c.placed;
      own := PackNext(c, batches[k], setups[k]);
      ghost var now := batches[k][..];
      OneMoreCall(results, slots, bounds, placed, now, own, c.placed);
      results, slots, bounds := results + [now], slots + [own], bounds + [|c.placed|];
      assert forall l :: LastUse(batches, l, k + 1) ==> l == k || LastUse(batches, l, k);
    }
    SharedAreApart(results, slots, bounds, c.placed, c.heights, c.height);
  }

  method PackNext(c: Packer, rects: array<Rect>, setup: Setup) returns (ghost own: seq<int>)
    requires c.Valid()
    modifies rects
    modifies c.nodes, c`activeHead, c`freeHead, c`active, c`free, c`skyline, c`heights, c`placed, c`heuristic, c`align
    ensures c.Valid() && old(c.placed) <= c.placed && SameRects(rects[..], old(rects[..]))
    ensures Owns(rects[..], own, c.placed, |old(c.placed)|, |c.placed|)
  {
    ghost var was := rects[..];
    c.SetupHeuristic(setup.heuristic);
    c.SetupAllowOutOfMem(setup.allowOutOfMem);
    var all;
    all, own := PackRects(c, rects);
    OneCallOwns(rects[..], was, own, c.placed, |old(c.placed)|);
  }
}
