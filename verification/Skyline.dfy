/** The skyline of a rectangle packer, as values.

    `hs` gives the height of the skyline above each unit column of the target;
    everything the packer promises is a statement about it. A profile `p` lists
    the left end and the height of each skyline segment, left to right, and
    ends with the sentinel standing at the target's width; it is what the
    packer's linked list of nodes spells out. */
module Skyline {
  import opened Numbers

  datatype Seg = Seg(x: int, y: int)
  datatype Box = Box(x: int, y: int, w: int, h: int)

  // ----- Heights -----

  /** The lowest y at which a box `w` columns wide can rest at `x`. */
  ghost function RestY(hs: seq<int>, x: nat, w: nat): int
    requires 0 < w && x + w <= |hs|
    decreases w
  {
    if w == 1 then hs[x] else Max(RestY(hs, x, w - 1), hs[x + w - 1])
  }

  /** It is the greatest height over the columns below the box. */
  lemma {:induction false} RestYIsPeak(hs: seq<int>, x: nat, w: nat)
    requires 0 < w && x + w <= |hs|
    ensures forall c :: x <= c < x + w ==> hs[c] <= RestY(hs, x, w)
    ensures exists c :: x <= c < x + w && hs[c] == RestY(hs, x, w)
    decreases w
  {
    if w == 1 {
      assert hs[x] == RestY(hs, x, w);
    } else {
      RestYIsPeak(hs, x, w - 1);
      assert hs[x + w - 1] <= RestY(hs, x, w);
    }
  }

  lemma {:induction false} RestYIs(hs: seq<int>, x: nat, w: nat, y: int, at: int)
    requires 0 < w && x + w <= |hs|
    requires forall c :: x <= c < x + w ==> hs[c] <= y
    requires x <= at < x + w && hs[at] == y
    ensures RestY(hs, x, w) == y
  {
    RestYIsPeak(hs, x, w);
  }

  /** Extending a box over columns of one height. */
  lemma {:induction false} RestYOverFlat(hs: seq<int>, x: nat, w: nat, flat: int, more: nat)
    requires 0 < more && x + w + more <= |hs|
    requires forall c :: x + w <= c < x + w + more ==> hs[c] == flat
    ensures RestY(hs, x, w + more) == if w == 0 then flat else Max(RestY(hs, x, w), flat)
  {
    RestYIsPeak(hs, x, w + more);
    if w > 0 { RestYIsPeak(hs, x, w); }
    assert hs[x + w] == flat;
  }

  /** The area left empty under a box resting at `x` with its base at `y`. */
  ghost function EmptyArea(hs: seq<int>, x: nat, w: nat, y: int): int
    requires x + w <= |hs|
    decreases w
  {
    if w == 0 then 0 else EmptyArea(hs, x, w - 1, y) + (y - hs[x + w - 1])
  }

  /** Columns of one height contribute a rectangle to the empty area. */
  lemma {:induction false} EmptyAreaOverFlat(hs: seq<int>, x: nat, w: nat, y: int, flat: int, more: nat)
    requires x + w + more <= |hs|
    requires forall c :: x + w <= c < x + w + more ==> hs[c] == flat
    ensures EmptyArea(hs, x, w + more, y) == EmptyArea(hs, x, w, y) + more * (y - flat)
    decreases more
  {
    if more > 0 {
      EmptyAreaOverFlat(hs, x, w, y, flat, more - 1);
      assert more * (y - flat) == (more - 1) * (y - flat) + (y - flat);
    }
  }

  /** Raising the base by `d` adds `d` to every column. */
  lemma {:induction false} EmptyAreaRaised(hs: seq<int>, x: nat, w: nat, y: int, d: int)
    requires x + w <= |hs|
    ensures EmptyArea(hs, x, w, y + d) == EmptyArea(hs, x, w, y) + w * d
    decreases w
  {
    if w > 0 {
      EmptyAreaRaised(hs, x, w - 1, y, d);
      assert w * d == (w - 1) * d + d;
    }
  }

  ghost predicate Bounded(hs: seq<int>, height: int) {
    forall c :: 0 <= c < |hs| ==> 0 <= hs[c] <= height
  }

  /** A box w by h fits somewhere on top of the skyline. */
  ghost predicate Fits(hs: seq<int>, height: int, w: nat, h: int) {
    0 < w && exists x: nat :: x + w <= |hs| && RestY(hs, x, w) + h <= height
  }

  ghost predicate NoLower(hs: seq<int>, ks: seq<int>) {
    |hs| == |ks| && forall c :: 0 <= c < |hs| ==> hs[c] <= ks[c]
  }

  /** What fits on a higher skyline fits on a lower one. */
  lemma {:induction false} FitsMonotone(hs: seq<int>, ks: seq<int>, height: int, w: nat, h: int)
    requires NoLower(hs, ks) && Fits(ks, height, w, h)
    ensures Fits(hs, height, w, h)
  {
    var x: nat :| x + w <= |ks| && RestY(ks, x, w) + h <= height;
    RestYIsPeak(hs, x, w);
    RestYIsPeak(ks, x, w);
    assert RestY(hs, x, w) <= RestY(ks, x, w);
  }

  /** The heights with columns `from` to `to` set to `top`. */
  function Raise(hs: seq<int>, from: nat, to: nat, top: int): (ks: seq<int>)
    requires from <= to <= |hs|
    ensures |ks| == |hs|
    ensures forall c :: 0 <= c < |hs| ==> ks[c] == if from <= c < to then top else hs[c]
  {
    hs[..from] + seq(to - from, _ => top) + hs[to..]
  }

  /** Columns `from` to `to` are raised to `top`, and no other changes. */
  ghost predicate RaisedOver(hs: seq<int>, ks: seq<int>, from: nat, to: nat, top: int) {
    |ks| == |hs| && forall c :: 0 <= c < |hs| ==> ks[c] == if from <= c < to then top else hs[c]
  }

  // ----- The boxes already placed -----

  predicate Disjoint(a: Box, b: Box) {
    a.x + a.w <= b.x || b.x + b.w <= a.x || a.y + a.h <= b.y || b.y + b.h <= a.y
  }

  predicate Inside(b: Box, width: int, height: int) {
    0 <= b.x && 0 < b.w && b.x + b.w <= width && 0 <= b.y && 0 < b.h && b.y + b.h <= height
  }

  ghost predicate Under(b: Box, hs: seq<int>, height: int) {
    Inside(b, |hs|, height) && forall c :: b.x <= c < b.x + b.w ==> b.y + b.h <= hs[c]
  }

  /** No two boxes overlap, all lie inside the target, and the skyline stands
      above every one of them. */
  ghost predicate Packed(boxes: seq<Box>, hs: seq<int>, height: int) {
    && (forall i :: 0 <= i < |boxes| ==> Under(boxes[i], hs, height))
    && (forall i, j :: 0 <= i < j < |boxes| ==> Disjoint(boxes[i], boxes[j]))
  }

  /** Putting a box where it rests on the skyline, and raising the skyline over
      it (and over no more than the columns the search looked at), keeps the
      packing and lowers the skyline nowhere. */
  lemma {:induction false} RaiseKeepsPacked(boxes: seq<Box>, hs: seq<int>, height: int, b: Box, wide: nat, to: nat,
                                            ks: seq<int>, boxes': seq<Box>)
    requires boxes' == boxes + [b] && 0 <= b.x && RaisedOver(hs, ks, b.x, to, b.y + b.h)
    requires Packed(boxes, hs, height) && Bounded(hs, height)
    requires 0 <= b.x && 0 < b.w <= wide && b.x + wide <= |hs| && 0 < b.h
    requires b.y == RestY(hs, b.x, wide) && b.y + b.h <= height
    requires b.x + b.w <= to <= b.x + wide
    ensures Packed(boxes', ks, height) && NoLower(hs, ks)
  {
    RestYIsPeak(hs, b.x, wide);
    assert hs[b.x] <= b.y;
    assert Under(b, ks, height);
    assert NoLower(hs, ks);
    forall i | 0 <= i < |boxes| ensures Under(boxes[i], ks, height) && Disjoint(boxes[i], b) {
      assert Under(boxes[i], hs, height);
      RestsAbove(boxes[i], hs, height, b);
      StaysUnder(boxes[i], hs, ks, height);
    }
  }

  lemma {:induction false} StaysUnder(b: Box, hs: seq<int>, ks: seq<int>, height: int)
    requires Under(b, hs, height) && NoLower(hs, ks)
    ensures Under(b, ks, height)
  {
    forall c | b.x <= c < b.x + b.w ensures b.y + b.h <= ks[c] {
      assert hs[c] <= ks[c];
    }
  }

  /** A box resting no lower than the skyline clears every box under it. */
  lemma {:induction false} RestsAbove(a: Box, hs: seq<int>, height: int, b: Box)
    requires Under(a, hs, height) && 0 <= b.x && 0 < b.w && b.x + b.w <= |hs|
    requires forall c :: b.x <= c < b.x + b.w ==> hs[c] <= b.y
    ensures Disjoint(a, b)
  {
    if a.x < b.x + b.w && b.x < a.x + a.w {
      assert a.y + a.h <= hs[Max(a.x, b.x)] <= b.y;
    }
  }

  // ----- Profiles -----

  /** Profile `p` spells out heights `hs`: strictly increasing segment starts
      from column 0 to the sentinel just past the last column. */
  ghost predicate Shows(p: seq<Seg>, hs: seq<int>) {
    && |p| >= 2
    && p[0].x == 0 && p[|p| - 1].x == |hs|
    && Increasing(p)
    && forall i :: 0 <= i < |p| - 1 ==> SegFlat(p, hs, i)
  }

  ghost predicate SegFlat(p: seq<Seg>, hs: seq<int>, i: nat) {
    && i + 1 < |p| && 0 <= p[i].x < p[i + 1].x <= |hs|
    && forall c :: p[i].x <= c < p[i + 1].x ==> hs[c] == p[i].y
  }

  ghost predicate Increasing(p: seq<Seg>) {
    forall i, j :: 0 <= i < j < |p| ==> p[i].x < p[j].x
  }

  lemma {:induction false} Before(p: seq<Seg>, i: nat, j: nat)
    requires Increasing(p) && i < |p| && j < |p| && p[i].x < p[j].x
    ensures i < j
  {}

  /** First index from `i` on of a segment starting at or right of column `x`. */
  ghost function FirstFrom(p: seq<Seg>, i: nat, x: int): (s: nat)
    requires i < |p| && x <= p[|p| - 1].x && (0 < i ==> p[i - 1].x < x)
    ensures i <= s < |p| && x <= p[s].x && (0 < s ==> p[s - 1].x < x)
    decreases |p| - i
  {
    if x <= p[i].x then i else FirstFrom(p, i + 1, x)
  }

  /** Sliding a box left until a higher column stops it ends at the start of a
      segment and never lifts the box: a lowest-position search has to try
      segment starts only. */
  lemma {:induction false} SlideLeft(p: seq<Seg>, hs: seq<int>, x: nat, w: nat) returns (k: nat)
    requires Shows(p, hs) && 0 < w && x + w <= |hs|
    ensures k < |p| - 1 && 0 <= p[k].x <= x
    ensures RestY(hs, p[k].x, w) <= RestY(hs, x, w)
    decreases x
  {
    k := FirstFrom(p, 0, x);
    if p[k].x != x {
      assert SegFlat(p, hs, k - 1);
      assert hs[x - 1] == hs[x];
      RestYIsPeak(hs, x, w);
      RestYIsPeak(hs, x - 1, w);
      k := SlideLeft(p, hs, x - 1, w);
    }
  }

  /** First index from `j` on whose right neighbour starts right of `right`. */
  ghost function StopAt(p: seq<Seg>, j: nat, right: int): (r: nat)
    requires j < |p|
    ensures j <= r < |p|
    ensures r + 1 < |p| ==> right < p[r + 1].x
    ensures j < r ==> p[r].x <= right
    decreases |p| - j
  {
    if j + 1 < |p| && p[j + 1].x <= right then StopAt(p, j + 1, right) else j
  }

  /** The profile once a box `w` wide with its upper edge at `top` is in at `x`. */
  ghost function Place(p: seq<Seg>, x: int, w: int, top: int): seq<Seg>
    requires |p| >= 2 && p[0].x <= x && x + w <= p[|p| - 1].x && 0 < w
  {
    var s := FirstFrom(p, 0, x);
    var j := StopAt(p, s, x + w);
    p[..s] + [Seg(x, top), Seg(RaisedTo(p, x, w), p[j].y)] + p[j + 1..]
  }

  /** The raised part ends at the box's right edge, or at the next segment when
      the box ends inside the segment it was set into. */
  ghost function RaisedTo(p: seq<Seg>, x: int, w: int): int
    requires |p| >= 2 && p[0].x <= x && x + w <= p[|p| - 1].x && 0 < w
  {
    Max(p[StopAt(p, FirstFrom(p, 0, x), x + w)].x, x + w)
  }

  lemma {:induction false} JoinIncreases(a: seq<Seg>, b: seq<Seg>)
    requires Increasing(a) && Increasing(b)
    requires a != [] && b != [] ==> a[|a| - 1].x < b[0].x
    ensures Increasing(a + b)
  {
    forall i, j | 0 <= i < j < |a + b| ensures (a + b)[i].x < (a + b)[j].x {
      if i < |a| <= j {
        assert a[i].x <= a[|a| - 1].x && b[0].x <= b[j - |a|].x;
      }
    }
  }

  lemma {:induction false} PlaceIncreases(p: seq<Seg>, x: int, w: int, top: int)
    requires |p| >= 2 && Increasing(p) && p[0].x <= x && x + w <= p[|p| - 1].x && 0 < w
    ensures Increasing(Place(p, x, w, top))
    ensures x + w <= RaisedTo(p, x, w) <= p[|p| - 1].x
    ensures 2 <= |Place(p, x, w, top)| <= |p| + 1
  {
    var s := FirstFrom(p, 0, x);
    var j := StopAt(p, s, x + w);
    var two := [Seg(x, top), Seg(RaisedTo(p, x, w), p[j].y)];
    JoinIncreases(p[..s], two);
    JoinIncreases(p[..s] + two, p[j + 1..]);
  }

  /** Placing raises exactly the columns from `x` to `RaisedTo`. */
  lemma {:induction false} PlaceShows(p: seq<Seg>, hs: seq<int>, x: int, w: int, top: int, q: seq<Seg>, ks: seq<int>)
    requires Shows(p, hs) && 0 <= x && 0 < w && x + w <= |hs| && q == Place(p, x, w, top)
    requires 0 <= RaisedTo(p, x, w) && RaisedOver(hs, ks, x, RaisedTo(p, x, w), top)
    ensures x + w <= RaisedTo(p, x, w) <= |hs| && Shows(q, ks)
  {
    PlaceIncreases(p, x, w, top);
    var s := FirstFrom(p, 0, x);
    var j := StopAt(p, s, x + w);
    assert q[0].x == 0 && q[|q| - 1].x == |hs|;
    forall i | 0 <= i < |q| - 1 ensures SegFlat(q, ks, i) {
      if i < s {
        assert SegFlat(p, hs, i) && q[i] == p[i] && q[i + 1].x <= p[i + 1].x;
      } else if i > s {
        var k := i - (s + 1) + j;
        assert SegFlat(p, hs, k) && q[i + 1] == p[k + 1] && q[i].y == p[k].y && p[k].x <= q[i].x;
        assert RaisedTo(p, x, w) <= q[i].x;
      }
    }
  }

  /** Either the box starts where a segment starts, or the width searched with
      reaches past the segment it starts in. */
  ghost predicate Seated(p: seq<Seg>, x: int, wide: int)
    requires |p| >= 2 && x <= p[|p| - 1].x
  {
    p[FirstFrom(p, 0, x)].x <= x + wide
  }

  lemma {:induction false} SeatedRaise(p: seq<Seg>, x: int, w: int, wide: int)
    requires |p| >= 2 && p[0].x <= x && x + wide <= p[|p| - 1].x && 0 < w <= wide
    requires Seated(p, x, wide)
    ensures RaisedTo(p, x, w) <= x + wide
  {}

  /** Segments start at distinct columns, so a profile over `width` columns has
      at most width + 1 entries. */
  lemma {:induction false} FewSegments(p: seq<Seg>, n: nat)
    requires n < |p| && Increasing(p) && p[0].x >= 0
    ensures n <= p[n].x
    decreases n
  {
    if n > 0 { FewSegments(p, n - 1); }
  }
}
