/** The skyline rectangle packer: two linked lists threaded through one pool of
    nodes, rewired in place by every placement. The proofs tie the lists to the
    column heights of module Skyline. */
module RectPack {
  import opened Numbers
  import opened Skyline

  const MAXVAL: Coord := 0xffff
  const NIL := -1

  /** stbrp_coord is a 16-bit integer; assigning to it is checked, so the
      casts in the program never truncate. */
  type Coord = c: int | 0 <= c <= 0xffff

  /** A pool node; `next` is the index of another node or NIL. */
  datatype Node = Node(x: Coord, y: Coord, next: int)

  datatype Heuristic = BottomLeft | BestFit

  /** The link through which a position was reached: the head of the active
      list, or the next field of a node. */
  datatype Link = NoLink | HeadLink | NextOf(node: int)

  // ----- Lists inside the pool -----

  ghost predicate InPool(size: nat, path: seq<int>) {
    forall k :: 0 <= k < |path| ==> 0 <= path[k] < size
  }

  /** The k-th node of the list leads to the next one, or nowhere. */
  ghost predicate NextIs(ns: seq<Node>, path: seq<int>, k: nat) {
    k < |path| && 0 <= path[k] < |ns| && ns[path[k]].next == if k + 1 < |path| then path[k + 1] else NIL
  }

  ghost predicate Chain(ns: seq<Node>, head: int, path: seq<int>) {
    && head == (if path == [] then NIL else path[0])
    && InPool(|ns|, path)
    && forall k :: 0 <= k < |path| ==> NextIs(ns, path, k)
  }

  ghost predicate SegIs(ns: seq<Node>, path: seq<int>, p: seq<Seg>, k: nat) {
    k < |path| == |p| && 0 <= path[k] < |ns| && p[k] == Seg(ns[path[k]].x, ns[path[k]].y)
  }

  /** Node by node, the list at `path` is profile `p`. */
  ghost predicate Spells(ns: seq<Node>, path: seq<int>, p: seq<Seg>) {
    |p| == |path| && forall k :: 0 <= k < |path| ==> SegIs(ns, path, p, k)
  }

  /** The k-th entry of `a` occurs nowhere else in `a`, and nowhere in `f`. */
  ghost predicate Once(a: seq<int>, f: seq<int>, k: nat) {
    && k < |a|
    && (forall i :: 0 <= i < |a| && i != k ==> a[i] != a[k])
    && (forall i :: 0 <= i < |f| ==> f[i] != a[k])
  }

  ghost predicate Apart(a: seq<int>, f: seq<int>) {
    (forall k :: 0 <= k < |a| ==> Once(a, f, k)) && (forall k :: 0 <= k < |f| ==> Once(f, a, k))
  }

  // ----- The scan of find_min_y -----

  ghost function SegOf(p: seq<Seg>, x: int): (k: nat)
    requires |p| >= 2 && p[0].x <= x < p[|p| - 1].x
    ensures k + 1 < |p| && p[k].x <= x < p[k + 1].x
  {
    FirstFrom(p, 0, x + 1) - 1
  }

  /** The scan's variables: the lowest y so far, the waste below it, and the
      width it has been measured over. */
  datatype Scan = Scan(minY: int, waste: int, visited: int)

  /** One segment of the scan. */
  function ScanSegment(seg: Seg, nextX: int, x: int, w: int, s: Scan): Scan {
    if seg.y > s.minY then
      Scan(seg.y, s.waste + s.visited * (seg.y - s.minY), s.visited + nextX - Max(seg.x, x))
    else
      var under := nextX - seg.x;
      var clipped := if under + s.visited > w then w - s.visited else under;
      Scan(s.minY, s.waste + clipped * (s.minY - seg.y), s.visited + clipped)
  }

  ghost function ScanFrom(p: seq<Seg>, m: nat, x: int, w: int, s: Scan): Scan
    requires m < |p| && x + w <= p[|p| - 1].x
    decreases |p| - m
  {
    if x + w <= p[m].x then s
    else ScanFrom(p, m + 1, x, w, ScanSegment(p[m], p[m + 1].x, x, w, s))
  }

  /** The waste the scan reports for a box `w` wide at `x`. */
  ghost function Waste(p: seq<Seg>, x: int, w: int): int
    requires |p| >= 2 && p[0].x <= x && 0 < w && x + w <= p[|p| - 1].x
  {
    ScanFrom(p, SegOf(p, x), x, w, Scan(0, 0, 0)).waste
  }

  /** Unless the box starts strictly inside a segment of height 0, the reported
      waste is the area left empty below it. */
  lemma {:induction false} WasteIsEmptyArea(p: seq<Seg>, hs: seq<int>, x: nat, w: nat)
    requires Shows(p, hs) && 0 < w && x + w <= |hs|
    requires forall c :: 0 <= c < |hs| ==> 0 <= hs[c]
    requires p[SegOf(p, x)].x == x || p[SegOf(p, x)].y > 0
    ensures Waste(p, x, w) == EmptyArea(hs, x, w, RestY(hs, x, w))
  {
    ScanIsExact(p, hs, SegOf(p, x), x, w, Scan(0, 0, 0));
  }

  /** Scanning `more` columns of one height keeps the running waste exact. */
  lemma {:induction false} SegmentIsExact(hs: seq<int>, x: nat, w: nat, seg: Seg, nextX: int, s: Scan, more: nat)
    requires 0 < more && 0 <= s.visited && x + s.visited + more <= |hs|
    requires 0 <= s.minY && 0 <= seg.y && x + s.visited + more == if x + w <= nextX then x + w else nextX
    requires x + s.visited == Max(seg.x, x) && (seg.x < x ==> seg.y > s.minY)
    requires forall c :: x + s.visited <= c < x + s.visited + more ==> hs[c] == seg.y
    requires s.minY == if s.visited == 0 then 0 else RestY(hs, x, s.visited)
    requires s.waste == EmptyArea(hs, x, s.visited, s.minY)
    ensures var s' := ScanSegment(seg, nextX, x, w, s);
      && s'.minY == RestY(hs, x, s.visited + more)
      && s'.waste == EmptyArea(hs, x, s.visited + more, s'.minY)
      && (nextX <= x + w ==> s'.visited == s.visited + more)
  {
    var y := Max(s.minY, seg.y);
    RestYOverFlat(hs, x, s.visited, seg.y, more);
    EmptyAreaRaised(hs, x, s.visited, s.minY, y - s.minY);
    EmptyAreaOverFlat(hs, x, s.visited, y, seg.y, more);
  }

  lemma {:induction false} ScanIsExact(p: seq<Seg>, hs: seq<int>, m: nat, x: nat, w: nat, s: Scan)
    requires Shows(p, hs) && 0 < w && x + w <= |hs| && m < |p|
    requires forall c :: 0 <= c < |hs| ==> 0 <= hs[c]
    requires if x + w <= p[m].x then s.waste == EmptyArea(hs, x, w, RestY(hs, x, w)) else
      && x + s.visited == Max(p[m].x, x)
      && s.minY == (if s.visited == 0 then 0 else RestY(hs, x, s.visited))
      && s.waste == EmptyArea(hs, x, s.visited, s.minY)
    requires p[m].x < x ==> m + 1 < |p| && x < p[m + 1].x && p[m].y > 0
    ensures ScanFrom(p, m, x, w, s).waste == EmptyArea(hs, x, w, RestY(hs, x, w))
    decreases |p| - m
  {
    if p[m].x < x + w {
      var end := if x + w <= p[m + 1].x then x + w else p[m + 1].x;
      var more := end - x - s.visited;
      assert SegFlat(p, hs, m);
      assert 0 <= p[m].y by { assert hs[x + s.visited] == p[m].y; }
      if s.visited > 0 { RestYIsPeak(hs, x, s.visited); assert hs[x] <= s.minY; }
      SegmentIsExact(hs, x, w, p[m], p[m + 1].x, s, more);
      ScanIsExact(p, hs, m + 1, x, w, ScanSegment(p[m], p[m + 1].x, x, w, s));
    }
  }

  // ----- Choosing a position -----

  /** A width rounded up to a multiple of `align`. */
  function AlignUp(w: nat, align: nat): (r: nat)
    requires 1 <= align
    ensures w <= r < w + align
  {
    var up := w + align - 1;
    up - up % align
  }

  /** The least multiple of `align` that is at least `w`. */
  ghost predicate RoundedUp(wide: int, w: int, align: int) {
    && Multiple(wide, align) && w <= wide
    && forall m: int :: w <= m && Multiple(m, align) ==> wide <= m
  }

  lemma {:induction false} AlignUpRounds(w: nat, align: nat)
    requires 1 <= align
    ensures RoundedUp(AlignUp(w, align), w, align)
  {
    var up := w + align - 1;
    var q := up / align;
    assert AlignUp(w, align) == q * align;
    forall m: int | w <= m && Multiple(m, align) ensures AlignUp(w, align) <= m {
      var k: int :| m == k * align;
      if k < q { OneFewer(k, q, align); }
    }
  }

  lemma {:induction false} OneFewer(k: int, q: int, align: int)
    requires k < q && 1 <= align
    ensures k * align + align <= q * align
  {
    assert q * align == k * align + (q - k) * align;
    assert align <= (q - k) * align by { AtLeastOne(q - k, align); }
  }

  lemma {:induction false} AtLeastOne(k: int, align: int)
    requires 1 <= k && 1 <= align
    ensures align <= k * align
  {
  }

  /** One search: heuristic, skyline, target height, and the size sought. */
  datatype Query = Query(he: Heuristic, p: seq<Seg>, hs: seq<int>, height: int, w: nat, h: int) {
    ghost predicate Ok() {
      && Shows(p, hs) && 0 < w && height <= 0xffff
      && Bounded(hs, height)
    }
  }
  ghost const ANY := Query(BottomLeft, [Seg(0, 0), Seg(1, 0)], [0], 0, 1, 1)
  type Search = q: Query | q.Ok() ghost witness ANY

  /** How good a position is: lower first, then (best-fit only) less waste,
      then further left. */
  datatype Score = Score(y: int, waste: int, x: int)

  predicate AsGood(a: Score, b: Score) {
    a.y < b.y || (a.y == b.y && (a.waste < b.waste || (a.waste == b.waste && a.x <= b.x)))
  }

  ghost predicate InTarget(q: Search, x: int) {
    0 <= x && x + q.w <= |q.hs|
  }

  ghost function ScoreOf(q: Search, x: int): Score
    requires InTarget(q, x)
  {
    Score(RestY(q.hs, x, q.w), if q.he == BestFit then Waste(q.p, x, q.w) else 0, x)
  }

  /** Bottom-left looks at every position; best-fit only at those that fit
      vertically. */
  ghost predicate Admissible(q: Search, x: int) {
    InTarget(q, x) && (q.he == BottomLeft || RestY(q.hs, x, q.w) + q.h <= q.height)
  }

  /** An edge of the box meets a segment start. */
  ghost predicate EdgeAligned(q: Search, x: int) {
    exists i :: 0 <= i < |q.p| && (q.p[i].x == x || q.p[i].x == x + q.w)
  }

  /** The positions a heuristic compares: bottom-left all, best-fit the
      edge-aligned ones. */
  ghost predicate Rival(q: Search, x: int) {
    Admissible(q, x) && (q.he == BestFit ==> EdgeAligned(q, x))
  }

  /** `x` is a rival as good as any other. */
  ghost predicate Best(q: Search, x: int) {
    Rival(q, x) && forall b :: Rival(q, b) ==> AsGood(ScoreOf(q, x), ScoreOf(q, b))
  }

  /** The best position is as low as any position at all. */
  lemma {:induction false} BestIsLowest(q: Search, x: int, b: int)
    requires Best(q, x) && InTarget(q, b)
    ensures RestY(q.hs, x, q.w) <= RestY(q.hs, b, q.w)
  {
    var k := SlideLeft(q.p, q.hs, b, q.w);
    assert EdgeAligned(q, q.p[k].x);
    if Rival(q, q.p[k].x) {
      assert AsGood(ScoreOf(q, x), ScoreOf(q, q.p[k].x));
    }
  }

  /** A box fits somewhere exactly when it fits with its left edge on a
      segment start. */
  lemma {:induction false} FitsAtStart(q: Search)
    ensures Fits(q.hs, q.height, q.w, q.h) <==>
      exists i :: 0 <= i < |q.p| - 1 && InTarget(q, q.p[i].x) && RestY(q.hs, q.p[i].x, q.w) + q.h <= q.height
  {
    if Fits(q.hs, q.height, q.w, q.h) {
      var x: nat :| x + q.w <= |q.hs| && RestY(q.hs, x, q.w) + q.h <= q.height;
      var k := SlideLeft(q.p, q.hs, x, q.w);
      assert InTarget(q, q.p[k].x);
    }
  }

  const FAR := 0x4000_0000

  /** The best position so far, if any, is `s.x` with score `s`. */
  ghost predicate Tracks(q: Search, best: Link, s: Score) {
    if best != NoLink then Admissible(q, s.x) && s == ScoreOf(q, s.x) else s == Score(FAR, FAR, 0)
  }

  /** Position `b` does not beat the best one so far. */
  ghost predicate Ahead(q: Search, best: Link, s: Score, b: int) {
    InTarget(q, b) && (Admissible(q, b) ==> best != NoLink && AsGood(s, ScoreOf(q, b)))
  }

  /** The best position so far is not beaten with the left, or the right, edge
      on segment start `i`. */
  ghost predicate AheadLeft(q: Search, best: Link, s: Score, i: nat) {
    i < |q.p| && q.p[i].x + q.w <= |q.hs| ==> Ahead(q, best, s, q.p[i].x)
  }

  ghost predicate AheadRight(q: Search, best: Link, s: Score, i: nat) {
    i < |q.p| && q.w <= q.p[i].x ==> Ahead(q, best, s, q.p[i].x - q.w)
  }

  lemma {:induction false} AheadAtRight(q: Search, best: Link, s: Score, i: nat, x: int)
    requires i < |q.p| && q.p[i].x == x + q.w && Ahead(q, best, s, x)
    ensures AheadRight(q, best, s, i)
  {
    assert q.p[i].x - q.w == x;
  }

  /** The later best position is not beaten where the earlier one was not. */
  ghost predicate NoWorse(q: Search, best: Link, s: Score, best': Link, s': Score) {
    && (forall i :: AheadLeft(q, best, s, i) ==> AheadLeft(q, best', s', i))
    && (forall i :: AheadRight(q, best, s, i) ==> AheadRight(q, best', s', i))
  }

  ghost predicate RightsDone(q: Search, best: Link, s: Score, t: nat) {
    forall i :: 0 <= i < t ==> AheadRight(q, best, s, i)
  }

  lemma {:induction false} PassStep(q: Search, best0: Link, s0: Score, best1: Link, s1: Score, best2: Link, s2: Score, t: nat)
    requires NoWorse(q, best0, s0, best1, s1) && NoWorse(q, best1, s1, best2, s2)
    requires RightsDone(q, best1, s1, t) && AheadRight(q, best2, s2, t)
    ensures NoWorse(q, best0, s0, best2, s2) && RightsDone(q, best2, s2, t + 1)
  {}

  /** Whether the first pass prefers a position over the best one so far. */
  predicate Prefers(he: Heuristic, height: int, h: int, y: int, waste: int, s: Score) {
    if he == BottomLeft then y < s.y
    else y + h <= height && (y < s.y || (y == s.y && waste < s.waste))
  }

  /** Whether the second pass does: equal waste is settled by the smaller x. */
  predicate PrefersRight(height: int, h: int, y: int, waste: int, x: int, s: Score) {
    y + h <= height && y <= s.y && (y < s.y || waste < s.waste || (waste == s.waste && x < s.x))
  }

  /** A position taken over when its pass prefers it keeps the search on the
      best position seen; the first pass goes from left to right. */
  lemma {:induction false} Consider(q: Search, best: Link, s: Score, x: int, y: int, waste: int, right: bool, take: bool, link: Link)
    requires Tracks(q, best, s) && InTarget(q, x) && link != NoLink
    requires y == RestY(q.hs, x, q.w) && waste == Waste(q.p, x, q.w)
    requires if right then q.he == BestFit && take == PrefersRight(q.height, q.h, y, waste, x, s)
             else (best != NoLink ==> s.x < x) && take == Prefers(q.he, q.height, q.h, y, waste, s)
    ensures var best' := if take then link else best;
            var s' := if take then Score(y, if q.he == BestFit then waste else 0, x) else s;
      && Tracks(q, best', s')
      && Ahead(q, best', s', x)
      && NoWorse(q, best, s, best', s')
  {
    RestYBound(q.hs, q.height, x, q.w);
    var best' := if take then link else best;
    var s' := if take then Score(y, if q.he == BestFit then waste else 0, x) else s;
    assert forall b :: Ahead(q, best, s, b) ==> Ahead(q, best', s', b);
  }

  lemma {:induction false} NothingLower(q: Search, best: Link, s: Score)
    requires q.he == BottomLeft && q.w <= |q.hs| && best != NoLink && Tracks(q, best, s)
    requires forall i :: 0 <= i < |q.p| ==> AheadLeft(q, best, s, i)
    ensures Best(q, s.x)
  {
    forall b | Rival(q, b) ensures AsGood(s, ScoreOf(q, b)) {
      var k := SlideLeft(q.p, q.hs, b, q.w);
      assert AheadLeft(q, best, s, k);
    }
  }

  lemma {:induction false} NothingFitsBetter(q: Search, left: Link, sl: Score, best: Link, s: Score)
    requires q.he == BestFit && best != NoLink && Tracks(q, best, s) && EdgeAligned(q, s.x)
    requires forall i :: 0 <= i < |q.p| ==> AheadLeft(q, left, sl, i)
    requires NoWorse(q, left, sl, best, s)
    requires RightsDone(q, best, s, |q.p|)
    ensures Best(q, s.x)
  {
    forall b | Rival(q, b) ensures AsGood(s, ScoreOf(q, b)) { RivalBeaten(q, left, sl, best, s, b); }
  }

  lemma {:induction false} RivalBeaten(q: Search, left: Link, sl: Score, best: Link, s: Score, b: int)
    requires q.he == BestFit && best != NoLink && Rival(q, b)
    requires forall i :: 0 <= i < |q.p| ==> AheadLeft(q, left, sl, i)
    requires NoWorse(q, left, sl, best, s)
    requires RightsDone(q, best, s, |q.p|)
    ensures AsGood(s, ScoreOf(q, b))
  {
    var i :| 0 <= i < |q.p| && (q.p[i].x == b || q.p[i].x == b + q.w);
    assert AheadLeft(q, left, sl, i) && AheadRight(q, best, s, i);
  }

  lemma {:induction false} SeatedAtEdge(q: Search, x: int)
    requires InTarget(q, x) && EdgeAligned(q, x)
    ensures Seated(q.p, x, q.w)
  {
    var i :| 0 <= i < |q.p| && (q.p[i].x == x || q.p[i].x == x + q.w);
    var f := FirstFrom(q.p, 0, x);
    if f > 0 { Before(q.p, f - 1, i); }
  }

  lemma {:induction false} NothingFits(q: Search, left: Link, sl: Score, s: Score)
    requires q.he == BestFit
    requires forall i :: 0 <= i < |q.p| ==> AheadLeft(q, left, sl, i)
    requires NoWorse(q, left, sl, NoLink, s)
    ensures !Fits(q.hs, q.height, q.w, q.h)
  {
    FitsAtStart(q);
    forall i | 0 <= i < |q.p| - 1 && InTarget(q, q.p[i].x)
      ensures RestY(q.hs, q.p[i].x, q.w) + q.h > q.height
    {
      assert AheadLeft(q, NoLink, s, i);
    }
  }

  lemma {:induction false} TooTall(q: Search)
    requires q.height < q.h
    ensures !Fits(q.hs, q.height, q.w, q.h)
  {
    forall x: nat | x + q.w <= |q.hs| ensures RestY(q.hs, x, q.w) + q.h > q.height {
      RestYBound(q.hs, q.height, x, q.w);
    }
  }

  lemma {:induction false} NothingFitsHigher(q: Search, x: int)
    requires Best(q, x) && q.height < RestY(q.hs, x, q.w) + q.h
    ensures !Fits(q.hs, q.height, q.w, q.h)
  {
    forall b: nat | b + q.w <= |q.hs| ensures RestY(q.hs, b, q.w) + q.h > q.height {
      BestIsLowest(q, x, b);
    }
  }

  lemma {:induction false} FirstFromIs(p: seq<Seg>, k: nat, x: int)
    requires k + 1 < |p| && Increasing(p) && p[k].x <= x < p[k + 1].x && x <= p[|p| - 1].x
    ensures FirstFrom(p, 0, x) == if p[k].x < x then k + 1 else k
  {
    var s := FirstFrom(p, 0, x);
    if s > 0 { Before(p, s - 1, k + 1); }
    if p[k].x < x {
      Before(p, k, s);
    } else {
      if s > 0 { Before(p, s - 1, k); }
      if k > 0 { Before(p, k - 1, s); }
    }
  }

  lemma {:induction false} RestYBound(hs: seq<int>, height: int, x: nat, w: nat)
    requires 0 < w && x + w <= |hs| && Bounded(hs, height)
    ensures 0 <= RestY(hs, x, w) <= height
  {
    RestYIsPeak(hs, x, w);
    assert hs[x] <= RestY(hs, x, w);
  }

  lemma {:induction false} SegOfIs(p: seq<Seg>, k: nat, x: int)
    requires k + 1 < |p| && Increasing(p) && p[k].x <= x < p[k + 1].x && p[0].x <= x < p[|p| - 1].x
    ensures SegOf(p, x) == k
  {
    Before(p, k, SegOf(p, x) + 1);
    Before(p, SegOf(p, x), k + 1);
  }

  /** What the scan knows on reaching segment `m`. */
  ghost predicate Scanned(p: seq<Seg>, hs: seq<int>, first: bool, m: nat, x: nat, w: nat, minY: int)
    requires m < |p| && 0 < w && x + w <= |hs|
  {
    if first then m + 1 < |p| && p[m].x <= x < p[m + 1].x && minY == 0
    else x < p[m].x && minY == RestY(hs, x, if x + w <= p[m].x then w else p[m].x - x)
  }

  lemma {:induction false} ScanAdvance(p: seq<Seg>, hs: seq<int>, first: bool, m: nat, x: nat, w: nat, minY: int)
    requires Shows(p, hs) && 0 < w && x + w <= |hs| && m < |p| && p[m].x < x + w
    requires forall c :: 0 <= c < |hs| ==> 0 <= hs[c]
    requires Scanned(p, hs, first, m, x, w, minY)
    ensures m + 1 < |p|
    ensures Scanned(p, hs, false, m + 1, x, w, Max(minY, p[m].y))
  {
    Before(p, m, |p| - 1);
    var seen := if first then 0 else p[m].x - x;
    var seen' := if x + w <= p[m + 1].x then w else p[m + 1].x - x;
    assert SegFlat(p, hs, m);
    assert 0 <= p[m].y by { assert hs[x + seen] == p[m].y; }
    RestYOverFlat(hs, x, seen, p[m].y, seen' - seen);
  }

  lemma {:induction false} CeilPositive(a: nat, n: nat)
    requires 1 <= a && 1 <= n
    ensures 1 <= (a + n - 1) / n
  {
    assert (a + n - 1) / n >= n / n;
  }

  // ----- Rewiring the lists -----

  ghost function Head(path: seq<int>): int {
    if path == [] then NIL else path[0]
  }

  /** The active list once node `n` stands before segment `j` and segments `s`
      to `j` are gone; and the free list they were pushed onto, last one first. */
  ghost function NewActive(act: seq<int>, s: nat, j: nat, n: int): seq<int>
    requires s <= j < |act|
  {
    act[..s] + [n] + act[j..]
  }

  ghost function NewFree(act: seq<int>, fr: seq<int>, s: nat, j: nat): seq<int>
    requires s <= j < |act| && fr != []
  {
    seq(j - s, i requires 0 <= i < j - s => act[j - 1 - i]) + fr[1..]
  }

  /** The nodes, part way through freeing: segments `s` to `t` are on the free
      list, those from `t` on untouched. */
  ghost predicate Freeing(ns0: seq<Node>, ns: seq<Node>, act: seq<int>, fr: seq<int>, s: nat, t: nat, x: int, top: int)
    requires |ns| == |ns0| && s <= t < |act| && fr != []
    requires InPool(|ns|, act) && InPool(|ns|, fr)
  {
    && (forall i :: 0 <= i < s - 1 ==> ns[act[i]] == ns0[act[i]])
    && (0 < s ==> ns[act[s - 1]] == ns0[act[s - 1]].(next := fr[0]))
    && (forall i {:trigger ns[act[i]]} :: s <= i < t ==> ns[act[i]].next == if i == s then Head(fr[1..]) else act[i - 1])
    && (forall i :: t <= i < |act| ==> ns[act[i]] == ns0[act[i]])
    && (forall i :: 1 <= i < |fr| ==> ns[fr[i]] == ns0[fr[i]])
    && ns[fr[0]].x == x && ns[fr[0]].y == top
  }

  lemma {:induction false} NewActiveAt(act: seq<int>, s: nat, j: nat, n: int, k: nat)
    requires s <= j < |act| && k < |NewActive(act, s, j, n)|
    ensures NewActive(act, s, j, n)[k] == if k < s then act[k] else if k == s then n else act[k - s - 1 + j]
  {}

  lemma {:induction false} NewFreeAt(act: seq<int>, fr: seq<int>, s: nat, j: nat, k: nat)
    requires s <= j < |act| && fr != [] && k < |NewFree(act, fr, s, j)|
    ensures NewFree(act, fr, s, j)[k] == if k < j - s then act[j - 1 - k] else fr[k - (j - s) + 1]
  {}

  lemma {:induction false} ApartAfter(act: seq<int>, fr: seq<int>, s: nat, j: nat)
    requires Apart(act, fr) && s <= j < |act| && fr != []
    ensures Apart(NewActive(act, s, j, fr[0]), NewFree(act, fr, s, j))
  {
    var a, f := NewActive(act, s, j, fr[0]), NewFree(act, fr, s, j);
    forall k | 0 <= k < |a| ensures Once(a, f, k) {
      NewActiveAt(act, s, j, fr[0], k);
      if k == s { assert Once(fr, act, 0); } else { assert Once(act, fr, if k < s then k else k - s - 1 + j); }
    }
    forall k | 0 <= k < |f| ensures Once(f, a, k) {
      NewFreeAt(act, fr, s, j, k);
      if k < j - s { assert Once(act, fr, j - 1 - k); } else { assert Once(fr, act, k - (j - s) + 1); }
    }
  }

  /** The nodes once the new node and the first kept segment are tied in. */
  ghost predicate Tied(ns0: seq<Node>, ns: seq<Node>, act: seq<int>, fr: seq<int>, s: nat, j: nat,
                       x: int, top: int, right: int)
    requires |ns| == |ns0| && s <= j < |act| && fr != []
    requires InPool(|ns|, act) && InPool(|ns|, fr)
  {
    && (forall i :: 0 <= i < s - 1 ==> ns[act[i]] == ns0[act[i]])
    && (0 < s ==> ns[act[s - 1]] == ns0[act[s - 1]].(next := fr[0]))
    && (forall i {:trigger ns[act[i]]} :: s <= i < j ==> ns[act[i]].next == if i == s then Head(fr[1..]) else act[i - 1])
    && ns[act[j]].x == Max(ns0[act[j]].x, right)
    && ns[act[j]].y == ns0[act[j]].y && ns[act[j]].next == ns0[act[j]].next
    && (forall i :: j < i < |act| ==> ns[act[i]] == ns0[act[i]])
    && (forall i :: 1 <= i < |fr| ==> ns[fr[i]] == ns0[fr[i]])
    && ns[fr[0]].x == x && ns[fr[0]].y == top && ns[fr[0]].next == act[j]
  }

  lemma {:induction false} FreeOne(ns0: seq<Node>, ns: seq<Node>, ns': seq<Node>, act: seq<int>, fr: seq<int>, s: nat, t: nat,
                x: int, top: int)
    requires |ns'| == |ns| == |ns0| && s <= t && t + 1 < |act| && fr != [] && Apart(act, fr)
    requires InPool(|ns|, act) && InPool(|ns|, fr)
    requires Freeing(ns0, ns, act, fr, s, t, x, top)
    requires ns' == ns[act[t] := ns[act[t]].(next := if s == t then Head(fr[1..]) else act[t - 1])]
    ensures Freeing(ns0, ns', act, fr, s, t + 1, x, top)
  {
    assert Once(act, fr, t);
  }

  lemma {:induction false} TieUp(ns0: seq<Node>, ns: seq<Node>, act: seq<int>, fr: seq<int>, s: nat, j: nat,
              x: int, top: int, right: Coord)
    requires |ns| == |ns0| && s <= j < |act| && fr != [] && Apart(act, fr)
    requires InPool(|ns|, act) && InPool(|ns|, fr)
    requires Freeing(ns0, ns, act, fr, s, j, x, top)
    ensures var tied := ns[fr[0] := ns[fr[0]].(next := act[j])];
      var ns' := if ns[act[j]].x < right then tied[act[j] := tied[act[j]].(x := right)] else tied;
      Tied(ns0, ns', act, fr, s, j, x, top, right)
  {
    assert Once(act, fr, j) && Once(fr, act, 0);
  }

  lemma {:induction false} TiedActive(ns0: seq<Node>, ns: seq<Node>, act: seq<int>, fr: seq<int>, s: nat, j: nat,
                   x: int, top: int, right: int)
    requires |ns| == |ns0| && s <= j < |act| && fr != []
    requires Chain(ns0, Head(act), act) && Chain(ns0, Head(fr), fr) && Apart(act, fr)
    requires Tied(ns0, ns, act, fr, s, j, x, top, right)
    ensures var a := NewActive(act, s, j, fr[0]); Chain(ns, Head(a), a)
  {
    var a := NewActive(act, s, j, fr[0]);
    forall k | 0 <= k < |a|
      ensures NextIs(ns, a, k)
    {
      NewActiveAt(act, s, j, fr[0], k);
      if k + 1 < |a| { NewActiveAt(act, s, j, fr[0], k + 1); }
      if k < s {
        assert NextIs(ns0, act, k) && (k < s - 1 ==> ns[act[k]] == ns0[act[k]]);
      } else if k > s {
        var m := k - s - 1 + j;
        assert NextIs(ns0, act, m) && ns[act[m]].next == ns0[act[m]].next;
      }
    }
  }

  lemma {:induction false} TiedFree(ns0: seq<Node>, ns: seq<Node>, act: seq<int>, fr: seq<int>, s: nat, j: nat,
                 x: int, top: int, right: int)
    requires |ns| == |ns0| && s <= j < |act| && fr != []
    requires Chain(ns0, Head(act), act) && Chain(ns0, Head(fr), fr) && Apart(act, fr)
    requires Tied(ns0, ns, act, fr, s, j, x, top, right)
    ensures var f := NewFree(act, fr, s, j); Chain(ns, Head(f), f)
  {
    var f := NewFree(act, fr, s, j);
    forall k | 0 <= k < |f|
      ensures NextIs(ns, f, k)
    {
      NewFreeAt(act, fr, s, j, k);
      if k + 1 < |f| { NewFreeAt(act, fr, s, j, k + 1); }
      if k < j - s {
        var m := j - 1 - k;
        assert ns[act[m]].next == if m == s then Head(fr[1..]) else act[m - 1];
      } else {
        var m := k - (j - s) + 1;
        assert NextIs(ns0, fr, m) && ns[fr[m]].next == ns0[fr[m]].next;
      }
    }
  }

  lemma {:induction false} TiedSpells(ns0: seq<Node>, ns: seq<Node>, act: seq<int>, fr: seq<int>, p: seq<Seg>, s: nat, j: nat,
                   x: int, w: int, top: int)
    requires |ns| == |ns0| && s <= j < |act| && fr != []
    requires Chain(ns0, Head(act), act) && Chain(ns0, Head(fr), fr) && Spells(ns0, act, p)
    requires |p| >= 2 && p[0].x <= x && x + w <= p[|p| - 1].x && 0 < w
    requires s == FirstFrom(p, 0, x) && j == StopAt(p, s, x + w)
    requires Tied(ns0, ns, act, fr, s, j, x, top, x + w)
    ensures Spells(ns, NewActive(act, s, j, fr[0]), Place(p, x, w, top))
  {
    var a, q := NewActive(act, s, j, fr[0]), Place(p, x, w, top);
    assert |q| == |a|;
    forall k | 0 <= k < |a| ensures SegIs(ns, a, q, k) {
      NewActiveAt(act, s, j, fr[0], k);
      if k < s {
        assert SegIs(ns0, act, p, k) && q[k] == p[k] && ns[act[k]].x == ns0[act[k]].x;
      } else if s < k {
        var m := k - s - 1 + j;
        assert SegIs(ns0, act, p, m) && q[k].y == p[m].y && (m > j ==> q[k] == p[m]);
      }
    }
  }

  ghost predicate SoundLists(ns: seq<Node>, activeHead: int, act: seq<int>, freeHead: int, fr: seq<int>) {
    Chain(ns, activeHead, act) && Chain(ns, freeHead, fr) && Apart(act, fr) && |act| + |fr| == |ns|
  }

  /** The nodes a rewiring starts from. */
  ghost predicate Start(ns0: seq<Node>, act: seq<int>, fr: seq<int>, p: seq<Seg>) {
    fr != [] && SoundLists(ns0, Head(act), act, Head(fr), fr) && Spells(ns0, act, p)
  }

  /** What the rewired nodes amount to. */
  lemma {:induction false} ListsSpliced(ns0: seq<Node>, ns: seq<Node>, act: seq<int>, fr: seq<int>, p: seq<Seg>, s: nat, j: nat,
                     x: int, w: int, top: int)
    requires |ns| == |ns0| && Start(ns0, act, fr, p)
    requires |p| >= 2 && p[0].x <= x && x + w <= p[|p| - 1].x && 0 < w
    requires s == FirstFrom(p, 0, x) && j == StopAt(p, s, x + w)
    requires Tied(ns0, ns, act, fr, s, j, x, top, x + w)
    ensures var a, f := NewActive(act, s, j, fr[0]), NewFree(act, fr, s, j);
      SoundLists(ns, Head(a), a, Head(f), f) && Spells(ns, a, Place(p, x, w, top))
    ensures Head(NewActive(act, s, j, fr[0])) == if s == 0 then fr[0] else Head(act)
    ensures Head(NewFree(act, fr, s, j)) == if s == j then Head(fr[1..]) else act[j - 1]
  {
    TiedActive(ns0, ns, act, fr, s, j, x, top, x + w);
    TiedFree(ns0, ns, act, fr, s, j, x, top, x + w);
    TiedSpells(ns0, ns, act, fr, p, s, j, x, w, top);
    ApartAfter(act, fr, s, j);
  }

  /** What the raised skyline amounts to. */
  lemma {:induction false} SkylinePlaced(p: seq<Seg>, hs: seq<int>, boxes: seq<Box>, height: int,
                      x: nat, y: int, w: nat, h: nat, wide: nat, q: seq<Seg>, ks: seq<int>, boxes': seq<Box>)
    requires Shows(p, hs) && Packed(boxes, hs, height) && Bounded(hs, height)
    requires 0 < w <= wide && x + wide <= |hs| && 0 < h && y == RestY(hs, x, wide) && y + h <= height
    requires Seated(p, x, wide)
    requires q == Place(p, x, w, y + h) && boxes' == boxes + [Box(x, y, w, h)]
    requires 0 <= RaisedTo(p, x, w) && RaisedOver(hs, ks, x, RaisedTo(p, x, w), y + h)
    ensures Shows(q, ks) && Bounded(ks, height) && NoLower(hs, ks) && Packed(boxes', ks, height)
  {
    SeatedRaise(p, x, w, wide);
    PlaceIncreases(p, x, w, y + h);
    RestYIsPeak(hs, x, wide);
    assert 0 <= hs[x] <= y;
    RaiseKeepsPacked(boxes, hs, height, Box(x, y, w, h), wide, RaisedTo(p, x, w), ks, boxes');
    PlaceShows(p, hs, x, w, y + h, q, ks);
  }

  // ----- The packer -----

  /** The packer's state as values. */
  datatype World = World(ns: seq<Node>, activeHead: int, freeHead: int, active: seq<int>, free: seq<int>,
                         p: seq<Seg>, hs: seq<int>, boxes: seq<Box>, width: nat, height: nat, align: nat, numNodes: nat)

  /** The part of the invariant that choosing a position relies on: the active list
      spells out the skyline. */
  ghost predicate Searches(v: World) {
    && 1 <= v.width <= 0xffff && v.height <= 0xffff && 1 <= v.align
    && Chain(v.ns, v.activeHead, v.active) && Spells(v.ns, v.active, v.p)
    && |v.hs| == v.width && Shows(v.p, v.hs) && Bounded(v.hs, v.height)
  }

  ghost predicate Sound(v: World) {
    && 1 <= v.numNodes && |v.ns| == v.numNodes + 2 && Searches(v)
    && Chain(v.ns, v.freeHead, v.free)
    && Apart(v.active, v.free) && |v.active| + |v.free| == v.numNodes + 2
    && Packed(v.boxes, v.hs, v.height)
  }

  /** With the lists rewired, the heights raised and the box noted, all agree again. */
  lemma {:induction false} PlacedSound(v: World, v': World, x: nat, y: int, w: nat, h: nat, wide: nat)
    requires Sound(v) && 0 < w <= wide && x + wide <= v.width && 0 < h && Seated(v.p, x, wide)
    requires y == RestY(v.hs, x, wide) && y + h <= v.height
    requires v' == v.(ns := v'.ns, activeHead := v'.activeHead, freeHead := v'.freeHead, active := v'.active,
                      free := v'.free, p := v'.p, hs := v'.hs, boxes := v.boxes + [Box(x, y, w, h)])
    requires |v'.ns| == |v.ns| && SoundLists(v'.ns, v'.activeHead, v'.active, v'.freeHead, v'.free)
    requires v'.p == Place(v.p, x, w, y + h) && Spells(v'.ns, v'.active, v'.p)
    requires 0 <= RaisedTo(v.p, x, w) && RaisedOver(v.hs, v'.hs, x, RaisedTo(v.p, x, w), y + h)
    ensures Sound(v') && NoLower(v.hs, v'.hs)
  {
    SkylinePlaced(v.p, v.hs, v.boxes, v.height, x, y, w, h, wide, v'.p, v'.hs, v'.boxes);
  }

  /** The nodes as they are laid out at first: the free ones in a row, then the two
      the skyline starts with. */
  lemma {:induction false} InitialSound(v: World)
    requires 1 <= v.width <= 0xffff && v.height <= 0xffff && 1 <= v.align && 1 <= v.numNodes
    requires |v.ns| == v.numNodes + 2
    requires forall k :: 0 <= k < v.numNodes ==> v.ns[k].next == if k < v.numNodes - 1 then k + 1 else NIL
    requires v.ns[v.numNodes] == Node(0, 0, v.numNodes + 1) && v.ns[v.numNodes + 1] == Node(v.width, 0xffff, NIL)
    requires v.freeHead == 0 && v.free == seq(v.numNodes, k => k)
    requires v.activeHead == v.numNodes && v.active == [v.numNodes, v.numNodes + 1]
    requires v.p == [Seg(0, 0), Seg(v.width, 0xffff)] && v.hs == seq(v.width, _ => 0) && v.boxes == []
    ensures Sound(v)
  {
  }

  class Packer {
    var width: nat
    var height: nat
    var align: nat
    var heuristic: Heuristic
    var numNodes: nat
    var activeHead: int
    var freeHead: int
    /** The caller's nodes, followed by the two the context brings along. */
    var nodes: array<Node>

    /** The two lists, head first. */
    ghost var active: seq<int>
    ghost var free: seq<int>
    /** What the active list spells out, and the height above each column. */
    ghost var skyline: seq<Seg>
    ghost var heights: seq<int>
    /** Every box placed since the target was set up. */
    ghost var placed: seq<Box>

    ghost predicate Valid()
      reads this, nodes
    {
      Sound(Now())
    }

    ghost predicate Searchable()
      reads this, nodes
    {
      Searches(Now())
    }

    ghost function Now(): World
      reads this, nodes
    {
      World(nodes[..], activeHead, freeHead, active, free, skyline, heights, placed, width, height, align, numNodes)
    }

    ghost predicate Heads()
      reads this
    {
      activeHead == Head(active) && freeHead == Head(free)
    }

    lemma {:induction false} NodeIs(k: nat)
      requires Searchable() && k < |active|
      ensures 0 <= active[k] < nodes.Length
      ensures nodes[active[k]].x == skyline[k].x && nodes[active[k]].y == skyline[k].y
      ensures nodes[active[k]].next == if k + 1 < |active| then active[k + 1] else NIL
    {
      assert NextIs(nodes[..], active, k) && SegIs(nodes[..], active, skyline, k);
    }

    ghost predicate LinkTo(link: Link, k: nat)
      reads this
    {
      k < |active| && link == if k == 0 then HeadLink else NextOf(active[k - 1])
    }

    constructor (width: nat, height: nat, numNodes: nat)
      requires 1 <= width <= 0xffff && height <= 0xffff && 1 <= numNodes
      ensures Valid() && fresh(nodes)
      ensures this.width == width && this.height == height && this.numNodes == numNodes
      ensures heuristic == BottomLeft && align == (width + numNodes - 1) / numNodes
      ensures placed == [] && skyline == [Seg(0, 0), Seg(width, 0xffff)] && |free| == numNodes
    {
      var ns := new Node[numNodes + 2];
      var i := 0;
      while i < numNodes - 1
        invariant 0 <= i <= numNodes - 1
        invariant forall k :: 0 <= k < i ==> ns[k].next == k + 1
      {
        ns[i] := ns[i].(next := i + 1);
        i := i + 1;
      }
      ns[i] := ns[i].(next := NIL);
      this.width, this.height, this.numNodes := width, height, numNodes;
      heuristic := BottomLeft;
      nodes := ns;
      freeHead := 0;
      activeHead := numNodes;
      CeilPositive(width, numNodes);
      align := (width + numNodes - 1) / numNodes;
      ns[numNodes] := Node(0, 0, numNodes + 1);
      ns[numNodes + 1] := Node(width, 0xffff, NIL);
      free := seq(numNodes, k => k);
      active := [numNodes, numNodes + 1];
      skyline := [Seg(0, 0), Seg(width, 0xffff)];
      heights := seq(width, _ => 0);
      placed := [];
      new;
      InitialSound(Now());
    }

    method SetupHeuristic(he: Heuristic)
      requires Valid()
      modifies this`heuristic
      ensures Valid() && heuristic == he
    {
      heuristic := he;
    }

    method SetupAllowOutOfMem(allow: bool)
      requires Valid()
      modifies this`align
      ensures Valid() && align == if allow then 1 else (width + numNodes - 1) / numNodes
    {
      align := if allow then 1 else (width + numNodes - 1) / numNodes;
      CeilPositive(width, numNodes);
    }

    /** The lowest resting height for a box `w` wide at `x0`, starting in the
        segment of node `first`, and the waste below it. */
    method FindMinY(first: int, x0: nat, w: nat, ghost i: nat) returns (minY: int, waste: int)
      requires Searchable()
      requires 0 < w && x0 + w <= width
      requires i + 1 < |active| && first == active[i]
      requires skyline[i].x <= x0 < skyline[i + 1].x
      ensures minY == RestY(heights, x0, w) && waste == Waste(skyline, x0, w)
    {
      ghost var p, hs := skyline, heights;
      SegOfIs(p, i, x0);
      NodeIs(i);
      var node := first;
      var x1 := x0 + w;
      var scan := Scan(0, 0, 0);
      ghost var m := i;
      while nodes[node].x < x1
        invariant i <= m < |active| && node == active[m] && 0 <= node < nodes.Length
        invariant nodes[node].x == p[m].x
        invariant Scanned(p, hs, m == i, m, x0, w, scan.minY)
        invariant ScanFrom(p, m, x0, w, scan) == ScanFrom(p, i, x0, w, Scan(0, 0, 0))
        decreases |active| - m
      {
        ScanAdvance(p, hs, m == i, m, x0, w, scan.minY);
        NodeIs(m);
        NodeIs(m + 1);
        var n := nodes[node];
        var nextX := nodes[n.next].x;
        assert p[m] == Seg(n.x, n.y) && p[m + 1].x == nextX;
        scan := ScanSegment(Seg(n.x, n.y), nextX, x0, w, scan);
        node := n.next;
        m := m + 1;
      }
      return scan.minY, scan.waste;
    }

    /** The search for a box `w` by `h` on the present skyline. */
    ghost function SearchFor(w: nat, h: int): Search
      requires Searchable() && 0 < w
      reads this, nodes
    {
      Query(heuristic, skyline, heights, height, w, h)
    }

    /** The best link so far is the one to the node under the best position. */
    ghost predicate HangsAt(best: Link, k: nat, x: int)
      reads this
    {
      best != NoLink ==> LinkTo(best, k) && k + 1 < |skyline| && skyline[k].x <= x < skyline[k + 1].x
    }

    /** `link` leads to `node`, the n-th of the active list and not its last. */
    ghost predicate Cursor(node: int, link: Link, n: nat)
      reads this
    {
      n + 1 < |active| && n + 1 < |skyline| && node == active[n] && LinkTo(link, n)
    }

    /** The best position so far, the link it hangs at, and that one of its
        edges is on a node. */
    ghost predicate Found(q: Search, best: Link, s: Score, k: nat)
      reads this
    {
      Tracks(q, best, s) && HangsAt(best, k, s.x) && (best != NoLink ==> EdgeAligned(q, s.x))
    }

    /** Evaluates one position of a pass and takes it over if preferred. */
    method Offer(ghost q: Search, w: nat, h: nat, right: bool, link: Link, x: nat, node: int, ghost i: nat,
                 best: Link, s: Score, ghost k: nat)
      returns (best': Link, s': Score, ghost k': nat)
      requires Searchable() && 0 < w && q == SearchFor(w, h) && x + w <= width
      requires Cursor(node, link, i) && skyline[i].x <= x < skyline[i + 1].x
      requires if right then heuristic == BestFit else best != NoLink ==> s.x < x
      requires Found(q, best, s, k) && EdgeAligned(q, x)
      ensures Found(q, best', s', k')
      ensures s'.x == x || (best' == best && s' == s)
      ensures Ahead(q, best', s', x)
      ensures NoWorse(q, best, s, best', s')
    {
      best', s', k' := best, s, k;
      var y, waste := FindMinY(node, x, w, i);
      var take := if right then PrefersRight(height, h, y, waste, x, s)
                  else Prefers(heuristic, height, h, y, waste, s);
      Consider(q, best, s, x, y, waste, right, take, link);
      if take {
        best', s', k' := link, Score(y, if heuristic == BestFit then waste else 0, x), i;
      }
    }

    /** The first pass of find_best_pos: the box's left edge on each node. */
    method TryLeftEdges(w: nat, h: nat) returns (best: Link, s: Score, ghost k: nat)
      requires Searchable() && 0 < w <= width
      ensures Found(SearchFor(w, h), best, s, k)
      ensures var q := SearchFor(w, h); forall i :: 0 <= i < |active| ==> AheadLeft(q, best, s, i)
    {
      ghost var q := SearchFor(w, h);
      best, s, k := NoLink, Score(FAR, FAR, 0), 0;
      var node, prev := activeHead, HeadLink;
      ghost var m := 0;
      NodeIs(0);
      while nodes[node].x + w <= width
        invariant m < |active| && node == active[m] && 0 <= node < nodes.Length
        invariant nodes[node].x == q.p[m].x && LinkTo(prev, m)
        invariant Found(q, best, s, k) && (best != NoLink ==> s.x < q.p[m].x)
        invariant forall i :: 0 <= i < m ==> AheadLeft(q, best, s, i)
        decreases |active| - m
      {
        Before(q.p, m, |q.p| - 1);
        NodeIs(m);
        NodeIs(m + 1);
        assert EdgeAligned(q, q.p[m].x);
        best, s, k := Offer(q, w, h, false, prev, nodes[node].x, node, m, best, s, k);
        prev := NextOf(node);
        node := nodes[node].next;
        m := m + 1;
      }
      forall i | 0 <= i < |active| ensures AheadLeft(q, best, s, i) {
        if q.p[i].x + w <= width { Before(q.p, i, m); }
      }
    }

    /** The first node a box `w` wide can end at. */
    method FirstTail(w: nat) returns (tail: int, ghost t: nat)
      requires Searchable() && w <= width
      ensures t < |active| && tail == active[t] && w <= skyline[t].x
      ensures forall i :: 0 <= i < t ==> skyline[i].x < w
    {
      tail, t := activeHead, 0;
      NodeIs(0);
      while nodes[tail].x < w
        invariant t < |active| && tail == active[t] && 0 <= tail < nodes.Length && nodes[tail].x == skyline[t].x
        invariant forall i :: 0 <= i < t ==> skyline[i].x < w
        decreases |active| - t
      {
        Before(skyline, t, |skyline| - 1);
        NodeIs(t);
        NodeIs(t + 1);
        tail := nodes[tail].next;
        t := t + 1;
      }
    }

    /** The second pass, for best-fit: the box's right edge on each node. */
    method TryRightEdges(w: nat, h: nat, best0: Link, s0: Score, ghost k0: nat)
      returns (best: Link, s: Score, ghost k: nat)
      requires Searchable() && 0 < w <= width && heuristic == BestFit
      requires Found(SearchFor(w, h), best0, s0, k0)
      ensures Found(SearchFor(w, h), best, s, k)
      ensures NoWorse(SearchFor(w, h), best0, s0, best, s)
      ensures RightsDone(SearchFor(w, h), best, s, |active|)
    {
      ghost var q := SearchFor(w, h);
      best, s, k := best0, s0, k0;
      var tail;
      ghost var t: nat;
      tail, t := FirstTail(w);
      var node, prev := activeHead, HeadLink;
      ghost var n: nat := 0;
      while tail != NIL
        invariant t <= |active| && tail == if t < |active| then active[t] else NIL
        invariant Cursor(node, prev, n)
        invariant t < |active| ==> q.p[n].x + w <= q.p[t].x
        invariant Found(q, best, s, k)
        invariant NoWorse(q, best0, s0, best, s)
        invariant RightsDone(q, best, s, t)
        decreases |active| - t
      {
        ghost var best1, s1 := best, s;
        node, prev, n, best, s, k := TryRightEdge(q, w, h, tail, t, node, prev, n, best, s, k);
        PassStep(q, best0, s0, best1, s1, best, s, t);
        NodeIs(t);
        tail := nodes[tail].next;
        t := t + 1;
      }
    }

    /** One step of the second pass. */
    method TryRightEdge(ghost q: Search, w: nat, h: nat, tail: int, ghost t: nat,
                        node0: int, prev0: Link, ghost n0: nat, best0: Link, s0: Score, ghost k0: nat)
      returns (node: int, prev: Link, ghost n: nat, best: Link, s: Score, ghost k: nat)
      requires Searchable() && 0 < w <= width && q == SearchFor(w, h) && heuristic == BestFit
      requires t < |active| && tail == active[t]
      requires Cursor(node0, prev0, n0) && skyline[n0].x + w <= skyline[t].x
      requires Found(q, best0, s0, k0)
      ensures Cursor(node, prev, n) && skyline[n].x + w <= skyline[t].x
      ensures Found(q, best, s, k)
      ensures NoWorse(q, best0, s0, best, s) && AheadRight(q, best, s, t)
    {
      NodeIs(t);
      assert skyline[t].x <= width;
      var xpos := nodes[tail].x - w;
      assert skyline[t].x == xpos + w;
      node, prev, n := Advance(xpos, node0, prev0, n0);
      assert EdgeAligned(q, xpos);
      best, s, k := Offer(q, w, h, true, prev, xpos, node, n, best0, s0, k0);
      AheadAtRight(q, best, s, t, xpos);
    }

    /** Moves on to the node whose segment holds `xpos`. */
    method Advance(xpos: int, node0: int, prev0: Link, ghost n0: nat) returns (node: int, prev: Link, ghost n: nat)
      requires Searchable() && Cursor(node0, prev0, n0)
      requires skyline[n0].x <= xpos < width
      ensures Cursor(node, prev, n)
      ensures skyline[n].x <= xpos < skyline[n + 1].x
    {
      node, prev, n := node0, prev0, n0;
      NodeIs(n);
      NodeIs(n + 1);
      while nodes[nodes[node].next].x <= xpos
        invariant Cursor(node, prev, n) && skyline[n].x <= xpos
        invariant 0 <= node < nodes.Length && nodes[node].next == active[n + 1] && 0 <= active[n + 1] < nodes.Length
        invariant nodes[active[n + 1]].x == skyline[n + 1].x
        decreases |active| - n
      {
        Before(skyline, n + 1, |skyline| - 1);
        NodeIs(n + 1);
        NodeIs(n + 2);
        prev := NextOf(node);
        node := nodes[node].next;
        n := n + 1;
      }
    }

    /** Where to put a box `w` by `h`: the best position of the heuristic, for
        the width rounded up to a multiple of `align`. */
    method FindBestPos(w: nat, h: nat) returns (link: Link, x: int, y: int, ghost k: nat)
      requires Searchable() && 0 < w
      ensures var wide := AlignUp(w, align);
        && RoundedUp(wide, w, align)
        && (link == NoLink <==> if heuristic == BottomLeft then width < wide || height < h
                                else !Fits(heights, height, wide, h))
        && (link != NoLink ==> Best(SearchFor(wide, h), x) && y == RestY(heights, x, wide)
                               && Seated(skyline, x, wide))
      ensures HangsAt(link, k, x)
    {
      var wide := AlignUp(w, align);
      AlignUpRounds(w, align);
      if wide > width || h > height {
        if h > height { TooTall(SearchFor(wide, h)); }
        return NoLink, 0, 0, 0;
      }
      ghost var q := SearchFor(wide, h);
      var best, s;
      best, s, k := TryLeftEdges(wide, h);
      assert AheadLeft(q, best, s, 0);
      if heuristic == BestFit {
        ghost var left, sl := best, s;
        best, s, k := TryRightEdges(wide, h, best, s, k);
        if best == NoLink { NothingFits(q, left, sl, s); } else { NothingFitsBetter(q, left, sl, best, s); }
      } else {
        NothingLower(q, best, s);
      }
      if best != NoLink { SeatedAtEdge(q, s.x); }
      return best, s.x, s.y, k;
    }

    /** Pushes every node from `cur` on onto the free list until one reaches
        past `right`. */
    method FreeCovered(cur0: int, right: int, ghost ns0: seq<Node>, ghost s: nat, ghost j: nat, ghost x: int, ghost top: int)
      returns (cur: int)
      requires |ns0| == nodes.Length && Start(ns0, active, free, skyline)
      requires s < |active| && j == StopAt(skyline, s, right) && cur0 == active[s] && freeHead == Head(free[1..])
      requires Freeing(ns0, nodes[..], active, free, s, s, x, top)
      modifies nodes, this`freeHead
      ensures cur == active[j] && freeHead == if s == j then Head(free[1..]) else active[j - 1]
      ensures Freeing(ns0, nodes[..], active, free, s, j, x, top)
    {
      cur := cur0;
      ghost var t := s;
      assert NextIs(ns0, active, t) && SegIs(ns0, active, skyline, t);
      assert t + 1 < |active| ==> SegIs(ns0, active, skyline, t + 1);
      while nodes[cur].next != NIL && nodes[nodes[cur].next].x <= right
        invariant s <= t < |active| && cur == active[t]
        invariant freeHead == if s == t then Head(free[1..]) else active[t - 1]
        invariant Freeing(ns0, nodes[..], active, free, s, t, x, top)
        invariant j == StopAt(skyline, t, right)
        invariant nodes[cur].next == if t + 1 < |active| then active[t + 1] else NIL
        invariant t + 1 < |active| ==> nodes[active[t + 1]].x == skyline[t + 1].x
        decreases |active| - t
      {
        cur := PushFree(cur, ns0, s, t, x, top);
        t := t + 1;
      }
    }

    /** Moves one node to the front of the free list. */
    method PushFree(cur: int, ghost ns0: seq<Node>, ghost s: nat, ghost t: nat, ghost x: int, ghost top: int)
      returns (next: int)
      requires |ns0| == nodes.Length && Start(ns0, active, free, skyline)
      requires s <= t && t + 1 < |active| && cur == active[t] && 0 <= cur < nodes.Length
      requires freeHead == if s == t then Head(free[1..]) else active[t - 1]
      requires Freeing(ns0, nodes[..], active, free, s, t, x, top) && nodes[cur].next == active[t + 1]
      modifies nodes, this`freeHead
      ensures next == active[t + 1] && freeHead == active[t] && Freeing(ns0, nodes[..], active, free, s, t + 1, x, top)
      ensures 0 <= next < nodes.Length && nodes[next].next == if t + 2 < |active| then active[t + 2] else NIL
      ensures t + 2 < |active| ==> 0 <= active[t + 2] < nodes.Length && nodes[active[t + 2]].x == skyline[t + 2].x
    {
      ghost var before := nodes[..];
      next := nodes[cur].next;
      nodes[cur] := nodes[cur].(next := freeHead);
      freeHead := cur;
      FreeOne(ns0, before, nodes[..], active, free, s, t, x, top);
      assert NextIs(ns0, active, t + 1);
      assert t + 2 < |active| ==> SegIs(ns0, active, skyline, t + 2);
    }

    /** Ties the first free node in before the segment that `link` leads to, or
        behind it when that segment starts left of the box. */
    method Insert(link: Link, x: Coord, top: Coord, ghost k: nat, ghost s: nat) returns (node: int, cur: int)
      requires Start(nodes[..], active, free, skyline) && Heads()
      requires k + 1 < |active| && LinkTo(link, k) && s == if skyline[k].x < x then k + 1 else k
      modifies nodes, this`freeHead, this`activeHead
      ensures node == free[0] && freeHead == Head(free[1..])
      ensures cur == active[s] && activeHead == (if s == 0 then node else old(activeHead))
      ensures Freeing(old(nodes[..]), nodes[..], active, free, s, s, x, top)
    {
      ghost var ns0 := nodes[..];
      assert NextIs(ns0, active, k) && SegIs(ns0, active, skyline, k);
      assert k > 0 ==> NextIs(ns0, active, k - 1);
      assert NextIs(ns0, free, 0) && Once(free, active, 0) && Once(active, free, k);
      assert k > 0 ==> Once(active, free, k - 1);
      node := freeHead;
      freeHead := nodes[node].next;
      nodes[node] := nodes[node].(x := x, y := top);
      cur := match link case NextOf(prev) => nodes[prev].next case _ => activeHead;
      assert cur == active[k];
      if nodes[cur].x < x {
        var next := nodes[cur].next;
        nodes[cur] := nodes[cur].(next := node);
        cur := next;
      } else if link == HeadLink {
        activeHead := node;
      } else {
        nodes[link.node] := nodes[link.node].(next := node);
      }
    }

    /** Places a box `w` by `h`, if a node is left and the box fits anywhere. */
    method PackRectangle(w: nat, h: nat) returns (packed: bool, x: int, y: int)
      requires Valid() && 0 < w && 0 < h
      modifies nodes, this`activeHead, this`freeHead, this`active, this`free, this`skyline, this`heights, this`placed
      ensures Valid()
      ensures RoundedUp(AlignUp(w, align), w, align)
      ensures packed <==> old(free) != [] && Fits(old(heights), height, AlignUp(w, align), h)
      ensures packed ==>
        && Best(old(SearchFor(AlignUp(w, align), h)), x)
        && y == RestY(old(heights), x, AlignUp(w, align))
        && placed == old(placed) + [Box(x, y, w, h)]
        && x + w <= width && skyline == Place(old(skyline), x, w, y + h)
      ensures !packed ==>
        placed == old(placed) && skyline == old(skyline) && heights == old(heights) && free == old(free)
      ensures NoLower(old(heights), heights)
    {
      ghost var wide := AlignUp(w, align);
      var link;
      ghost var k;
      link, x, y, k := FindBestPos(w, h);
      packed := link != NoLink && y + h <= height && freeHead != NIL;
      NodesLeft();
      if packed {
        PlaceBox(link, x, y, w, h, k, wide);
      } else if link != NoLink && y + h > height {
        NothingFitsHigher(SearchFor(wide, h), x);
      }
    }

    lemma {:induction false} NodesLeft()
      requires Valid()
      ensures freeHead == NIL <==> free == []
    {
      if free != [] { assert NextIs(nodes[..], free, 0); }
    }

    method PlaceBox(link: Link, x: nat, y: nat, w: nat, h: nat, ghost k: nat, ghost wide: nat)
      requires Valid() && free != []
      requires k + 1 < |active| && LinkTo(link, k) && skyline[k].x <= x < skyline[k + 1].x
      requires 0 < w <= wide && x + wide <= width && 0 < h && y == RestY(heights, x, wide) && y + h <= height
      requires Seated(skyline, x, wide)
      modifies nodes, this`activeHead, this`freeHead, this`active, this`free, this`skyline, this`heights, this`placed
      ensures Valid()
      ensures placed == old(placed) + [Box(x, y, w, h)]
      ensures skyline == Place(old(skyline), x, w, y + h)
      ensures NoLower(old(heights), heights)
    {
      ghost var v := Now();
      PlaceIncreases(v.p, x, w, y + h);
      Splice(link, x, w, y + h, k);
      heights := Raise(v.hs, x, RaisedTo(v.p, x, w), y + h);
      placed := placed + [Box(x, y, w, h)];
      PlacedSound(v, Now(), x, y, w, h, wide);
    }

    /** What the rewiring needs of the invariant. */
    lemma {:induction false} Opening()
      requires Valid() && free != []
      ensures Start(nodes[..], active, free, skyline) && Heads()
      ensures |active| == |skyline| >= 2 && skyline[0].x == 0 && skyline[|skyline| - 1].x == width && Increasing(skyline)
    {
    }

    /** Puts a new node into the active list for a box `w` wide at `x` and frees
        the nodes it covers. */
    method Splice(link: Link, x: Coord, w: nat, top: Coord, ghost k: nat)
      requires Valid() && free != [] && 0 < w && x + w <= width
      requires k + 1 < |active| && LinkTo(link, k) && skyline[k].x <= x < skyline[k + 1].x
      modifies nodes, this`activeHead, this`freeHead, this`active, this`free, this`skyline
      ensures SoundLists(nodes[..], activeHead, active, freeHead, free)
      ensures skyline == Place(old(skyline), x, w, top) && Spells(nodes[..], active, skyline)
    {
      Opening();
      ghost var ns0, s := nodes[..], FirstFrom(skyline, 0, x);
      ghost var j := StopAt(skyline, s, x + w);
      FirstFromIs(skyline, k, x);
      Rewire(link, x, w, top, k, s, j);
      Relink(ns0, s, j, x, w, top);
    }

    /** The lists the rewired nodes now spell. */
    ghost method Relink(ns0: seq<Node>, s: nat, j: nat, x: int, w: int, top: int)
      requires |ns0| == nodes.Length && Start(ns0, active, free, skyline)
      requires |skyline| >= 2 && skyline[0].x <= x && x + w <= skyline[|skyline| - 1].x && 0 < w
      requires s == FirstFrom(skyline, 0, x) && j == StopAt(skyline, s, x + w)
      requires Tied(ns0, nodes[..], active, free, s, j, x, top, x + w)
      requires activeHead == if s == 0 then free[0] else Head(active)
      requires freeHead == if s == j then Head(free[1..]) else active[j - 1]
      modifies this`active, this`free, this`skyline
      ensures SoundLists(nodes[..], activeHead, active, freeHead, free)
      ensures skyline == Place(old(skyline), x, w, top) && Spells(nodes[..], active, skyline)
    {
      ListsSpliced(ns0, nodes[..], active, free, skyline, s, j, x, w, top);
      active, free, skyline :=
        NewActive(active, s, j, free[0]), NewFree(active, free, s, j), Place(skyline, x, w, top);
    }

    method Rewire(link: Link, x: Coord, w: nat, top: Coord, ghost k: nat, ghost s: nat, ghost j: nat)
      requires Start(nodes[..], active, free, skyline) && Heads() && x + w <= 0xffff
      requires k + 1 < |active| && LinkTo(link, k) && s == if skyline[k].x < x then k + 1 else k
      requires j == StopAt(skyline, s, x + w)
      modifies nodes, this`activeHead, this`freeHead
      ensures Tied(old(nodes[..]), nodes[..], active, free, s, j, x, top, x + w)
      ensures activeHead == if s == 0 then free[0] else old(activeHead)
      ensures freeHead == if s == j then Head(free[1..]) else active[j - 1]
    {
      ghost var ns0 := nodes[..];
      var node, cur := Cover(link, x, w, top, k, s, j);
      TieIn(node, cur, x + w, ns0, s, j, x, top);
    }

    method Cover(link: Link, x: Coord, w: nat, top: Coord, ghost k: nat, ghost s: nat, ghost j: nat)
      returns (node: int, cur: int)
      requires Start(nodes[..], active, free, skyline) && Heads()
      requires k + 1 < |active| && LinkTo(link, k) && s == if skyline[k].x < x then k + 1 else k
      requires j == StopAt(skyline, s, x + w)
      modifies nodes, this`activeHead, this`freeHead
      ensures node == free[0] && cur == active[j] && Freeing(old(nodes[..]), nodes[..], active, free, s, j, x, top)
      ensures activeHead == if s == 0 then free[0] else old(activeHead)
      ensures freeHead == if s == j then Head(free[1..]) else active[j - 1]
    {
      ghost var ns0 := nodes[..];
      node, cur := Insert(link, x, top, k, s);
      cur := FreeCovered(cur, x + w, ns0, s, j, x, top);
    }

    /** The new node leads to the first kept one, which starts no further left
        than the box ends. */
    method TieIn(node: int, cur: int, right: Coord, ghost ns0: seq<Node>, ghost s: nat, ghost j: nat,
                 ghost x: int, ghost top: int)
      requires |ns0| == nodes.Length && Start(ns0, active, free, skyline) && s <= j < |active| && node == free[0] && cur == active[j]
      requires Freeing(ns0, nodes[..], active, free, s, j, x, top)
      modifies nodes
      ensures Tied(ns0, nodes[..], active, free, s, j, x, top, right)
    {
      ghost var ns := nodes[..];
      assert Once(active, free, j);
      TieUp(ns0, ns, active, free, s, j, x, top, right);
      nodes[node] := nodes[node].(next := cur);
      if nodes[cur].x < right {
        nodes[cur] := nodes[cur].(x := right);
      }
      assert nodes[..] == var tied := ns[node := ns[node].(next := cur)];
        if ns[cur].x < right then tied[cur := tied[cur].(x := right)] else tied;
    }
  }
}
