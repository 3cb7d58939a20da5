/** Whether the node pool can run dry. The library says that rounding widths up
    to ceil(width / num_nodes) makes any number of nodes enough. It does not:
    positions advance by the unrounded width, so every target of two rows or more
    and wider than its number of nodes can be left without a node while boxes
    still fit. With a node for every column (module PackRects, lemma NodesSuffice)
    it cannot. */
module NodePool {
  import opened Skyline
  import opened RectPack

  /** The skyline after `m` unit boxes have gone in side by side. */
  ghost function Steps(m: nat, width: nat): seq<Seg> {
    seq(m, i => Seg(i, 1)) + [Seg(m, 0), Seg(width, 0xffff)]
  }

  lemma {:induction false} RoundedFits(width: nat, n: nat, m: nat)
    requires 1 <= n < width && m < n
    ensures var align := (width + n - 1) / n; 1 <= align && AlignUp(1, align) == align && m + align <= width
  {
    var align := (width + n - 1) / n;
    CeilPositive(width, n);
    assert 0 <= (n - 1) * (width - n);
    assert width + n - 1 < n * (width - n + 2);
    assert align < width - n + 2 by { QuotientBelow(width + n - 1, n, width - n + 2); }
    assert align % align == 0;
  }

  lemma {:induction false} QuotientBelow(a: nat, n: nat, b: nat)
    requires 0 < n && a < n * b
    ensures a / n < b
  {
    var k := a / n;
    assert n * k <= a;
    assert b <= k ==> n * b <= n * k;
  }

  lemma {:induction false} StepsHeights(m: nat, width: nat, hs: seq<int>)
    requires m < width && Shows(Steps(m, width), hs)
    ensures forall c :: 0 <= c < width ==> hs[c] == if c < m then 1 else 0
  {
    var p := Steps(m, width);
    forall c | 0 <= c < width ensures hs[c] == if c < m then 1 else 0 {
      assert SegFlat(p, hs, if c < m then c else m);
    }
  }

  /** The next unit box goes right behind the last one. */
  lemma {:induction false} NextStep(q: Search, m: nat, x: int, p: seq<Seg>, width: nat)
    requires m + 1 < |q.hs| && q.p == Steps(m, |q.hs|) && q.he == BottomLeft
    requires m + q.w <= |q.hs| == width && Best(q, x) && p == Place(q.p, x, 1, RestY(q.hs, x, q.w) + 1)
    ensures x == m && p == Steps(m + 1, width)
  {
    StepsHeights(m, |q.hs|, q.hs);
    RestYIs(q.hs, m, q.w, 0, m);
    assert Rival(q, m);
    assert AsGood(ScoreOf(q, x), ScoreOf(q, m));
    RestYIsPeak(q.hs, x, q.w);
    assert q.hs[x] <= 0;
    PlaceOnSteps(m, |q.hs|);
  }

  lemma {:induction false} PlaceOnSteps(m: nat, width: nat)
    requires m + 1 < width
    ensures Place(Steps(m, width), m, 1, 1) == Steps(m + 1, width)
  {
    var p, q := Steps(m, width), Place(Steps(m, width), m, 1, 1);
    FirstFromIs(p, m, m);
    assert StopAt(p, m, m + 1) == m && RaisedTo(p, m, 1) == m + 1;
    assert |q| == m + 3;
    forall k | 0 <= k < m + 3 ensures q[k] == Steps(m + 1, width)[k] {
      StepOf(m, width, k);
      StepOf(m + 1, width, k);
    }
  }

  lemma {:induction false} StepOf(m: nat, width: nat, k: nat)
    ensures |Steps(m, width)| == m + 2
    ensures k < m + 2 ==> Steps(m, width)[k] == if k < m then Seg(k, 1) else if k == m then Seg(m, 0) else Seg(width, 0xffff)
  {
  }

  /** `m` unit boxes stand side by side in a freshly set up target. */
  ghost predicate Filled(c: Packer, m: nat)
    reads c, c.nodes
  {
    && c.Valid() && c.heuristic == BottomLeft && 1 <= c.height
    && m <= c.numNodes < c.width && c.numNodes - 1 + c.align <= c.width
    && c.skyline == Steps(m, c.width)
  }

  /** A unit box fits exactly when there is a second row, or room beside the others. */
  lemma {:induction false} UnitFits(hs: seq<int>, m: nat, height: nat, align: nat)
    requires m < |hs| && Shows(Steps(m, |hs|), hs) && 1 <= align <= |hs| && 1 <= height
    ensures AlignUp(1, align) == align
    ensures Fits(hs, height, align, 1) <==> 2 <= height || m + align <= |hs|
  {
    StepsHeights(m, |hs|, hs);
    RestYIsPeak(hs, if height == 1 && m + align <= |hs| then m else 0, align);
    assert align % align == 0;
    if height == 1 && |hs| < m + align {
      forall x: nat | x + align <= |hs| ensures RestY(hs, x, align) + 1 > height {
        RestYIsPeak(hs, x, align);
        assert hs[x] == 1;
      }
    }
  }

  /** One node is gone for each box, and whether another unit box fits. */
  lemma {:induction false} StillFits(c: Packer, m: nat)
    requires Filled(c, m)
    ensures |c.free| == c.numNodes - m && AlignUp(1, c.align) == c.align
    ensures Fits(c.heights, c.height, c.align, 1) <==> 2 <= c.height || m + c.align <= c.width
  {
    UnitFits(c.heights, m, c.height, c.align);
    assert |Steps(m, c.width)| == m + 2;
  }

  method AddUnit(c: Packer, ghost m: nat)
    requires Filled(c, m) && m < c.numNodes
    modifies c.nodes, c`activeHead, c`freeHead, c`active, c`free, c`skyline, c`heights, c`placed
    ensures Filled(c, m + 1)
  {
    StillFits(c, m);
    ghost var q := c.SearchFor(AlignUp(1, c.align), 1);
    ghost var x := PlaceUnit(c, q);
    NextStep(q, m, x, c.skyline, c.width);
  }

  method PlaceUnit(c: Packer, ghost q: Search) returns (ghost at: int)
    requires c.Valid() && c.free != [] && q == c.SearchFor(AlignUp(1, c.align), 1) && Fits(q.hs, c.height, q.w, 1)
    modifies c.nodes, c`activeHead, c`freeHead, c`active, c`free, c`skyline, c`heights, c`placed
    ensures c.Valid()
    ensures Best(q, at) && c.skyline == Place(q.p, at, 1, RestY(q.hs, at, q.w) + 1)
  {
    var packed, x, y := c.PackRectangle(1, 1);
    at := x;
  }

  method TryUnit(c: Packer) returns (packed: bool)
    requires c.Valid()
    modifies c.nodes, c`activeHead, c`freeHead, c`active, c`free, c`skyline, c`heights, c`placed
    ensures c.Valid() && packed == (old(c.free) != [] && Fits(old(c.heights), c.height, AlignUp(1, c.align), 1))
    ensures !packed ==> c.heights == old(c.heights) && |c.free| == |old(c.free)|
  {
    var x, y;
    packed, x, y := c.PackRectangle(1, 1);
  }

  method SmallPool(width: nat, height: nat, numNodes: nat) returns (c: Packer)
    requires 1 <= numNodes < width <= 0xffff && 1 <= height <= 0xffff
    ensures fresh(c) && fresh(c.nodes) && Filled(c, 0)
    ensures c.width == width && c.height == height && c.numNodes == numNodes
    ensures c.align == (width + numNodes - 1) / numNodes
  {
    RoundedFits(width, numNodes, numNodes - 1);
    c := new Packer(width, height, numNodes);
    assert c.skyline == Steps(0, width);
  }

  method FillPool(c: Packer)
    requires Filled(c, 0)
    modifies c.nodes, c`activeHead, c`freeHead, c`active, c`free, c`skyline, c`heights, c`placed
    ensures Filled(c, c.numNodes)
  {
    for m := 0 to c.numNodes
      invariant Filled(c, m)
    {
      AddUnit(c, m);
    }
  }

  /** A pool too small for its target, left with the default heuristic and
      rounding, filled with unit boxes. No node is left, and the next unit box is
      turned down. With a second row it still fits; in a single row it does exactly
      when the rounded width leaves room for it. */
  method DrainPool(width: nat, height: nat, numNodes: nat) returns (c: Packer, packed: bool)
    requires 1 <= numNodes < width <= 0xffff && 1 <= height <= 0xffff
    ensures c.Valid() && c.width == width && c.height == height && c.numNodes == numNodes
    ensures c.align == (width + numNodes - 1) / numNodes
    ensures c.free == [] && !packed
    ensures Fits(c.heights, height, AlignUp(1, c.align), 1) <==> 2 <= height || numNodes + c.align <= width
  {
    c := SmallPool(width, height, numNodes);
    FillPool(c);
    StillFits(c, numNodes);
    packed := TryUnit(c);
  }
}
