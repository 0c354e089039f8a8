/**
 What intersection over union measures: on boxes with integer corners it is a ratio of numbers of unit cells, and
 scaling and moving both boxes leaves it alone.
 */
module Cells {
  import opened Geometry
  import opened Detect

  /** A box with integer corners. */
  datatype Grid = Grid(x1: int, y1: int, x2: int, y2: int) {
    function ToBox(): Box {
      Box(x1 as real, y1 as real, x2 as real, y2 as real)
    }

    /** The unit cells it covers, none if it is inverted. */
    function Covered(): set<(int, int)> {
      set x: int, y: int | x1 <= x < x2 && y1 <= y < y2 :: (x, y)
    }
  }

  function Side(lo: int, hi: int): nat {
    if lo < hi then hi - lo else 0
  }

  function Row(x1: int, x2: int, y: int): set<(int, int)> {
    set x: int | x1 <= x < x2 :: (x, y)
  }

  lemma {:induction false} RowCount(x1: int, x2: int, y: int)
    ensures |Row(x1, x2, y)| == Side(x1, x2)
    decreases Side(x1, x2)
  {
    if x1 < x2 {
      RowCount(x1, x2 - 1, y);
      assert Row(x1, x2, y) == Row(x1, x2 - 1, y) + {(x2 - 1, y)};
    } else {
      assert Row(x1, x2, y) == {};
    }
  }

  lemma {:induction false} CoveredCount(g: Grid)
    ensures |g.Covered()| == Side(g.x1, g.x2) * Side(g.y1, g.y2)
    decreases Side(g.y1, g.y2)
  {
    if g.y1 < g.y2 {
      var top := g.(y2 := g.y2 - 1);
      CoveredCount(top);
      RowCount(g.x1, g.x2, g.y2 - 1);
      assert g.Covered() == top.Covered() + Row(g.x1, g.x2, g.y2 - 1);
      assert top.Covered() !! Row(g.x1, g.x2, g.y2 - 1);
      assert Side(g.y1, g.y2) == Side(top.y1, top.y2) + 1;
      Distribute(Side(g.x1, g.x2), Side(top.y1, top.y2));
    } else {
      assert g.Covered() == {};
    }
  }

  lemma Distribute(a: nat, b: nat)
    ensures a * (b + 1) == a * b + a
  {
  }

  function Meet(g: Grid, h: Grid): Grid {
    Grid(if g.x1 >= h.x1 then g.x1 else h.x1, if g.y1 >= h.y1 then g.y1 else h.y1,
         if g.x2 <= h.x2 then g.x2 else h.x2, if g.y2 <= h.y2 then g.y2 else h.y2)
  }

  lemma MeetCovers(g: Grid, h: Grid)
    ensures Meet(g, h).Covered() == g.Covered() * h.Covered()
  {
  }

  lemma AreaCounts(g: Grid)
    ensures Area(g.ToBox()) == |g.Covered()| as real
  {
    CoveredCount(g);
    var w, h := Side(g.x1, g.x2), Side(g.y1, g.y2);
    assert Max((g.x2 as real) - (g.x1 as real), 0.0) == w as real;
    assert Max((g.y2 as real) - (g.y1 as real), 0.0) == h as real;
    RealProduct(w, h);
  }

  lemma RealProduct(a: nat, b: nat)
    ensures (a * b) as real == a as real * b as real
  {
  }

  function MeetBox(a: Box, b: Box): Box {
    Box(Max(a.x1, b.x1), Max(a.y1, b.y1), Min(a.x2, b.x2), Min(a.y2, b.y2))
  }

  lemma OverlapIsMeet(a: Box, b: Box)
    ensures Overlap(a, b) == Area(MeetBox(a, b))
  {
  }

  lemma MeetIsMeet(g: Grid, h: Grid)
    ensures Meet(g, h).ToBox() == MeetBox(g.ToBox(), h.ToBox())
  {
  }

  lemma OverlapCounts(g: Grid, h: Grid)
    ensures Overlap(g.ToBox(), h.ToBox()) == |g.Covered() * h.Covered()| as real
  {
    hide Overlap, Area;
    OverlapIsMeet(g.ToBox(), h.ToBox());
    MeetIsMeet(g, h);
    MeetCovers(g, h);
    AreaCounts(Meet(g, h));
  }

  function Ratio(inter: real, a: real, b: real): real {
    if a + b - inter <= 0.0 then 0.0 else inter / (a + b - inter)
  }

  lemma IouIsRatio(a: Box, b: Box)
    ensures Iou(a, b) == Ratio(Overlap(a, b), Area(a), Area(b))
  {
    hide Overlap, Area;
  }

  lemma RatioCounts(both: nat, m: nat, n: nat, either: nat)
    requires either + both == m + n && both <= either
    ensures Ratio(both as real, m as real, n as real) * either as real == both as real
  {
    assert m as real + n as real - both as real == either as real;
    if either > 0 {
      Whole(both as real, either as real);
    }
  }

  lemma Counted(a: set<(int, int)>, b: set<(int, int)>)
    ensures |a + b| + |a * b| == |a| + |b| && |a * b| <= |a + b|
  {
    assert a + b == a + (b - a) && |a * b| + |b - a| == |b| by {
      assert b == a * b + (b - a);
    }
  }

  /** The ratio, times the number of cells in either box, is the number of cells in both. */
  lemma IouCountsCells(g: Grid, h: Grid)
    ensures Iou(g.ToBox(), h.ToBox()) * |g.Covered() + h.Covered()| as real == |g.Covered() * h.Covered()| as real
  {
    hide Overlap, Area, Iou, Ratio, Grid.ToBox, Grid.Covered;
    AreaCounts(g);
    AreaCounts(h);
    OverlapCounts(g, h);
    IouIsRatio(g.ToBox(), h.ToBox());
    Counted(g.Covered(), h.Covered());
    RatioCounts(|g.Covered() * h.Covered()|, |g.Covered()|, |h.Covered()|, |g.Covered() + h.Covered()|);
  }

  lemma Whole(n: real, d: real)
    requires d > 0.0
    ensures n / d * d == n
  {
  }

  // ---------- from integers to reals ----------

  function Shifted(k: real, v: real, d: real): real {
    k * v + d
  }

  /** The box scaled by k and moved. */
  function Moved(b: Box, k: real, dx: real, dy: real): Box {
    Box(Shifted(k, b.x1, dx), Shifted(k, b.y1, dy), Shifted(k, b.x2, dx), Shifted(k, b.y2, dy))
  }

  function Squared(k: real): real {
    k * k
  }

  lemma SquaredPositive(k: real)
    requires k > 0.0
    ensures Squared(k) > 0.0
  {
    calc {
      0.0;
    < { Positive(k, k); }
      k * k;
    ==
      Squared(k);
    }
  }

  lemma MaxMoved(k: real, a: real, b: real, d: real)
    requires k > 0.0
    ensures Max(Shifted(k, a, d), Shifted(k, b, d)) == Shifted(k, Max(a, b), d)
    ensures Min(Shifted(k, a, d), Shifted(k, b, d)) == Shifted(k, Min(a, b), d)
  {
    if a >= b {
      assert k * (a - b) >= 0.0;
    } else {
      assert k * (b - a) >= 0.0;
    }
  }

  lemma LengthMoved(k: real, lo: real, hi: real, d: real)
    requires k > 0.0
    ensures Max(Shifted(k, hi, d) - Shifted(k, lo, d), 0.0) == k * Max(hi - lo, 0.0)
  {
    assert Shifted(k, hi, d) - Shifted(k, lo, d) == k * (hi - lo);
    if hi >= lo {
      assert k * (hi - lo) >= 0.0;
    } else {
      assert k * (lo - hi) > 0.0;
    }
  }

  lemma SquaredArea(k: real, w: real, h: real)
    ensures (k * w) * (k * h) == Squared(k) * (w * h)
  {
  }

  lemma AreaMoved(b: Box, k: real, dx: real, dy: real)
    requires k > 0.0
    ensures Area(Moved(b, k, dx, dy)) == Squared(k) * Area(b)
  {
    LengthMoved(k, b.x1, b.x2, dx);
    LengthMoved(k, b.y1, b.y2, dy);
    SquaredArea(k, Max(b.x2 - b.x1, 0.0), Max(b.y2 - b.y1, 0.0));
    hide Max, Shifted;
  }

  lemma MeetMoved(a: Box, b: Box, k: real, dx: real, dy: real)
    requires k > 0.0
    ensures MeetBox(Moved(a, k, dx, dy), Moved(b, k, dx, dy)) == Moved(MeetBox(a, b), k, dx, dy)
  {
    hide Max, Min, Shifted;
    MaxMoved(k, a.x1, b.x1, dx);
    MaxMoved(k, a.x2, b.x2, dx);
    MaxMoved(k, a.y1, b.y1, dy);
    MaxMoved(k, a.y2, b.y2, dy);
  }

  lemma OverlapMoved(a: Box, b: Box, k: real, dx: real, dy: real)
    requires k > 0.0
    ensures Overlap(Moved(a, k, dx, dy), Moved(b, k, dx, dy)) == Squared(k) * Overlap(a, b)
  {
    hide Overlap, Area, Moved, MeetBox, Squared;
    OverlapIsMeet(a, b);
    OverlapIsMeet(Moved(a, k, dx, dy), Moved(b, k, dx, dy));
    MeetMoved(a, b, k, dx, dy);
    AreaMoved(MeetBox(a, b), k, dx, dy);
  }

  lemma Scaled(s: real, n: real, d: real)
    requires s > 0.0
    ensures s * d <= 0.0 <==> d <= 0.0
    ensures d > 0.0 ==> (s * n) / (s * d) == n / d
  {
    if d > 0.0 {
      assert s * d > 0.0;
      var q := n / d;
      assert q * d == n;
      assert q * (s * d) == s * (q * d);
    } else {
      assert s * (-d) >= 0.0;
    }
  }

  lemma RatioScaled(s: real, inter: real, a: real, b: real, inter': real, a': real, b': real)
    requires s > 0.0 && inter' == s * inter && a' == s * a && b' == s * b
    ensures Ratio(inter', a', b') == Ratio(inter, a, b)
  {
    var d := a + b - inter;
    assert s * a + s * b - s * inter == s * d;
    Scaled(s, inter, d);
  }

  /** Scaling and moving both boxes leaves the ratio alone, so it is fixed by the cell counts for all corners
      that are multiples of a common unit. */
  lemma IouMoved(a: Box, b: Box, k: real, dx: real, dy: real)
    requires k > 0.0
    ensures Iou(Moved(a, k, dx, dy), Moved(b, k, dx, dy)) == Iou(a, b)
  {
    hide Area, Overlap, Moved, Iou, Ratio, Squared;
    AreaMoved(a, k, dx, dy);
    AreaMoved(b, k, dx, dy);
    OverlapMoved(a, b, k, dx, dy);
    IouIsRatio(a, b);
    IouIsRatio(Moved(a, k, dx, dy), Moved(b, k, dx, dy));
    SquaredPositive(k);
    var u, v := Moved(a, k, dx, dy), Moved(b, k, dx, dy);
    RatioScaled(Squared(k), Overlap(a, b), Area(a), Area(b), Overlap(u, v), Area(u), Area(v));
  }

  lemma PositiveArea(a: Box)
    requires a.x1 < a.x2 && a.y1 < a.y2
    ensures Area(a) > 0.0 && Overlap(a, a) == Area(a)
  {
    var w, h := a.x2 - a.x1, a.y2 - a.y1;
    assert Area(a) == w * h && Overlap(a, a) == w * h;
    Positive(w, h);
  }

  lemma Positive(w: real, h: real)
    requires w > 0.0 && h > 0.0
    ensures w * h > 0.0
  {
  }

  lemma Apart(a: Box, b: Box)
    requires a.x2 <= b.x1 || b.x2 <= a.x1 || a.y2 <= b.y1 || b.y2 <= a.y1
    ensures Overlap(a, b) == 0.0
  {
    var w, h := Max(Min(a.x2, b.x2) - Max(a.x1, b.x1), 0.0), Max(Min(a.y2, b.y2) - Max(a.y1, b.y1), 0.0);
    assert w == 0.0 || h == 0.0;
  }

  /** A box of positive area overlaps itself fully. */
  lemma IouOfItself(a: Box)
    requires a.x1 < a.x2 && a.y1 < a.y2
    ensures Iou(a, a) == 1.0
  {
    PositiveArea(a);
    hide Area, Overlap;
    assert Area(a) / Area(a) == 1.0;
  }

  /** Boxes that lie beside or above one another do not overlap. */
  lemma IouOfDisjoint(a: Box, b: Box)
    requires a.x2 <= b.x1 || b.x2 <= a.x1 || a.y2 <= b.y1 || b.y2 <= a.y1
    ensures Iou(a, b) == 0.0
  {
    Apart(a, b);
    hide Area, Overlap;
    NothingOver(Area(a) + Area(b));
  }

  lemma NothingOver(d: real)
    ensures d > 0.0 ==> 0.0 / d == 0.0
  {
  }
}
