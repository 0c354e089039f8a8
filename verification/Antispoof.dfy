/** The anti-spoof score over a burst of frames, and the face crop it is computed from. */
module Antispoof {
  import opened Wrappers
  import opened Geometry
  import opened Sorting

  // ---------- median ----------

  function Itself(): real -> real {
    x => x
  }

  function Ascending(s: seq<real>): seq<real> {
    Sort(s, Itself())
  }

  /** The middle value of a sorted sequence, or the mean of its two middle values. */
  function Middle(s: seq<real>): real {
    var n := |s|;
    if n == 0 then 0.0
    else if n % 2 == 1 then s[n / 2]
    else (s[n / 2 - 1] + s[n / 2]) / 2.0
  }

  /** Sorts in place and returns the median. */
  method Median(v: array<real>) returns (m: real)
    modifies v
    ensures v[..] == Ascending(old(v[..]))
    ensures m == Middle(Ascending(old(v[..])))
  {
    var s := Ascending(v[..]);
    SortFacts(v[..], Itself());
    forall i | 0 <= i < v.Length {
      v[i] := s[i];
    }
    assert v[..] == s;
    var n := v.Length;
    if n == 0 {
      m := 0.0;
    } else if n % 2 == 1 {
      m := v[n / 2];
    } else {
      m := (v[n / 2 - 1] + v[n / 2]) / 2.0;
    }
  }

  /** The score of a burst: refused when there are no frames. */
  method PredictMedian(probs: seq<real>) returns (r: Result<real>)
    ensures r == if probs == [] then Err(Biometrics) else Ok(Middle(Ascending(probs)))
  {
    if probs == [] {
      return Err(Biometrics);
    }
    var v := new real[|probs|](i requires 0 <= i < |probs| => probs[i]);
    assert v[..] == probs;
    var m := Median(v);
    return Ok(m);
  }

  /** How many readings are below t. */
  function CountBelow(s: seq<real>, t: real): (n: nat)
    ensures n <= |s|
  {
    if s == [] then 0 else (if s[0] < t then 1 else 0) + CountBelow(s[1..], t)
  }

  lemma {:induction false} PlaceCounts(x: real, s: seq<real>, t: real)
    ensures CountBelow(Place(x, s, Itself()), t) == (if x < t then 1 else 0) + CountBelow(s, t)
  {
    var p := Place(x, s, Itself());
    if s == [] || x <= s[0] {
      assert p == [x] + s && p[1..] == s;
    } else {
      PlaceCounts(x, s[1..], t);
      assert p[1..] == Place(x, s[1..], Itself());
    }
  }

  lemma {:induction false} SortCounts(s: seq<real>, t: real)
    ensures CountBelow(Ascending(s), t) == CountBelow(s, t)
  {
    if s != [] {
      SortCounts(s[1..], t);
      PlaceCounts(s[0], Ascending(s[1..]), t);
    }
  }

  predicate NonDecreasing(s: seq<real>) {
    forall i, j :: 0 <= i < j < |s| ==> s[i] <= s[j]
  }

  /** In a sorted sequence, position i is at or above t exactly when at most i readings are below. */
  lemma {:induction false} PositionIsCount(s: seq<real>, t: real, i: nat)
    requires NonDecreasing(s) && i < |s|
    ensures s[i] >= t <==> CountBelow(s, t) <= i
  {
    if s[0] >= t {
      NoneBelow(s, t);
    } else if i > 0 {
      PositionIsCount(s[1..], t, i - 1);
    }
  }

  lemma {:induction false} NoneBelow(s: seq<real>, t: real)
    requires forall i :: 0 <= i < |s| ==> s[i] >= t
    ensures CountBelow(s, t) == 0
  {
    if s != [] {
      NoneBelow(s[1..], t);
    }
  }

  lemma AscendingSorted(s: seq<real>)
    ensures NonDecreasing(Ascending(s)) && |Ascending(s)| == |s|
  {
    SortFacts(s, Itself());
    var r := Ascending(s);
    forall i, j | 0 <= i < j < |r| ensures r[i] <= r[j] {
      assert Itself()(r[i]) <= Itself()(r[j]);
    }
  }

  /**
   The median is a majority vote against any threshold: if more than half of the readings are at or
   above it then so is the median, and if more than half are below it then so is the median. For an
   odd number of readings the vote decides exactly.
   */
  lemma MedianIsMajority(s: seq<real>, t: real)
    requires s != []
    ensures 2 * CountBelow(s, t) < |s| ==> Middle(Ascending(s)) >= t
    ensures 2 * CountBelow(s, t) > |s| ==> Middle(Ascending(s)) < t
    ensures |s| % 2 == 1 ==> (Middle(Ascending(s)) >= t <==> 2 * CountBelow(s, t) < |s|)
  {
    hide Sort;
    AscendingSorted(s);
    SortCounts(s, t);
    var r, n := Ascending(s), |s|;
    PositionIsCount(r, t, n / 2);
    if n % 2 == 0 {
      PositionIsCount(r, t, n / 2 - 1);
    }
  }

  /** v is the reading of rank i: at or above any threshold exactly when at most i readings are below it. */
  ghost predicate RankedAt(s: seq<real>, i: nat, v: real) {
    forall t :: v >= t <==> CountBelow(s, t) <= i
  }

  lemma RankIsUnique(s: seq<real>, i: nat, u: real, v: real)
    requires RankedAt(s, i, u) && RankedAt(s, i, v)
    ensures u == v
  {
    assert u >= u && v >= v;
    assert CountBelow(s, u) <= i && CountBelow(s, v) <= i;
    assert u >= v && v >= u;
  }

  /** The median is the mean of the two middle readings by rank, which are one and the same for an odd number. */
  lemma MedianIsMiddleRank(s: seq<real>) returns (lo: real, hi: real)
    requires s != []
    ensures RankedAt(s, (|s| - 1) / 2, lo) && RankedAt(s, |s| / 2, hi)
    ensures Middle(Ascending(s)) == (lo + hi) / 2.0
  {
    hide Sort;
    var r, n := Ascending(s), |s|;
    AscendingSorted(s);
    lo, hi := r[(n - 1) / 2], r[n / 2];
    forall t ensures (lo >= t <==> CountBelow(s, t) <= (n - 1) / 2) && (hi >= t <==> CountBelow(s, t) <= n / 2) {
      SortCounts(s, t);
      PositionIsCount(r, t, (n - 1) / 2);
      PositionIsCount(r, t, n / 2);
    }
  }

  // ---------- crop ----------

  function MaxInt(a: int, b: int): int {
    if a >= b then a else b
  }

  /** The enlargement used: the one asked for, or the largest whose two sides stay below the frame's. */
  function Enlargement(fw: nat, fh: nat, box: Box, scale: real): real {
    Min(scale, Min((fh as real - 1.0) / box.Height(), (fw as real - 1.0) / box.Width()))
  }

  function EnlargedWidth(fw: nat, fh: nat, box: Box, scale: real): real {
    box.Width() * Enlargement(fw, fh, box, scale)
  }

  function EnlargedHeight(fw: nat, fh: nat, box: Box, scale: real): real {
    box.Height() * Enlargement(fw, fh, box, scale)
  }

  /** Pixels lo (inclusive) to hi (exclusive) of one axis. */
  datatype Span = Span(lo: int, hi: int)

  /** Where an interval of this size must start to lie in [0, limit], as near as can be to `start`. */
  function Nearest(start: real, size: real, limit: real): real {
    Max(0.0, Min(start, limit - size))
  }

  /** The pixels of the nearest interval: the ones its ends fall in, and never none. */
  function SpanOf(centre: real, size: real, limit: nat): Span {
    var start := Nearest(centre - size / 2.0, size, limit as real);
    Span(start.Floor, MaxInt((start + size).Floor, start.Floor + 1))
  }

  /** The rectangle handed to the resizer. */
  method Crop(fw: nat, fh: nat, box: Box, scale: real) returns (xs: Span, ys: Span)
    requires fw >= 1 && fh >= 1 && scale > 0.0
    ensures xs == SpanOf(box.CentreX(), EnlargedWidth(fw, fh, box, scale), fw)
    ensures ys == SpanOf(box.CentreY(), EnlargedHeight(fw, fh, box, scale), fh)
  {
    hide Nearest, EnlargedWidth, EnlargedHeight;
    var fwr, fhr := fw as real, fh as real;
    var cx, cy := box.CentreX(), box.CentreY();
    EnlargedFits(fw, fh, box, scale);
    var newW, newH := EnlargedWidth(fw, fh, box, scale), EnlargedHeight(fw, fh, box, scale);
    var lx, ly := cx - newW / 2.0, cy - newH / 2.0;
    var rx, ry := cx + newW / 2.0, cy + newH / 2.0;
    ShiftIsNearest(lx, newW, fwr);
    ShiftIsNearest(ly, newH, fhr);
    if lx < 0.0 {
      rx := rx - lx;
      lx := 0.0;
    }
    if ly < 0.0 {
      ry := ry - ly;
      ly := 0.0;
    }
    if rx > fwr {
      lx := lx - (rx - fwr);
      rx := fwr;
    }
    if ry > fhr {
      ly := ly - (ry - fhr);
      ry := fhr;
    }
    var left, top := Max(lx, 0.0).Floor, Max(ly, 0.0).Floor;
    xs := Span(left, MaxInt(Min(rx, fwr).Floor, left + 1));
    ys := Span(top, MaxInt(Min(ry, fhr).Floor, top + 1));
  }

  /** What the two conditional shifts of one axis come to. */
  lemma ShiftIsNearest(lo: real, size: real, limit: real)
    requires 0.0 <= size <= limit
    ensures var at := Nearest(lo, size, limit);
            && at == (if lo < 0.0 then 0.0 else if lo + size > limit then lo - (lo + size - limit) else lo)
            && 0.0 <= at && at + size <= limit
  {
  }

  lemma Quotient(a: real, b: real, e: real)
    requires b > 0.0 && a >= 0.0 && e <= a / b
    ensures b * e <= a && a / b >= 0.0
    ensures a > 0.0 ==> a / b > 0.0
  {
    var q := a / b;
    assert q * b == a;
    assert b * e <= b * q;
  }

  /** The enlarged box is at least one pixel smaller than the frame both ways, and is a point exactly
   when the frame is a single row or column. */
  lemma EnlargedFits(fw: nat, fh: nat, box: Box, scale: real)
    requires fw >= 1 && fh >= 1 && scale > 0.0
    ensures 0.0 <= EnlargedWidth(fw, fh, box, scale) <= fw as real - 1.0
    ensures 0.0 <= EnlargedHeight(fw, fh, box, scale) <= fh as real - 1.0
    ensures EnlargedWidth(fw, fh, box, scale) > 0.0 <==> fw >= 2 && fh >= 2
    ensures EnlargedHeight(fw, fh, box, scale) > 0.0 <==> fw >= 2 && fh >= 2
  {
    var eff := Enlargement(fw, fh, box, scale);
    Quotient(fh as real - 1.0, box.Height(), eff);
    Quotient(fw as real - 1.0, box.Width(), eff);
    if fw == 1 {
      assert (fw as real - 1.0) / box.Width() == 0.0;
    }
    if fh == 1 {
      assert (fh as real - 1.0) / box.Height() == 0.0;
    }
  }

  /** A shifted interval keeps its size and lies in the frame; an interval that fits is not moved; and
   an interval no longer than the frame never spills over both ends, so at most one shift happens. */
  lemma NearestFacts(centre: real, size: real, limit: real)
    requires 0.0 <= size <= limit
    ensures var start := centre - size / 2.0;
            var at := Nearest(start, size, limit);
            && 0.0 <= at && at + size <= limit
            && (at == start <==> 0.0 <= start && start + size <= limit)
            && !(start < 0.0 && start + size > limit)
            && (forall other :: 0.0 <= other && other + size <= limit ==> Far(at, start) <= Far(other, start))
  {
  }

  function Far(a: real, b: real): real {
    if a >= b then a - b else b - a
  }

  predicate InFrame(s: Span, limit: nat) {
    0 <= s.lo < s.hi <= limit
  }

  /**
   One axis of the crop is never empty, starts at or after 0 and is within a pixel of the enlarged
   size. It stays in the frame exactly when the enlarged box is not a point or its centre is short of
   the far edge.
   */
  lemma SpanInFrame(centre: real, size: real, limit: nat)
    requires limit >= 1 && 0.0 <= size <= limit as real - 1.0
    ensures var s := SpanOf(centre, size, limit);
            && 0 <= s.lo < s.hi
            && -1.0 < (s.hi - s.lo) as real - size <= 1.0
            && (InFrame(s, limit) <==> size > 0.0 || centre < limit as real)
  {
    var start := Nearest(centre - size / 2.0, size, limit as real);
    assert 0.0 <= start && start + size <= limit as real;
    assert start < limit as real <==> start.Floor < limit;
  }

  /**
   The crop stays in the frame on an axis exactly when the frame is more than one pixel both ways, or
   the box's centre on that axis is short of the frame's far edge.
   */
  lemma CropInFrame(fw: nat, fh: nat, box: Box, scale: real)
    requires fw >= 1 && fh >= 1 && scale > 0.0
    ensures var xs := SpanOf(box.CentreX(), EnlargedWidth(fw, fh, box, scale), fw);
            var ys := SpanOf(box.CentreY(), EnlargedHeight(fw, fh, box, scale), fh);
            && 0 <= xs.lo < xs.hi && 0 <= ys.lo < ys.hi
            && (InFrame(xs, fw) <==> (fw >= 2 && fh >= 2) || box.CentreX() < fw as real)
            && (InFrame(ys, fh) <==> (fw >= 2 && fh >= 2) || box.CentreY() < fh as real)
  {
    hide SpanOf, EnlargedWidth, EnlargedHeight;
    EnlargedFits(fw, fh, box, scale);
    SpanInFrame(box.CentreX(), EnlargedWidth(fw, fh, box, scale), fw);
    SpanInFrame(box.CentreY(), EnlargedHeight(fw, fh, box, scale), fh);
  }

  /** A box against the far edge of a one-pixel-wide frame: its crop starts outside. */
  lemma CropLeavesFrame()
    ensures var box := Box(1.0, 0.0, 1.0, 1.0);
            box.Within(1, 9)
            && SpanOf(box.CentreX(), EnlargedWidth(1, 9, box, 2.7), 1) == Span(1, 2)
  {
    var box := Box(1.0, 0.0, 1.0, 1.0);
    EnlargedFits(1, 9, box, 2.7);
    assert 1.0.Floor == 1;
  }

  // ---------- which part of the frame ----------

  lemma AtMostQuotient(e: real, a: real, b: real)
    requires b > 0.0
    ensures e <= a / b <==> b * e <= a
  {
    var q := a / b;
    assert q * b == a;
    if e <= q {
      assert b * (q - e) >= 0.0;
    } else {
      assert b * (e - q) > 0.0;
    }
  }

  /** The enlargement is the largest factor, up to the one asked for, that leaves a pixel to spare each way. */
  lemma EnlargementExact(fw: nat, fh: nat, box: Box, scale: real, e: real)
    ensures e <= Enlargement(fw, fh, box, scale) <==>
            && e <= scale
            && Max(box.x2 - box.x1, 1.0) * e <= fw as real - 1.0
            && Max(box.y2 - box.y1, 1.0) * e <= fh as real - 1.0
  {
    var w, h := box.Width(), box.Height();
    var a, b := (fh as real - 1.0) / h, (fw as real - 1.0) / w;
    AtMostQuotient(e, fh as real - 1.0, h);
    AtMostQuotient(e, fw as real - 1.0, w);
    AtMostMin(e, a, b);
    AtMostMin(e, scale, Min(a, b));
    hide Max, Min;
  }

  lemma AtMostMin(e: real, a: real, b: real)
    ensures e <= Min(a, b) <==> e <= a && e <= b
  {
  }

  /** A box at least a pixel wide is enlarged about its middle, a thinner or inverted one about the middle of the
      pixel that starts at its first corner. */
  lemma CentreIs(box: Box)
    ensures box.CentreX() == if box.x2 - box.x1 >= 1.0 then (box.x1 + box.x2) / 2.0 else box.x1 + 0.5
    ensures box.CentreY() == if box.y2 - box.y1 >= 1.0 then (box.y1 + box.y2) / 2.0 else box.y1 + 0.5
  {
  }

  /**
   A proper box that fits when enlarged by the factor asked for, with a pixel to spare, is cropped to exactly that:
   the pixels from its middle less half the enlarged width to its middle plus half of it.
   */
  lemma CropIsEnlargedBox(fw: nat, fh: nat, box: Box, scale: real)
    requires fw >= 1 && fh >= 1 && scale > 0.0 && box.x2 - box.x1 >= 1.0 && box.y2 - box.y1 >= 1.0
    requires (box.x2 - box.x1) * scale <= fw as real - 1.0 && (box.y2 - box.y1) * scale <= fh as real - 1.0
    requires var half, mid := (box.x2 - box.x1) * scale / 2.0, (box.x1 + box.x2) / 2.0;
             0.0 <= mid - half && mid + half <= fw as real
    ensures var half, mid := (box.x2 - box.x1) * scale / 2.0, (box.x1 + box.x2) / 2.0;
            var xs := SpanOf(box.CentreX(), EnlargedWidth(fw, fh, box, scale), fw);
            xs.lo == (mid - half).Floor && xs.hi == MaxInt((mid + half).Floor, xs.lo + 1)
  {
    hide EnlargedWidth, Enlargement, SpanOf;
    ScaleFits(fw, fh, box, scale);
    CentreIs(box);
    hide *;
    SpanCentred((box.x1 + box.x2) / 2.0, (box.x2 - box.x1) * scale, fw);
  }

  lemma ScaleFits(fw: nat, fh: nat, box: Box, scale: real)
    requires box.x2 - box.x1 >= 1.0 && box.y2 - box.y1 >= 1.0
    requires (box.x2 - box.x1) * scale <= fw as real - 1.0 && (box.y2 - box.y1) * scale <= fh as real - 1.0
    ensures EnlargedWidth(fw, fh, box, scale) == (box.x2 - box.x1) * scale
    ensures EnlargedHeight(fw, fh, box, scale) == (box.y2 - box.y1) * scale
  {
    EnlargementExact(fw, fh, box, scale, scale);
    assert Enlargement(fw, fh, box, scale) <= scale;
    hide Enlargement;
    assert Enlargement(fw, fh, box, scale) == scale;
  }

  lemma SpanCentred(mid: real, size: real, limit: nat)
    requires 0.0 <= mid - size / 2.0 && mid + size / 2.0 <= limit as real
    ensures var s := SpanOf(mid, size, limit);
            s.lo == (mid - size / 2.0).Floor && s.hi == MaxInt((mid + size / 2.0).Floor, s.lo + 1)
  {
    assert Nearest(mid - size / 2.0, size, limit as real) == mid - size / 2.0;
    assert mid - size / 2.0 + size == mid + size / 2.0;
  }
}
