/** Non-maximum suppression of face detections. */
module Detect {
  import opened Geometry
  import opened Sorting

  datatype Face = Face(score: real, bbox: Box, landmarks: seq<(real, real)>)

  function Overlap(a: Box, b: Box): real {
    Max(Min(a.x2, b.x2) - Max(a.x1, b.x1), 0.0) * Max(Min(a.y2, b.y2) - Max(a.y1, b.y1), 0.0)
  }

  function Area(a: Box): real {
    Max(a.x2 - a.x1, 0.0) * Max(a.y2 - a.y1, 0.0)
  }

  function Iou(a: Box, b: Box): real {
    var inter := Overlap(a, b);
    var union := Area(a) + Area(b) - inter;
    if union <= 0.0 then 0.0 else inter / union
  }

  lemma ProductBound(w: real, h: real, w': real, h': real)
    requires 0.0 <= w <= w' && 0.0 <= h <= h'
    ensures 0.0 <= w * h <= w' * h'
  {
    assert w * h <= w' * h;
    assert w' * h <= w' * h';
  }

  lemma OverlapBound(a: Box, b: Box)
    ensures 0.0 <= Overlap(a, b) <= Area(a)
  {
    ProductBound(Max(Min(a.x2, b.x2) - Max(a.x1, b.x1), 0.0), Max(Min(a.y2, b.y2) - Max(a.y1, b.y1), 0.0),
                 Max(a.x2 - a.x1, 0.0), Max(a.y2 - a.y1, 0.0));
  }

  lemma OverlapSymmetric(a: Box, b: Box)
    ensures Overlap(a, b) == Overlap(b, a)
  {
  }

  lemma Fraction(n: real, d: real)
    requires 0.0 <= n <= d && d > 0.0
    ensures 0.0 <= n / d <= 1.0
  {
  }

  /** Intersection over union is symmetric and within [0, 1], for inverted boxes too. */
  lemma IouFacts(a: Box, b: Box)
    ensures Iou(a, b) == Iou(b, a)
    ensures 0.0 <= Iou(a, b) <= 1.0
  {
    hide Overlap, Area;
    OverlapSymmetric(a, b);
    OverlapBound(a, b);
    OverlapBound(b, a);
    var union := Area(a) + Area(b) - Overlap(a, b);
    if union > 0.0 {
      Fraction(Overlap(a, b), union);
    }
  }

  // ---------- which detections survive ----------

  function ByScore(): Face -> real {
    (f: Face) => -f.score
  }

  /** Detection i survives unless an earlier survivor overlaps it too much. */
  predicate Survives(s: seq<Face>, thresh: real, i: nat)
    requires i < |s|
    decreases i
  {
    forall j :: 0 <= j < i && Survives(s, thresh, j) ==> Iou(s[i].bbox, s[j].bbox) < thresh
  }

  /** The survivors among the first n, in order. */
  function Survivors(s: seq<Face>, thresh: real, n: nat): seq<Face>
    requires n <= |s|
  {
    if n == 0 then []
    else Survivors(s, thresh, n - 1) + if Survives(s, thresh, n - 1) then [s[n - 1]] else []
  }

  function Suppress(faces: seq<Face>, thresh: real): seq<Face> {
    var s := Sort(faces, ByScore());
    Survivors(s, thresh, |s|)
  }

  lemma {:induction false} SurvivorsMembers(s: seq<Face>, thresh: real, n: nat)
    requires n <= |s|
    ensures forall f <- Survivors(s, thresh, n) :: exists i :: 0 <= i < n && Survives(s, thresh, i) && s[i] == f
    ensures forall i :: 0 <= i < n && Survives(s, thresh, i) ==> s[i] in Survivors(s, thresh, n)
  {
    hide Iou;
    if n > 0 {
      SurvivorsMembers(s, thresh, n - 1);
    }
  }

  /** A detection survives exactly when it overlaps none of those kept so far. */
  lemma SurvivesIffClear(s: seq<Face>, thresh: real, n: nat)
    requires n < |s|
    ensures Survives(s, thresh, n) <==> forall k <- Survivors(s, thresh, n) :: Iou(s[n].bbox, k.bbox) < thresh
  {
    hide Iou, Survivors;
    SurvivorsMembers(s, thresh, n);
  }

  method Clear(f: Face, kept: seq<Face>, thresh: real) returns (ok: bool)
    ensures ok <==> forall k <- kept :: Iou(f.bbox, k.bbox) < thresh
  {
    hide Iou;
    for i := 0 to |kept|
      invariant forall j :: 0 <= j < i ==> Iou(f.bbox, kept[j].bbox) < thresh
    {
      if Iou(f.bbox, kept[i].bbox) >= thresh {
        return false;
      }
    }
    return true;
  }

  /** Sort by descending score, then keep what overlaps nothing kept before it. */
  method Nms(faces: seq<Face>, thresh: real) returns (kept: seq<Face>)
    ensures kept == Suppress(faces, thresh)
  {
    hide Survives, Sort, ByScore;
    var s := Sort(faces, ByScore());
    kept := [];
    for i := 0 to |s|
      invariant kept == Survivors(s, thresh, i)
    {
      var ok := Clear(s[i], kept, thresh);
      SurvivesIffClear(s, thresh, i);
      if ok {
        kept := kept + [s[i]];
      }
    }
  }

  // ---------- what the result is ----------

  ghost predicate Ordered(s: seq<Face>) {
    forall i, j :: 0 <= i < j < |s| ==> s[i].score >= s[j].score
  }

  ghost predicate Separate(s: seq<Face>, thresh: real) {
    forall i, j :: 0 <= i < j < |s| ==> Iou(s[j].bbox, s[i].bbox) < thresh
  }

  lemma {:induction false} SurvivorsSeparate(s: seq<Face>, thresh: real, n: nat)
    requires n <= |s|
    ensures Separate(Survivors(s, thresh, n), thresh)
  {
    hide Iou, Survives;
    if n > 0 {
      SurvivorsSeparate(s, thresh, n - 1);
      SurvivesIffClear(s, thresh, n - 1);
    }
  }

  lemma {:induction false} SurvivorsOrdered(s: seq<Face>, thresh: real, n: nat)
    requires n <= |s| && Ordered(s)
    ensures Ordered(Survivors(s, thresh, n))
  {
    hide Iou, Survives;
    if n > 0 {
      SurvivorsOrdered(s, thresh, n - 1);
      SurvivorsMembers(s, thresh, n - 1);
      forall f | f in Survivors(s, thresh, n - 1) ensures f.score >= s[n - 1].score {
        var i :| 0 <= i < n - 1 && Survives(s, thresh, i) && s[i] == f;
      }
    }
  }

  /** How many copies of f there are. */
  function Count(s: seq<Face>, f: Face): nat {
    multiset(s)[f]
  }

  lemma CountSnoc(s: seq<Face>, last: Face, f: Face)
    ensures Count(s + [last], f) == Count(s, f) + if last == f then 1 else 0
  {
  }

  lemma CountTake(s: seq<Face>, n: nat, f: Face)
    requires 0 < n <= |s|
    ensures Count(s[..n], f) == Count(s[..n - 1], f) + if s[n - 1] == f then 1 else 0
  {
    hide Count;
    assert s[..n] == s[..n - 1] + [s[n - 1]];
    CountSnoc(s[..n - 1], s[n - 1], f);
  }

  lemma SurvivorsLast(s: seq<Face>, thresh: real, n: nat)
    requires 0 < n <= |s|
    ensures var kept := Survivors(s, thresh, n - 1);
            Survivors(s, thresh, n) == if Survives(s, thresh, n - 1) then kept + [s[n - 1]] else kept
  {
    hide Iou, Survives;
    var kept := Survivors(s, thresh, n - 1);
    assert kept + [] == kept;
  }

  /** No box is kept more often than it was there. */
  lemma {:induction false} SurvivorsCount(s: seq<Face>, thresh: real, n: nat, f: Face)
    requires n <= |s|
    ensures Count(Survivors(s, thresh, n), f) <= Count(s[..n], f)
  {
    hide Iou, Survives, Count;
    if n > 0 {
      SurvivorsCount(s, thresh, n - 1, f);
      var last, kept := s[n - 1], Survivors(s, thresh, n - 1);
      hide Survivors;
      SurvivorsLast(s, thresh, n);
      CountTake(s, n, f);
      if Survives(s, thresh, n - 1) {
        CountSnoc(kept, last, f);
      }
    }
  }

  lemma SortOrders(faces: seq<Face>)
    ensures Ordered(Sort(faces, ByScore())) && multiset(Sort(faces, ByScore())) == multiset(faces)
  {
    SortFacts(faces, ByScore());
    var s := Sort(faces, ByScore());
    forall i, j | 0 <= i < j < |s| ensures s[i].score >= s[j].score {
      assert ByScore()(s[i]) <= ByScore()(s[j]);
    }
  }

  /** Where every copy of f survives, all of them are kept. */
  lemma {:induction false} AllCopiesKept(s: seq<Face>, thresh: real, n: nat, f: Face)
    requires n <= |s| && forall i :: 0 <= i < n && s[i] == f ==> Survives(s, thresh, i)
    ensures Count(Survivors(s, thresh, n), f) == Count(s[..n], f)
  {
    hide Iou, Survives, Count;
    if n > 0 {
      AllCopiesKept(s, thresh, n - 1, f);
      var last, kept := s[n - 1], Survivors(s, thresh, n - 1);
      hide Survivors;
      SurvivorsLast(s, thresh, n);
      CountTake(s, n, f);
      if Survives(s, thresh, n - 1) {
        CountSnoc(kept, last, f);
      }
    }
  }

  /** A box at some position was dropped for an earlier survivor that overlaps it. */
  lemma DroppedHasReason(s: seq<Face>, thresh: real, i: nat)
    requires i < |s| && Ordered(s) && !Survives(s, thresh, i)
    ensures exists k :: k in Survivors(s, thresh, |s|) && k.score >= s[i].score && Iou(s[i].bbox, k.bbox) >= thresh
  {
    SurvivorsMembers(s, thresh, |s|);
    hide Iou, Survivors;
    var j :| 0 <= j < i && Survives(s, thresh, j) && Iou(s[i].bbox, s[j].bbox) >= thresh;
    assert s[j] in Survivors(s, thresh, |s|) && s[j].score >= s[i].score;
  }

  /**
   The kept boxes are a score-sorted sub-collection of the input with pairwise overlap below the
   threshold, and a box of which any copy was dropped overlaps, at or above the threshold, a kept box
   whose score is at least its own.
   */
  lemma NmsSpecification(faces: seq<Face>, thresh: real)
    ensures var kept := Suppress(faces, thresh);
            && Ordered(kept) && Separate(kept, thresh)
            && multiset(kept) <= multiset(faces)
            && forall f :: multiset(kept)[f] < multiset(faces)[f] ==>
                 exists k :: k in kept && k.score >= f.score && Iou(f.bbox, k.bbox) >= thresh
  {
    hide Iou, Survives, Survivors, Sort;
    SortOrders(faces);
    var s := Sort(faces, ByScore());
    var kept := Suppress(faces, thresh);
    SurvivorsOrdered(s, thresh, |s|);
    SurvivorsSeparate(s, thresh, |s|);
    assert s[..|s|] == s;
    forall f ensures multiset(kept)[f] <= multiset(faces)[f] {
      SurvivorsCount(s, thresh, |s|, f);
    }
    forall f | multiset(kept)[f] < multiset(faces)[f]
      ensures exists k :: k in kept && k.score >= f.score && Iou(f.bbox, k.bbox) >= thresh
    {
      if forall i :: 0 <= i < |s| && s[i] == f ==> Survives(s, thresh, i) {
        AllCopiesKept(s, thresh, |s|, f);
        assert false;
      }
      var i :| 0 <= i < |s| && s[i] == f && !Survives(s, thresh, i);
      DroppedHasReason(s, thresh, i);
    }
  }

  lemma {:induction false} AllSurvive(s: seq<Face>, thresh: real, n: nat)
    requires n <= |s| && Separate(s, thresh)
    ensures Survivors(s, thresh, n) == s[..n]
  {
    hide Iou;
    if n > 0 {
      AllSurvive(s, thresh, n - 1);
      assert s[..n] == s[..n - 1] + [s[n - 1]];
    }
  }

  /** A second pass changes nothing. */
  lemma NmsIdempotent(faces: seq<Face>, thresh: real)
    ensures Suppress(Suppress(faces, thresh), thresh) == Suppress(faces, thresh)
  {
    hide Iou, Survives, Survivors, Sort;
    NmsSpecification(faces, thresh);
    var kept := Suppress(faces, thresh);
    assert SortedBy(kept, ByScore());
    SortSorted(kept, ByScore());
    AllSurvive(kept, thresh, |kept|);
    assert kept[..|kept|] == kept;
  }
}
