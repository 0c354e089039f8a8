/**
 When five landmarks determine a similarity, and when the program finds it: exact conditions on the
 landmarks alone.
 */
module Landmarks {
  import opened Wrappers
  import opened LinAlg
  import opened Solve
  import opened Align
  import P = Pivots
  import G = Geometry

  // ---------- the normal equations in closed form ----------

  function SumX(ps: seq<Point>, n: nat): real
    requires n <= |ps|
  {
    if n == 0 then 0.0 else SumX(ps, n - 1) + ps[n - 1].x
  }

  function SumY(ps: seq<Point>, n: nat): real
    requires n <= |ps|
  {
    if n == 0 then 0.0 else SumY(ps, n - 1) + ps[n - 1].y
  }

  /** Sum of inner products. */
  function SumDot(ps: seq<Point>, qs: seq<Point>, n: nat): real
    requires n <= |ps| && n <= |qs|
  {
    if n == 0 then 0.0
    else SumDot(ps, qs, n - 1) + (ps[n - 1].x * qs[n - 1].x + ps[n - 1].y * qs[n - 1].y)
  }

  /** Sum of cross products. */
  function SumCross(ps: seq<Point>, qs: seq<Point>, n: nat): real
    requires n <= |ps| && n <= |qs|
  {
    if n == 0 then 0.0
    else SumCross(ps, qs, n - 1) + (ps[n - 1].x * qs[n - 1].y - ps[n - 1].y * qs[n - 1].x)
  }

  function XEquation(p: Point, q: Point): Equation {
    Equation([p.x, -p.y, 1.0, 0.0], q.x)
  }

  function YEquation(p: Point, q: Point): Equation {
    Equation([p.y, p.x, 0.0, 1.0], q.y)
  }

  lemma Scaled4(a0: real, a1: real, a2: real, a3: real, k: real, b0: real, b1: real, b2: real, b3: real,
                c0: real, c1: real, c2: real, c3: real)
    requires c0 == a0 + k * b0 && c1 == a1 + k * b1 && c2 == a2 + k * b2 && c3 == a3 + k * b3
    ensures AddScaled([a0, a1, a2, a3], k, [b0, b1, b2, b3]) == [c0, c1, c2, c3]
  {
    var v := AddScaled([a0, a1, a2, a3], k, [b0, b1, b2, b3]);
    assert v[0] == c0;
    assert v[1] == c1;
    assert v[2] == c2;
    assert v[3] == c3;
  }

  /** Row r of the normal matrix of n landmarks with sums q, x and y. */
  function NormalRow(n: real, q: real, x: real, y: real, r: nat): (row: Vector)
    requires r < N
    ensures |row| == N
  {
    match r
    case 0 => [q, 0.0, x, y]
    case 1 => [0.0, q, -y, x]
    case 2 => [x, -y, n, 0.0]
    case _ => [y, x, 0.0, n]
  }

  /** What one landmark adds to a row of the matrix: its two equations, scaled by their entries r. */
  function Grown(row: Vector, p: Point, r: nat): Vector
    requires |row| == N && r < N
  {
    var ex, ey := [p.x, -p.y, 1.0, 0.0], [p.y, p.x, 0.0, 1.0];
    AddScaled(AddScaled(row, ex[r], ex), ey[r], ey)
  }

  lemma Grows0(q: real, x: real, y: real, u: real, v: real, q': real, x': real, y': real)
    requires q' == q + (u * u + v * v) && x' == x + u && y' == y + v
    ensures Grown([q, 0.0, x, y], Point(u, v), 0) == [q', 0.0, x', y']
  {
    hide AddScaled;
    var w := u * v;
    assert u * (-v) == -w && v * u == w;
    Scaled4(q, 0.0, x, y, u, u, -v, 1.0, 0.0, q + u * u, -w, x', y);
    Scaled4(q + u * u, -w, x', y, v, v, u, 0.0, 1.0, q', 0.0, x', y');
  }

  lemma Grows1(q: real, x: real, y: real, u: real, v: real, q': real, x': real, y': real)
    requires q' == q + (u * u + v * v) && x' == x + u && y' == y + v
    ensures Grown([0.0, q, -y, x], Point(u, v), 1) == [0.0, q', -y', x']
  {
    hide AddScaled;
    var w := u * v;
    assert (-v) * u == -w && (-v) * (-v) == v * v;
    Scaled4(0.0, q, -y, x, -v, u, -v, 1.0, 0.0, -w, q + v * v, -y', x);
    Scaled4(-w, q + v * v, -y', x, u, v, u, 0.0, 1.0, 0.0, q', -y', x');
  }

  lemma Grows2(n: real, x: real, y: real, u: real, v: real, n': real, x': real, y': real)
    requires n' == n + 1.0 && x' == x + u && y' == y + v
    ensures Grown([x, -y, n, 0.0], Point(u, v), 2) == [x', -y', n', 0.0]
    ensures Grown([y, x, 0.0, n], Point(u, v), 3) == [y', x', 0.0, n']
  {
    hide AddScaled;
    Scaled4(x, -y, n, 0.0, 1.0, u, -v, 1.0, 0.0, x', -y', n', 0.0);
    Scaled4(x', -y', n', 0.0, 0.0, v, u, 0.0, 1.0, x', -y', n', 0.0);
    Scaled4(y, x, 0.0, n, 0.0, u, -v, 1.0, 0.0, y, x, 0.0, n);
    Scaled4(y, x, 0.0, n, 1.0, v, u, 0.0, 1.0, y', x', 0.0, n');
  }

  lemma RowGrows(n: real, q: real, x: real, y: real, p: Point, r: nat, n': real, q': real, x': real, y': real)
    requires r < N && n' == n + 1.0 && q' == q + (p.x * p.x + p.y * p.y) && x' == x + p.x && y' == y + p.y
    ensures Grown(NormalRow(n, q, x, y, r), p, r) == NormalRow(n', q', x', y', r)
  {
    hide Grown;
    assert p == Point(p.x, p.y);
    if r == 0 {
      Grows0(q, x, y, p.x, p.y, q', x', y');
    } else if r == 1 {
      Grows1(q, x, y, p.x, p.y, q', x', y');
    } else {
      Grows2(n, x, y, p.x, p.y, n', x', y');
      assert r == 2 || r == 3;
    }
  }

  lemma GramGrows(eqs: seq<Equation>, p: Point, q: Point, r: nat)
    requires Wide(eqs) && r < N
    ensures Gram(eqs + [XEquation(p, q)] + [YEquation(p, q)], r) == Grown(Gram(eqs, r), p, r)
  {
    hide AddScaled, Gram;
    GramSnoc(eqs, XEquation(p, q), r);
    GramSnoc(eqs + [XEquation(p, q)], YEquation(p, q), r);
  }

  lemma EmptyRow(r: nat)
    requires r < N
    ensures Gram([], r) == NormalRow(0.0, 0.0, 0.0, 0.0, r)
  {
    assert r == 0 || r == 1 || r == 2 || r == 3;
  }

  lemma {:induction false} GramIs(src: seq<Point>, dst: seq<Point>, n: nat, r: nat)
    requires n <= |src| == |dst| && r < N
    ensures Gram(Equations(src, dst, n), r) ==
            NormalRow(n as real, SumDot(src, src, n), SumX(src, n), SumY(src, n), r)
  {
    hide Gram, NormalRow, Grown;
    if n == 0 {
      EmptyRow(r);
    } else {
      var eqs, p := Equations(src, dst, n - 1), src[n - 1];
      var k, q, x, y := (n - 1) as real, SumDot(src, src, n - 1), SumX(src, n - 1), SumY(src, n - 1);
      GramIs(src, dst, n - 1, r);
      GramGrows(eqs, p, dst[n - 1], r);
      RowGrows(k, q, x, y, p, r, n as real, SumDot(src, src, n), SumX(src, n), SumY(src, n));
      assert Equations(src, dst, n) == eqs + [XEquation(p, dst[n - 1])] + [YEquation(p, dst[n - 1])];
    }
  }

  function NormalMoment(dot: real, cross: real, x: real, y: real, r: nat): real
    requires r < N
  {
    match r
    case 0 => dot
    case 1 => cross
    case 2 => x
    case _ => y
  }

  lemma MomentTwice(eqs: seq<Equation>, e: Equation, f: Equation, r: nat)
    requires Wide(eqs) && |e.row| == |f.row| == N && r < N
    ensures Moment(eqs + [e] + [f], r) == Moment(eqs, r) + Times(e.row[r], e.target) + Times(f.row[r], f.target)
  {
    hide Moment, Times;
    MomentSnoc(eqs, e, r);
    MomentSnoc(eqs + [e], f, r);
  }

  lemma MomentEntry(r: nat, p: Point, q: Point, dot: real, cross: real, x: real, y: real,
                    dot': real, cross': real, x': real, y': real)
    requires r < N && dot' == dot + (p.x * q.x + p.y * q.y) && cross' == cross + (p.x * q.y - p.y * q.x)
    requires x' == x + q.x && y' == y + q.y
    ensures var more := Times(XEquation(p, q).row[r], q.x) + Times(YEquation(p, q).row[r], q.y);
            NormalMoment(dot, cross, x, y, r) + more == NormalMoment(dot', cross', x', y', r)
  {
    assert Times(-p.y, q.x) == -(p.y * q.x);
    assert r == 0 || r == 1 || r == 2 || r == 3;
  }

  lemma MomentGrows(eqs: seq<Equation>, p: Point, q: Point, r: nat, dot: real, cross: real, x: real, y: real,
                    dot': real, cross': real, x': real, y': real)
    requires Wide(eqs) && r < N && Moment(eqs, r) == NormalMoment(dot, cross, x, y, r)
    requires dot' == dot + (p.x * q.x + p.y * q.y) && cross' == cross + (p.x * q.y - p.y * q.x)
    requires x' == x + q.x && y' == y + q.y
    ensures Moment(eqs + [XEquation(p, q)] + [YEquation(p, q)], r) == NormalMoment(dot', cross', x', y', r)
  {
    hide Moment, Times, NormalMoment;
    MomentTwice(eqs, XEquation(p, q), YEquation(p, q), r);
    MomentEntry(r, p, q, dot, cross, x, y, dot', cross', x', y');
  }

  lemma EmptyMoment(r: nat)
    requires r < N
    ensures Moment([], r) == NormalMoment(0.0, 0.0, 0.0, 0.0, r)
  {
    assert r == 0 || r == 1 || r == 2 || r == 3;
  }

  lemma {:induction false} MomentIs(src: seq<Point>, dst: seq<Point>, n: nat, r: nat)
    requires n <= |src| == |dst| && r < N
    ensures Moment(Equations(src, dst, n), r) ==
            NormalMoment(SumDot(src, dst, n), SumCross(src, dst, n), SumX(dst, n), SumY(dst, n), r)
  {
    hide Moment, NormalMoment;
    if n == 0 {
      EmptyMoment(r);
    } else {
      var eqs, p, q := Equations(src, dst, n - 1), src[n - 1], dst[n - 1];
      MomentIs(src, dst, n - 1, r);
      MomentGrows(eqs, p, q, r, SumDot(src, dst, n - 1), SumCross(src, dst, n - 1), SumX(dst, n - 1), SumY(dst, n - 1),
                  SumDot(src, dst, n), SumCross(src, dst, n), SumX(dst, n), SumY(dst, n));
      assert Equations(src, dst, n) == eqs + [XEquation(p, q)] + [YEquation(p, q)];
    }
  }

  lemma NormalIs(src: seq<Point>, dst: seq<Point>)
    requires |src| == |dst| == 5
    ensures Normal(Equations(src, dst, 5)).rows == P.NormalRows(SumDot(src, src, 5), SumX(src, 5), SumY(src, 5))
    ensures Normal(Equations(src, dst, 5)).rhs ==
            [SumDot(src, dst, 5), SumCross(src, dst, 5), SumX(dst, 5), SumY(dst, 5)]
  {
    hide Gram, Moment, Equations, SumDot, SumCross, SumX, SumY;
    GramIs(src, dst, 5, 0);
    GramIs(src, dst, 5, 1);
    GramIs(src, dst, 5, 2);
    GramIs(src, dst, 5, 3);
    MomentIs(src, dst, 5, 0);
    MomentIs(src, dst, 5, 1);
    MomentIs(src, dst, 5, 2);
    MomentIs(src, dst, 5, 3);
  }

  // ---------- how far apart the landmarks are ----------

  predicate Coincident(src: seq<Point>)
    requires |src| == 5
  {
    forall i :: 0 <= i < 5 ==> src[i] == src[0]
  }

  /** Five times the sum of squared coordinates, less the square of each coordinate sum. */
  function SpreadOf(src: seq<Point>): real
    requires |src| == 5
  {
    P.Spread(SumDot(src, src, 5), SumX(src, 5), SumY(src, 5))
  }

  /** Squared distances from the first k landmarks to p. */
  function DistancesTo(ps: seq<Point>, k: nat, p: Point): real
    requires k <= |ps|
  {
    if k == 0 then 0.0 else DistancesTo(ps, k - 1, p) + SquaredDistance(p, ps[k - 1])
  }

  /** Squared distances of all pairs among the first n landmarks. */
  function PairDistances(ps: seq<Point>, n: nat): real
    requires n <= |ps|
  {
    if n == 0 then 0.0 else PairDistances(ps, n - 1) + DistancesTo(ps, n - 1, ps[n - 1])
  }

  /** DistancesTo from the sums over the k landmarks. */
  function ToForm(k: real, q: real, x: real, y: real, p: Point): real {
    q - 2.0 * (p.x * x + p.y * y) + k * (p.x * p.x + p.y * p.y)
  }

  lemma ToStep(k: real, q: real, x: real, y: real, p: Point, a: Point, k': real, q': real, x': real, y': real)
    requires k' == k + 1.0 && q' == q + (a.x * a.x + a.y * a.y) && x' == x + a.x && y' == y + a.y
    ensures ToForm(k', q', x', y', p) == ToForm(k, q, x, y, p) + SquaredDistance(p, a)
  {
    assert p.x * (x + a.x) == p.x * x + p.x * a.x && p.y * (y + a.y) == p.y * y + p.y * a.y;
    assert Square(p.x - a.x) == p.x * p.x - 2.0 * (p.x * a.x) + a.x * a.x;
    assert Square(p.y - a.y) == p.y * p.y - 2.0 * (p.y * a.y) + a.y * a.y;
    hide Square;
    assert (k + 1.0) * (p.x * p.x + p.y * p.y) == k * (p.x * p.x + p.y * p.y) + (p.x * p.x + p.y * p.y);
  }

  lemma NoDistances(p: Point)
    ensures ToForm(0.0, 0.0, 0.0, 0.0, p) == 0.0
  {
  }

  lemma {:induction false} DistancesToIs(ps: seq<Point>, k: nat, p: Point)
    requires k <= |ps|
    ensures DistancesTo(ps, k, p) == ToForm(k as real, SumDot(ps, ps, k), SumX(ps, k), SumY(ps, k), p)
  {
    hide SquaredDistance, ToForm;
    if k == 0 {
      NoDistances(p);
    } else {
      DistancesToIs(ps, k - 1, p);
      ToStep((k - 1) as real, SumDot(ps, ps, k - 1), SumX(ps, k - 1), SumY(ps, k - 1), p, ps[k - 1],
             k as real, SumDot(ps, ps, k), SumX(ps, k), SumY(ps, k));
    }
  }

  /** PairDistances from the sums over the n landmarks. */
  function PairForm(n: real, q: real, x: real, y: real): real {
    n * q - (x * x + y * y)
  }

  lemma NoPairs()
    ensures PairForm(0.0, 0.0, 0.0, 0.0) == 0.0
  {
  }

  lemma PairStep(k: real, q: real, x: real, y: real, p: Point, k': real, q': real, x': real, y': real)
    requires k' == k + 1.0 && q' == q + (p.x * p.x + p.y * p.y) && x' == x + p.x && y' == y + p.y
    ensures PairForm(k', q', x', y') == PairForm(k, q, x, y) + ToForm(k, q, x, y, p)
  {
    var z := p.x * p.x + p.y * p.y;
    assert (k + 1.0) * (q + z) == k * q + k * z + q + z;
    assert (x + p.x) * (x + p.x) == x * x + 2.0 * (p.x * x) + p.x * p.x;
    assert (y + p.y) * (y + p.y) == y * y + 2.0 * (p.y * y) + p.y * p.y;
  }

  lemma {:induction false} PairDistancesAre(ps: seq<Point>, n: nat)
    requires n <= |ps|
    ensures PairDistances(ps, n) == PairForm(n as real, SumDot(ps, ps, n), SumX(ps, n), SumY(ps, n))
  {
    hide ToForm, PairForm, DistancesTo;
    if n == 0 {
      NoPairs();
    } else {
      var p := ps[n - 1];
      PairDistancesAre(ps, n - 1);
      DistancesToIs(ps, n - 1, p);
      PairStep((n - 1) as real, SumDot(ps, ps, n - 1), SumX(ps, n - 1), SumY(ps, n - 1), p,
               n as real, SumDot(ps, ps, n), SumX(ps, n), SumY(ps, n));
    }
  }

  /** The spread is the sum of the squared distances of all pairs of landmarks. */
  lemma SpreadIsDistances(src: seq<Point>)
    requires |src| == 5
    ensures SpreadOf(src) == PairDistances(src, 5)
  {
    hide PairDistances, SumX, SumY, SumDot;
    PairDistancesAre(src, 5);
  }

  lemma DistancePositive(p: Point, q: Point)
    ensures SquaredDistance(p, q) >= 0.0
    ensures p != q ==> SquaredDistance(p, q) > 0.0
    ensures p == q ==> SquaredDistance(p, q) == 0.0
  {
    SquareNonNegative(p.x - q.x);
    SquareNonNegative(p.y - q.y);
    if p == q {
      assert Square(0.0) == 0.0;
    }
  }

  lemma {:induction false} DistanceCounts(ps: seq<Point>, k: nat, p: Point, i: nat)
    requires k <= |ps|
    ensures DistancesTo(ps, k, p) >= 0.0 && (i < k ==> DistancesTo(ps, k, p) >= SquaredDistance(p, ps[i]))
  {
    if k > 0 {
      hide SquaredDistance;
      DistanceCounts(ps, k - 1, p, i);
      DistancePositive(p, ps[k - 1]);
    }
  }

  /** Every pair counts, none negatively. */
  lemma {:induction false} PairCounts(ps: seq<Point>, n: nat, i: nat, j: nat)
    requires n <= |ps|
    ensures PairDistances(ps, n) >= 0.0 && (i < j < n ==> PairDistances(ps, n) >= SquaredDistance(ps[j], ps[i]))
  {
    if n > 0 {
      hide SquaredDistance, DistancesTo;
      PairCounts(ps, n - 1, i, j);
      DistanceCounts(ps, n - 1, ps[n - 1], i);
    }
  }

  lemma {:induction false} SamePointsNoDistance(ps: seq<Point>, n: nat, p: Point)
    requires n <= |ps| && forall i :: 0 <= i < n ==> ps[i] == p
    ensures DistancesTo(ps, n, p) == 0.0 && PairDistances(ps, n) == 0.0
  {
    if n > 0 {
      hide SquaredDistance;
      SamePointsNoDistance(ps, n - 1, p);
      DistancePositive(p, p);
    }
  }

  /** The spread is never negative, and zero exactly for coincident landmarks. */
  lemma SpreadPositive(src: seq<Point>)
    requires |src| == 5
    ensures SpreadOf(src) >= 0.0 && (SpreadOf(src) > 0.0 <==> !Coincident(src))
  {
    hide PairDistances, SpreadOf, SquaredDistance;
    SpreadIsDistances(src);
    PairCounts(src, 5, 0, 0);
    if Coincident(src) {
      SamePointsNoDistance(src, 5, src[0]);
    } else {
      var i :| 0 <= i < 5 && src[i] != src[0];
      PairCounts(src, 5, 0, i);
      DistancePositive(src[i], src[0]);
    }
  }

  lemma {:induction false} SumDotNonNegative(ps: seq<Point>, n: nat)
    requires n <= |ps|
    ensures SumDot(ps, ps, n) >= 0.0
  {
    if n > 0 {
      SumDotNonNegative(ps, n - 1);
    }
  }

  // ---------- when there is a best fit ----------

  /** The four normal equations in the unknowns a, b, c and d. */
  predicate Equalities(q: real, x: real, y: real, dot: real, cross: real, x': real, y': real, a: real, b: real,
                       c: real, d: real) {
    && q * a + x * c + y * d == dot
    && q * b - y * c + x * d == cross
    && x * a - y * b + 5.0 * c == x'
    && y * a + x * b + 5.0 * d == y'
  }

  lemma SolvesIs(sys: System, p: Vector, q: real, x: real, y: real, dot: real, cross: real, x': real, y': real)
    requires sys.Square(N) && |p| == N && sys.rows == P.NormalRows(q, x, y) && sys.rhs == [dot, cross, x', y']
    ensures sys.Solves(N, p) <==> Equalities(q, x, y, dot, cross, x', y', p[0], p[1], p[2], p[3])
  {
    hide Dot;
    var m := P.NormalRows(q, x, y);
    Dot4(m[0], p);
    Dot4(m[1], p);
    Dot4(m[2], p);
    Dot4(m[3], p);
    assert (-y) * p[2] == -(y * p[2]) && (-y) * p[1] == -(y * p[1]);
    assert sys.Solves(N, p) <==>
           Dot(m[0], p) == dot && Dot(m[1], p) == cross && Dot(m[2], p) == x' && Dot(m[3], p) == y';
  }

  /** With the last two unknowns expressed by the first two, the first two equations are these. */
  lemma Eliminated(q: real, x: real, y: real, dot: real, cross: real, x': real, y': real, a: real, b: real, c: real,
                   d: real)
    requires 5.0 * c == x' - x * a + y * b && 5.0 * d == y' - y * a - x * b
    ensures q * a + x * c + y * d == dot <==> P.Spread(q, x, y) * a == 5.0 * dot - (x * x' + y * y')
    ensures q * b - y * c + x * d == cross <==> P.Spread(q, x, y) * b == 5.0 * cross + (y * x' - x * y')
  {
    calc {
      5.0 * (q * a + x * c + y * d);
      5.0 * (q * a) + x * (5.0 * c) + y * (5.0 * d);
      5.0 * (q * a) + x * (x' - x * a + y * b) + y * (y' - y * a - x * b);
      P.Spread(q, x, y) * a + (x * x' + y * y');
    }
    calc {
      5.0 * (q * b - y * c + x * d);
      5.0 * (q * b) - y * (5.0 * c) + x * (5.0 * d);
      5.0 * (q * b) - y * (x' - x * a + y * b) + x * (y' - y * a - x * b);
      P.Spread(q, x, y) * b - (y * x' - x * y');
    }
  }

  /** A solution, given the first two unknowns. */
  lemma IsSolution(q: real, x: real, y: real, dot: real, cross: real, x': real, y': real, a: real, b: real, c: real,
                   d: real)
    requires P.Spread(q, x, y) * a == 5.0 * dot - (x * x' + y * y')
    requires P.Spread(q, x, y) * b == 5.0 * cross + (y * x' - x * y')
    requires 5.0 * c == x' - x * a + y * b && 5.0 * d == y' - y * a - x * b
    ensures Equalities(q, x, y, dot, cross, x', y', a, b, c, d)
  {
    hide P.Spread;
    Eliminated(q, x, y, dot, cross, x', y', a, b, c, d);
  }

  /** And any other solution agrees with it. */
  lemma SameSolution(q: real, x: real, y: real, dot: real, cross: real, x': real, y': real, a: real, b: real, c: real,
                     d: real, e: real, f: real, g: real, h: real)
    requires P.Spread(q, x, y) > 0.0
    requires Equalities(q, x, y, dot, cross, x', y', a, b, c, d) && Equalities(q, x, y, dot, cross, x', y', e, f, g, h)
    ensures (e, f, g, h) == (a, b, c, d)
  {
    var spread := P.Spread(q, x, y);
    hide P.Spread;
    Eliminated(q, x, y, dot, cross, x', y', a, b, c, d);
    Eliminated(q, x, y, dot, cross, x', y', e, f, g, h);
    Cancel(spread, e, a);
    Cancel(spread, f, b);
    assert 5.0 * c == x' - x * a + y * b && 5.0 * g == x' - x * e + y * f;
    assert 5.0 * d == y' - y * a - x * b && 5.0 * h == y' - y * e - x * f;
    hide Equalities;
    assert x * e == x * a && y * f == y * b && y * e == y * a && x * f == x * b;
    assert g == c && h == d;
  }

  /** With a positive spread the four equations have exactly one solution. */
  lemma OneSolution(q: real, x: real, y: real, dot: real, cross: real, x': real, y': real)
    returns (a: real, b: real, c: real, d: real)
    requires P.Spread(q, x, y) > 0.0
    ensures Equalities(q, x, y, dot, cross, x', y', a, b, c, d)
    ensures forall e, f, g, h :: Equalities(q, x, y, dot, cross, x', y', e, f, g, h) ==> (e, f, g, h) == (a, b, c, d)
  {
    var spread := P.Spread(q, x, y);
    a := P.Divide(5.0 * dot - (x * x' + y * y'), spread);
    b := P.Divide(5.0 * cross + (y * x' - x * y'), spread);
    c := (x' - x * a + y * b) / 5.0;
    d := (y' - y * a - x * b) / 5.0;
    hide P.Spread, Equalities;
    assert spread * a == a * spread && spread * b == b * spread;
    IsSolution(q, x, y, dot, cross, x', y', a, b, c, d);
    forall e, f, g, h | Equalities(q, x, y, dot, cross, x', y', e, f, g, h) ensures (e, f, g, h) == (a, b, c, d) {
      SameSolution(q, x, y, dot, cross, x', y', a, b, c, d, e, f, g, h);
    }
  }

  lemma NormalHasOneSolution(src: seq<Point>, dst: seq<Point>) returns (p: Vector)
    requires |src| == |dst| == 5 && !Coincident(src)
    ensures |p| == N && Normal(Equations(src, dst, 5)).Solves(N, p)
    ensures forall y: Vector :: |y| == N && Normal(Equations(src, dst, 5)).Solves(N, y) ==> y == p
  {
    hide Normal, Equations, SumDot, SumCross, SumX, SumY, Equalities, P.Spread, P.NormalRows, Coincident;
    SpreadPositive(src);
    NormalIs(src, dst);
    var sys := Normal(Equations(src, dst, 5));
    var q, x, y := SumDot(src, src, 5), SumX(src, 5), SumY(src, 5);
    var dot, cross, x', y' := SumDot(src, dst, 5), SumCross(src, dst, 5), SumX(dst, 5), SumY(dst, 5);
    var a, b, c, d := OneSolution(q, x, y, dot, cross, x', y');
    p := [a, b, c, d];
    SolvesIs(sys, p, q, x, y, dot, cross, x', y');
    forall v: Vector | |v| == N && sys.Solves(N, v) ensures v == p {
      SolvesIs(sys, v, q, x, y, dot, cross, x', y');
      assert (v[0], v[1], v[2], v[3]) == (a, b, c, d);
      assert v == [v[0], v[1], v[2], v[3]];
    }
  }

  /** A best fit exists if and only if the five landmarks do not all coincide. */
  lemma BestFitExactly(src: seq<Point>, dst: seq<Point>)
    requires |src| == |dst| == 5
    ensures (exists t :: BestFit(src, dst, t)) <==> !Coincident(src)
  {
    hide Normal, Equations, BestFit, SquaredError;
    if Coincident(src) {
      forall t ensures !BestFit(src, dst, t) {
        CoincidentHaveNoBestFit(src, dst, t);
      }
    } else {
      var p := NormalHasOneSolution(src, dst);
      SolutionIsBestFit(src, dst, p);
    }
  }

  // ---------- when the program finds it ----------

  /** Every pivot the program meets on these landmarks reaches the minimum. */
  predicate WellSpread(src: seq<Point>)
    requires |src| == 5
  {
    P.Usable(SumDot(src, src, 5), SumX(src, 5), SumY(src, 5))
  }

  /** Elimination of the landmarks' normal equations succeeds exactly when they are well spread,
      whatever they are to be mapped to. */
  lemma SolvedExactly(src: seq<Point>, dst: seq<Point>)
    requires |src| == |dst| == 5
    ensures Reduce(Normal(Equations(src, dst, 5)), 0).Some? <==> WellSpread(src)
  {
    hide Normal, Equations, SumDot, SumX, SumY, Reduce, P.Spread, P.NormalRows, P.Usable, Coincident;
    NormalIs(src, dst);
    SpreadPositive(src);
    SumDotNonNegative(src, 5);
    P.ReducesExactly(Normal(Equations(src, dst, 5)), SumDot(src, src, 5), SumX(src, 5), SumY(src, 5));
  }

  /**
   Fit by least squares. The program finds the one similarity with the least squared landmark error
   exactly when the landmarks are well spread, and otherwise falls back to the identity.
   */
  method EstimateSimilarity(src: seq<Point>, dst: seq<Point>) returns (t: Similarity)
    requires |src| == |dst| == 5
    ensures if WellSpread(src) then BestFit(src, dst, t) else t == IDENTITY
  {
    hide Dot, Gram, Moment, SquaredError, Equations, Normal, BestFit, Reduce, WellSpread;
    SolvedExactly(src, dst);
    var ata, atb := BuildNormal(src, dst);
    var p := Solve4(ata, atb);
    if p.None? {
      return IDENTITY;
    }
    SolutionIsBestFit(src, dst, p.value);
    return FromParams(p.value);
  }

  lemma UsableHasSpread(q: real, x: real, y: real)
    requires P.Usable(q, x, y)
    ensures P.Spread(q, x, y) > 0.0
  {
    var spread, sum := P.Spread(q, x, y), x * x + y * y;
    hide P.Spread;
    if !(q >= Abs(x) && q >= Abs(y)) {
      var m := G.Max(Abs(x), Abs(y));
      assert m > 0.0 && (x != 0.0 || y != 0.0);
      assert sum > 0.0;
      assert m * spread > 0.0;
    } else {
      assert PIVOT_MIN * q > 0.0;
    }
  }

  /** Well spread landmarks do not coincide. */
  lemma WellSpreadIsApart(src: seq<Point>)
    requires |src| == 5 && WellSpread(src)
    ensures !Coincident(src)
  {
    hide P.Usable, P.Spread, SumDot, SumX, SumY, Coincident;
    UsableHasSpread(SumDot(src, src, 5), SumX(src, 5), SumY(src, 5));
    SpreadPositive(src);
  }

  lemma {:induction false} ZeroSums(src: seq<Point>, n: nat)
    requires n <= |src| && forall i :: 0 <= i < n ==> src[i] == Point(0.0, 0.0)
    ensures SumX(src, n) == 0.0 && SumY(src, n) == 0.0 && SumDot(src, src, n) == 0.0
  {
    if n > 0 {
      ZeroSums(src, n - 1);
    }
  }

  /** The converse fails for faces far smaller than a pixel: these landmarks have a best fit, which the
      program gives up on. */
  lemma TinyFaceIsNotFitted()
    ensures var o := Point(0.0, 0.0);
            var src := [o, o, o, o, Point(0.0000000000001, 0.0)];
            !Coincident(src) && !WellSpread(src)
  {
    var o := Point(0.0, 0.0);
    var src := [o, o, o, o, Point(0.0000000000001, 0.0)];
    assert src[4] != src[0];
    ZeroSums(src, 4);
    assert SumX(src, 5) == 0.0000000000001 && SumY(src, 5) == 0.0;
  }

  predicate WithinPixels(src: seq<Point>, bound: real) {
    forall p <- src :: Abs(p.x) <= bound && Abs(p.y) <= bound
  }

  lemma SquareBound(a: real, bound: real)
    requires Abs(a) <= bound
    ensures a * a <= bound * bound
  {
    P.AbsTimes(a, a);
    P.AtMost(Abs(a), Abs(a), bound);
    P.AtMost(bound, Abs(a), bound);
  }

  lemma {:induction false} SumBounds(src: seq<Point>, n: nat)
    requires n <= |src| && WithinPixels(src, 100000.0)
    ensures Abs(SumX(src, n)) <= 100000.0 * n as real && Abs(SumY(src, n)) <= 100000.0 * n as real
  {
    if n > 0 {
      SumBounds(src, n - 1);
      var p := src[n - 1];
      assert p in src;
    }
  }

  lemma PixelSquares(p: Point)
    requires Abs(p.x) <= 100000.0 && Abs(p.y) <= 100000.0
    ensures p.x * p.x + p.y * p.y <= 20000000000.0
  {
    hide Abs;
    SquareBound(p.x, 100000.0);
    SquareBound(p.y, 100000.0);
  }

  lemma {:induction false} SquaresBound(src: seq<Point>, n: nat)
    requires n <= |src| && WithinPixels(src, 100000.0)
    ensures SumDot(src, src, n) <= 20000000000.0 * n as real
  {
    if n > 0 {
      SquaresBound(src, n - 1);
      var p := src[n - 1];
      assert p in src;
      PixelSquares(p);
      var z := p.x * p.x + p.y * p.y;
      assert SumDot(src, src, n) == SumDot(src, src, n - 1) + z;
      hide SumDot;
      assert 20000000000.0 * n as real == 20000000000.0 * (n - 1) as real + 20000000000.0;
    }
  }

  lemma UsableBy(q: real, x: real, y: real, m: real, spread: real, sum: real)
    requires !(q >= Abs(x) && q >= Abs(y)) && m == G.Max(Abs(x), Abs(y))
    requires spread == P.Spread(q, x, y) && sum == x * x + y * y
    requires m >= PIVOT_MIN && m * spread >= PIVOT_MIN * sum
    ensures P.Usable(q, x, y)
  {
    hide P.Spread, G.Max, Abs;
  }

  lemma BoundedSum(m: real, spread: real, sum: real)
    requires 0.0 <= m <= 500000.0 && spread >= 1.0 && sum <= 2.0 * (m * m)
    ensures m * spread >= PIVOT_MIN * sum
  {
    P.AtMost(m, 1.0, spread);
    calc {
      PIVOT_MIN * sum;
    <= { P.AtMost(PIVOT_MIN, sum, 2.0 * (m * m)); }
      PIVOT_MIN * (2.0 * (m * m));
    <= { P.AtMost(m, m, 500000.0); }
      PIVOT_MIN * (2.0 * (m * 500000.0));
    <=
      m;
    <=
      m * spread;
    }
  }

  lemma UsableInPixels(q: real, x: real, y: real)
    requires P.Spread(q, x, y) >= 1.0 && q <= 100000000000.0 && Abs(x) <= 500000.0 && Abs(y) <= 500000.0
    ensures P.Usable(q, x, y)
  {
    var spread, sum := P.Spread(q, x, y), x * x + y * y;
    assert x * x >= 0.0 && y * y >= 0.0;
    assert q >= 0.2;
    hide P.Spread;
    if !(q >= Abs(x) && q >= Abs(y)) {
      var m := G.Max(Abs(x), Abs(y));
      SquareBound(x, m);
      SquareBound(y, m);
      BoundedSum(m, spread, sum);
      UsableBy(q, x, y, m, spread, sum);
    } else {
      assert PIVOT_MIN * q <= 0.1;
    }
  }

  /**
   Landmarks of any real picture are well spread: coordinates up to a hundred thousand pixels and some
   two landmarks a pixel apart are enough.
   */
  lemma PixelLandmarksAreFitted(src: seq<Point>, i: nat, j: nat)
    requires |src| == 5 && WithinPixels(src, 100000.0)
    requires i < j < 5 && SquaredDistance(src[j], src[i]) >= 1.0
    ensures WellSpread(src)
  {
    hide P.Usable, P.Spread, SumDot, SumX, SumY, PairDistances, SquaredDistance;
    SumBounds(src, 5);
    SquaresBound(src, 5);
    PairCounts(src, 5, i, j);
    SpreadIsDistances(src);
    UsableInPixels(SumDot(src, src, 5), SumX(src, 5), SumY(src, 5));
  }
}
