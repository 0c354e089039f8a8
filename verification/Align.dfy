/** The similarity transform that maps detected landmarks to the template, fitted by least squares. */
module Align {
  import opened Wrappers
  import opened LinAlg
  import opened Solve

  datatype Point = Point(x: real, y: real)

  datatype Similarity = Similarity(a: real, b: real, tx: real, ty: real) {
    function Apply(p: Point): Point {
      Point(a * p.x - b * p.y + tx, b * p.x + a * p.y + ty)
    }

    function Invert(): Similarity
      requires a * a + b * b != 0.0
    {
      var det := a * a + b * b;
      var ia := a / det;
      var ib := -b / det;
      Similarity(ia, ib, -(ia * tx - ib * ty), -(ib * tx + ia * ty))
    }

    /** The unknowns of the fit, in the order of the equations' columns. */
    function Params(): Vector {
      [a, b, tx, ty]
    }
  }

  function FromParams(p: Vector): Similarity
    requires |p| == N
  {
    Similarity(p[0], p[1], p[2], p[3])
  }

  const IDENTITY: Similarity := Similarity(1.0, 0.0, 0.0, 0.0)

  // ---------- inverse ----------

  lemma UnitScale(a: real, b: real)
    requires a * a + b * b != 0.0
    ensures var det := a * a + b * b;
            a * (a / det) - b * (-b / det) == 1.0 && a * (-b / det) + b * (a / det) == 0.0
  {
    var det := a * a + b * b;
    assert a * (a / det) == a * a / det && b * (-b / det) == -(b * b / det);
    assert a * a / det + b * b / det == det / det;
    assert a * (-b / det) == -(a * b / det) && b * (a / det) == a * b / det;
  }

  /** With a unit scale, composing the two linear parts is the identity. */
  lemma RotateBack(a: real, b: real, c: real, d: real, x: real, y: real)
    requires a * c - b * d == 1.0 && a * d + b * c == 0.0
    ensures c * (a * x - b * y) - d * (b * x + a * y) == x
    ensures d * (a * x - b * y) + c * (b * x + a * y) == y
  {
    assert c * (a * x - b * y) - d * (b * x + a * y) == (a * c - b * d) * x - (a * d + b * c) * y;
    assert d * (a * x - b * y) + c * (b * x + a * y) == (a * d + b * c) * x + (a * c - b * d) * y;
  }

  lemma ShiftBefore(c: real, d: real, u: real, v: real, tx: real, ty: real)
    ensures c * (u + tx) - d * (v + ty) + -(c * tx - d * ty) == c * u - d * v
    ensures d * (u + tx) + c * (v + ty) + -(d * tx + c * ty) == d * u + c * v
  {
  }

  lemma ShiftAfter(c: real, d: real, x: real, y: real, tx: real, ty: real)
    ensures c * x - d * y + -(c * tx - d * ty) == c * (x - tx) - d * (y - ty)
    ensures d * x + c * y + -(d * tx + c * ty) == d * (x - tx) + c * (y - ty)
  {
  }

  lemma InverseAfter(a: real, b: real, c: real, d: real, tx: real, ty: real, p: Point)
    requires a * c - b * d == 1.0 && a * d + b * c == 0.0
    ensures var t := Similarity(a, b, tx, ty);
            var i := Similarity(c, d, -(c * tx - d * ty), -(d * tx + c * ty));
            i.Apply(t.Apply(p)) == p
  {
    var u, v := a * p.x - b * p.y, b * p.x + a * p.y;
    ShiftBefore(c, d, u, v, tx, ty);
    RotateBack(a, b, c, d, p.x, p.y);
  }

  lemma InverseBefore(a: real, b: real, c: real, d: real, tx: real, ty: real, p: Point)
    requires c * a - d * b == 1.0 && c * b + d * a == 0.0
    ensures var t := Similarity(a, b, tx, ty);
            var i := Similarity(c, d, -(c * tx - d * ty), -(d * tx + c * ty));
            t.Apply(i.Apply(p)) == p
  {
    ShiftAfter(c, d, p.x, p.y, tx, ty);
    RotateBack(c, d, a, b, p.x - tx, p.y - ty);
  }

  /** `i` undoes the linear part of `t` and then its shift. */
  predicate Undoes(i: Similarity, t: Similarity) {
    && i == Similarity(i.a, i.b, -(i.a * t.tx - i.b * t.ty), -(i.b * t.tx + i.a * t.ty))
    && t.a * i.a - t.b * i.b == 1.0 && t.a * i.b + t.b * i.a == 0.0
  }

  lemma UndoneAfter(i: Similarity, t: Similarity, p: Point)
    requires Undoes(i, t)
    ensures i.Apply(t.Apply(p)) == p
  {
    InverseAfter(t.a, t.b, i.a, i.b, t.tx, t.ty, p);
    assert t == Similarity(t.a, t.b, t.tx, t.ty);
  }

  lemma UndoneBefore(i: Similarity, t: Similarity, p: Point)
    requires Undoes(i, t)
    ensures t.Apply(i.Apply(p)) == p
  {
    InverseBefore(t.a, t.b, i.a, i.b, t.tx, t.ty, p);
    assert t == Similarity(t.a, t.b, t.tx, t.ty);
  }

  lemma InvertUndoes(t: Similarity)
    requires t.a * t.a + t.b * t.b != 0.0
    ensures Undoes(t.Invert(), t)
  {
    UnitScale(t.a, t.b);
  }

  /** The inverse is two-sided. */
  lemma InvertIsInverse(t: Similarity, p: Point)
    requires t.a * t.a + t.b * t.b != 0.0
    ensures t.Invert().Apply(t.Apply(p)) == p
    ensures t.Apply(t.Invert().Apply(p)) == p
  {
    hide Similarity.Apply, Similarity.Invert, Undoes;
    InvertUndoes(t);
    UndoneAfter(t.Invert(), t, p);
    UndoneBefore(t.Invert(), t, p);
  }

  /** The map keeps shapes: squared distances grow by a^2 + b^2, and so do signed areas, which rules out mirror
      images. */
  lemma ApplyIsSimilarity(t: Similarity, p: Point, q: Point, r: Point)
    ensures var k, p', q', r' := t.a * t.a + t.b * t.b, t.Apply(p), t.Apply(q), t.Apply(r);
            && SquaredLength(q'.x - p'.x, q'.y - p'.y) == k * SquaredLength(q.x - p.x, q.y - p.y)
            && Cross(q'.x - p'.x, q'.y - p'.y, r'.x - p'.x, r'.y - p'.y) ==
               k * Cross(q.x - p.x, q.y - p.y, r.x - p.x, r.y - p.y)
  {
    var u, v, x, y := q.x - p.x, q.y - p.y, r.x - p.x, r.y - p.y;
    var p', q', r' := t.Apply(p), t.Apply(q), t.Apply(r);
    DifferenceMaps(t, p, q);
    DifferenceMaps(t, p, r);
    hide Similarity.Apply, SquaredLength, Cross;
    LengthScales(t.a, t.b, u, v, q'.x - p'.x, q'.y - p'.y);
    CrossScales(t.a, t.b, u, v, x, y, q'.x - p'.x, q'.y - p'.y, r'.x - p'.x, r'.y - p'.y);
  }

  function SquaredLength(u: real, v: real): real {
    u * u + v * v
  }

  function Cross(u: real, v: real, x: real, y: real): real {
    u * y - v * x
  }

  lemma DifferenceMaps(t: Similarity, p: Point, q: Point)
    ensures t.Apply(q).x - t.Apply(p).x == t.a * (q.x - p.x) - t.b * (q.y - p.y)
    ensures t.Apply(q).y - t.Apply(p).y == t.b * (q.x - p.x) + t.a * (q.y - p.y)
  {
  }

  lemma LengthScales(a: real, b: real, u: real, v: real, u': real, v': real)
    requires u' == a * u - b * v && v' == b * u + a * v
    ensures SquaredLength(u', v') == (a * a + b * b) * SquaredLength(u, v)
  {
  }

  lemma CrossScales(a: real, b: real, u: real, v: real, x: real, y: real, u': real, v': real, x': real, y': real)
    requires u' == a * u - b * v && v' == b * u + a * v && x' == a * x - b * y && y' == b * x + a * y
    ensures Cross(u', v', x', y') == (a * a + b * b) * Cross(u, v, x, y)
  {
  }

  // ---------- least squares ----------

  datatype Equation = Equation(row: Vector, target: real)

  predicate Wide(eqs: seq<Equation>) {
    forall e <- eqs :: |e.row| == N
  }

  const ZEROS: Vector := [0.0, 0.0, 0.0, 0.0]

  function Residual(e: Equation, p: Vector): real
    requires |e.row| == |p|
  {
    Dot(e.row, p) - e.target
  }

  function Square(v: real): real {
    v * v
  }

  /** Sum of squared residuals. */
  function ErrorOf(eqs: seq<Equation>, p: Vector): real
    requires Wide(eqs) && |p| == N
  {
    if eqs == [] then 0.0
    else
      var u := Residual(eqs[|eqs| - 1], p);
      ErrorOf(eqs[..|eqs| - 1], p) + Square(u)
  }

  /** Row r of the normal matrix, and entry r of its right-hand side. */
  function Gram(eqs: seq<Equation>, r: nat): (g: Vector)
    requires Wide(eqs) && r < N
    ensures |g| == N
  {
    if eqs == [] then ZEROS
    else
      var row := eqs[|eqs| - 1].row;
      AddScaled(Gram(eqs[..|eqs| - 1], r), row[r], row)
  }

  function Moment(eqs: seq<Equation>, r: nat): real
    requires Wide(eqs) && r < N
  {
    if eqs == [] then 0.0
    else
      var e := eqs[|eqs| - 1];
      Moment(eqs[..|eqs| - 1], r) + e.row[r] * e.target
  }

  function Normal(eqs: seq<Equation>): (s: System)
    requires Wide(eqs)
    ensures s.Square(N)
  {
    System([Gram(eqs, 0), Gram(eqs, 1), Gram(eqs, 2), Gram(eqs, 3)],
           [Moment(eqs, 0), Moment(eqs, 1), Moment(eqs, 2), Moment(eqs, 3)])
  }

  /** Half the gradient of the error: residuals times rows. */
  function Gradient(eqs: seq<Equation>, p: Vector): (g: Vector)
    requires Wide(eqs) && |p| == N
    ensures |g| == N
  {
    if eqs == [] then ZEROS
    else
      var e := eqs[|eqs| - 1];
      AddScaled(Gradient(eqs[..|eqs| - 1], p), Residual(e, p), e.row)
  }

  /** Sum of squared changes along d. */
  function Energy(eqs: seq<Equation>, d: Vector): (v: real)
    requires Wide(eqs) && |d| == N
    ensures v >= 0.0
  {
    if eqs == [] then 0.0
    else
      var v := Dot(eqs[|eqs| - 1].row, d);
      SquareNonNegative(v);
      Energy(eqs[..|eqs| - 1], d) + Square(v)
  }

  function Times(a: real, b: real): real {
    a * b
  }

  lemma GradientLast(eqs: seq<Equation>, p: Vector, r: nat)
    requires Wide(eqs) && eqs != [] && |p| == N && r < N
    ensures var front, e := eqs[..|eqs| - 1], eqs[|eqs| - 1];
            Gradient(eqs, p)[r] == Gradient(front, p)[r] + Times(Residual(e, p), e.row[r])
  {
    hide AddScaled, Residual;
    var front, e := eqs[..|eqs| - 1], eqs[|eqs| - 1];
    assert Gradient(eqs, p) == AddScaled(Gradient(front, p), Residual(e, p), e.row);
    hide Gradient;
  }

  lemma GramLast(eqs: seq<Equation>, p: Vector, r: nat)
    requires Wide(eqs) && eqs != [] && |p| == N && r < N
    ensures var front, e := eqs[..|eqs| - 1], eqs[|eqs| - 1];
            Dot(Gram(eqs, r), p) == Dot(Gram(front, r), p) + Times(e.row[r], Dot(e.row, p))
  {
    hide Dot, AddScaled;
    var front, e := eqs[..|eqs| - 1], eqs[|eqs| - 1];
    DotAddScaled(Gram(front, r), e.row[r], e.row, p);
  }

  lemma MomentLast(eqs: seq<Equation>, r: nat)
    requires Wide(eqs) && eqs != [] && r < N
    ensures var front, e := eqs[..|eqs| - 1], eqs[|eqs| - 1];
            Moment(eqs, r) == Moment(front, r) + Times(e.row[r], e.target)
  {
  }

  lemma Spread(k: real, u: real, t: real)
    ensures Times(u - t, k) == Times(k, u) - Times(k, t)
  {
  }

  lemma {:induction false} GradientIsNormalResidual(eqs: seq<Equation>, p: Vector, r: nat)
    requires Wide(eqs) && |p| == N && r < N
    ensures Gradient(eqs, p)[r] == Dot(Gram(eqs, r), p) - Moment(eqs, r)
  {
    hide Dot, AddScaled, Times;
    if eqs == [] {
      DotCommutes(ZEROS, p);
      DotZero(p, ZEROS);
    } else {
      hide Gradient, Gram, Moment;
      var e := eqs[|eqs| - 1];
      GradientIsNormalResidual(eqs[..|eqs| - 1], p, r);
      GradientLast(eqs, p, r);
      GramLast(eqs, p, r);
      MomentLast(eqs, r);
      Spread(e.row[r], Dot(e.row, p), e.target);
    }
  }

  lemma SquareOfSum(u: real, v: real)
    ensures Square(u + v) == Square(u) + 2.0 * Times(u, v) + Square(v)
  {
  }

  lemma ErrorLast(eqs: seq<Equation>, p: Vector)
    requires Wide(eqs) && eqs != [] && |p| == N
    ensures ErrorOf(eqs, p) == ErrorOf(eqs[..|eqs| - 1], p) + Square(Residual(eqs[|eqs| - 1], p))
  {
    hide Residual, Square;
  }

  lemma EnergyLast(eqs: seq<Equation>, d: Vector)
    requires Wide(eqs) && eqs != [] && |d| == N
    ensures Energy(eqs, d) == Energy(eqs[..|eqs| - 1], d) + Square(Dot(eqs[|eqs| - 1].row, d))
  {
    hide Dot, Square;
  }

  lemma GradientAlongLast(eqs: seq<Equation>, p: Vector, d: Vector)
    requires Wide(eqs) && eqs != [] && |p| == |d| == N
    ensures var front, e := eqs[..|eqs| - 1], eqs[|eqs| - 1];
            Dot(Gradient(eqs, p), d) == Dot(Gradient(front, p), d) + Times(Residual(e, p), Dot(e.row, d))
  {
    hide Dot, AddScaled, Residual;
    var front, e := eqs[..|eqs| - 1], eqs[|eqs| - 1];
    assert Gradient(eqs, p) == AddScaled(Gradient(front, p), Residual(e, p), e.row);
    hide Gradient;
    DotAddScaled(Gradient(front, p), Residual(e, p), e.row, d);
  }

  lemma ResidualAlong(e: Equation, p: Vector, d: Vector, q: Vector)
    requires |e.row| == |p| == |d| == |q| == N && Dot(e.row, q) == Dot(e.row, p) + Dot(e.row, d)
    ensures Residual(e, q) == Residual(e, p) + Dot(e.row, d)
  {
    hide Dot;
  }

  /** The error at p + d, expanded around p. */
  lemma {:induction false} ErrorExpands(eqs: seq<Equation>, p: Vector, d: Vector)
    requires Wide(eqs) && |p| == |d| == N
    ensures ErrorOf(eqs, AddScaled(p, 1.0, d)) ==
            ErrorOf(eqs, p) + 2.0 * Dot(Gradient(eqs, p), d) + Energy(eqs, d)
  {
    hide Dot, AddScaled, Times, Square, Residual;
    if eqs == [] {
      DotCommutes(ZEROS, d);
      DotZero(d, ZEROS);
    } else {
      hide ErrorOf, Energy, Gradient;
      var e := eqs[|eqs| - 1];
      ErrorExpands(eqs[..|eqs| - 1], p, d);
      ErrorLast(eqs, AddScaled(p, 1.0, d));
      ErrorLast(eqs, p);
      EnergyLast(eqs, d);
      GradientAlongLast(eqs, p, d);
      DotPlus(e.row, p, d);
      ResidualAlong(e, p, d, AddScaled(p, 1.0, d));
      SquareOfSum(Residual(e, p), Dot(e.row, d));
    }
  }

  lemma {:induction false} NoEnergyNoChange(eqs: seq<Equation>, d: Vector, r: nat)
    requires Wide(eqs) && |d| == N && r < N && Energy(eqs, d) == 0.0
    ensures Dot(Gram(eqs, r), d) == 0.0
  {
    hide Dot, AddScaled, Square;
    if eqs == [] {
      DotCommutes(ZEROS, d);
      DotZero(d, ZEROS);
    } else {
      var e := eqs[|eqs| - 1];
      var front := eqs[..|eqs| - 1];
      var v := Dot(e.row, d);
      SquareNonNegative(v);
      assert Energy(eqs, d) == Energy(front, d) + Square(v);
      assert v == 0.0;
      NoEnergyNoChange(front, d, r);
      DotAddScaled(Gram(front, r), e.row[r], e.row, d);
      assert e.row[r] * v == 0.0;
    }
  }

  lemma SquareNonNegative(v: real)
    ensures Square(v) >= 0.0 && (v != 0.0 ==> Square(v) > 0.0)
  {
    if v != 0.0 {
      calc {
        0.0;
      < { assert v * v > 0.0; }
        v * v;
      ==
        Square(v);
      }
    }
  }

  /** The vector from p to q. */
  function Minus(q: Vector, p: Vector): (d: Vector)
    requires |q| == |p|
    ensures |d| == |p| && AddScaled(p, 1.0, d) == q
  {
    var d := AddScaled(q, -1.0, p);
    assert AddScaled(p, 1.0, d) == q;
    d
  }

  /** A solution of the normal equations is a minimiser, by exactly the energy of the difference. */
  lemma NormalMinimises(eqs: seq<Equation>, p: Vector, q: Vector)
    requires Wide(eqs) && |p| == |q| == N && Normal(eqs).Solves(N, p)
    ensures ErrorOf(eqs, q) == ErrorOf(eqs, p) + Energy(eqs, Minus(q, p))
  {
    hide Dot, AddScaled, Gram, Moment, Gradient, ErrorOf, Energy;
    var g := Gradient(eqs, p);
    var d := Minus(q, p);
    var s := Normal(eqs);
    forall r | 0 <= r < N ensures g[r] == 0.0 {
      GradientIsNormalResidual(eqs, p, r);
      assert Dot(s.rows[r], p) == s.rhs[r];
      assert r == 0 || r == 1 || r == 2 || r == 3;
    }
    ErrorExpands(eqs, p, d);
    DotCommutes(g, d);
    DotZero(d, g);
  }

  /** If the normal equations have one solution, no other vector has as small an error. */
  lemma NormalMinimiserUnique(eqs: seq<Equation>, p: Vector, q: Vector)
    requires Wide(eqs) && |p| == |q| == N && Normal(eqs).Solves(N, p)
    requires forall y: Vector :: |y| == N && Normal(eqs).Solves(N, y) ==> y == p
    requires ErrorOf(eqs, q) <= ErrorOf(eqs, p)
    ensures q == p
  {
    hide Dot, AddScaled, Gram, Moment, ErrorOf, Energy;
    NormalMinimises(eqs, p, q);
    var d := Minus(q, p);
    var s := Normal(eqs);
    forall r | 0 <= r < N ensures Dot(s.rows[r], q) == s.rhs[r] {
      assert r == 0 || r == 1 || r == 2 || r == 3;
      NoEnergyNoChange(eqs, d, r);
      DotPlus(s.rows[r], p, d);
      assert Dot(s.rows[r], p) == s.rhs[r];
    }
    assert s.Solves(N, q);
  }

  // ---------- the landmark fit ----------

  /** Two equations per landmark, for the first n of them. */
  function Equations(src: seq<Point>, dst: seq<Point>, n: nat): (eqs: seq<Equation>)
    requires n <= |src| == |dst|
    ensures Wide(eqs)
  {
    if n == 0 then []
    else
      var p, q := src[n - 1], dst[n - 1];
      Equations(src, dst, n - 1)
      + [Equation([p.x, -p.y, 1.0, 0.0], q.x)]
      + [Equation([p.y, p.x, 0.0, 1.0], q.y)]
  }

  function SquaredDistance(p: Point, q: Point): real {
    Square(p.x - q.x) + Square(p.y - q.y)
  }

  /** Sum of squared distances between mapped and wanted landmarks. */
  function SquaredError(src: seq<Point>, dst: seq<Point>, t: Similarity, n: nat): real
    requires n <= |src| == |dst|
  {
    if n == 0 then 0.0
    else
      var p, q := t.Apply(src[n - 1]), dst[n - 1];
      SquaredError(src, dst, t, n - 1) + SquaredDistance(p, q)
  }

  lemma Dot4(a: Vector, x: Vector)
    requires |a| == |x| == 4
    ensures Dot(a, x) == a[0] * x[0] + a[1] * x[1] + a[2] * x[2] + a[3] * x[3]
  {
    DotCons(a, x);
    DotCons(a[1..], x[1..]);
    DotCons(a[2..], x[2..]);
    DotCons(a[3..], x[3..]);
    assert a[1..][1..] == a[2..] && a[2..][1..] == a[3..] && a[3..][1..] == [];
    assert x[1..][1..] == x[2..] && x[2..][1..] == x[3..] && x[3..][1..] == [];
  }

  /** The equations of a landmark are the coordinates of its image. */
  lemma EquationsMeanApply(t: Similarity, p: Point)
    ensures Dot([p.x, -p.y, 1.0, 0.0], t.Params()) == t.Apply(p).x
    ensures Dot([p.y, p.x, 0.0, 1.0], t.Params()) == t.Apply(p).y
  {
    Dot4([p.x, -p.y, 1.0, 0.0], t.Params());
    Dot4([p.y, p.x, 0.0, 1.0], t.Params());
  }

  lemma ErrorSnoc(eqs: seq<Equation>, e: Equation, p: Vector)
    requires Wide(eqs) && |e.row| == N && |p| == N
    ensures ErrorOf(eqs + [e], p) == ErrorOf(eqs, p) + Square(Residual(e, p))
  {
    assert (eqs + [e])[..|eqs|] == eqs;
  }

  /** One landmark's two equations contribute its squared distance. */
  lemma ErrorOfLandmark(eqs: seq<Equation>, t: Similarity, p: Point, q: Point)
    requires Wide(eqs)
    ensures var ex, ey := Equation([p.x, -p.y, 1.0, 0.0], q.x), Equation([p.y, p.x, 0.0, 1.0], q.y);
            ErrorOf(eqs + [ex] + [ey], t.Params()) == ErrorOf(eqs, t.Params()) + SquaredDistance(t.Apply(p), q)
  {
    hide Dot, ErrorOf;
    var ex, ey := Equation([p.x, -p.y, 1.0, 0.0], q.x), Equation([p.y, p.x, 0.0, 1.0], q.y);
    EquationsMeanApply(t, p);
    assert Residual(ex, t.Params()) == t.Apply(p).x - q.x;
    assert Residual(ey, t.Params()) == t.Apply(p).y - q.y;
    hide Residual, Similarity.Apply;
    ErrorSnoc(eqs, ex, t.Params());
    ErrorSnoc(eqs + [ex], ey, t.Params());
  }

  lemma {:induction false} ErrorIsSquaredError(src: seq<Point>, dst: seq<Point>, t: Similarity, n: nat)
    requires n <= |src| == |dst|
    ensures ErrorOf(Equations(src, dst, n), t.Params()) == SquaredError(src, dst, t, n)
  {
    if n > 0 {
      hide Dot, ErrorOf, Similarity.Apply, SquaredDistance, Residual, Square;
      ErrorIsSquaredError(src, dst, t, n - 1);
      ErrorOfLandmark(Equations(src, dst, n - 1), t, src[n - 1], dst[n - 1]);
    }
  }

  // ---------- the program ----------

  /** acc + k row, entry by entry. */
  method AddProducts(acc: Vector, k: real, row: Vector) returns (out: Vector)
    requires |acc| == |row| == N
    ensures out == AddScaled(acc, k, row)
  {
    ghost var goal := AddScaled(acc, k, row);
    out := acc;
    for c := 0 to N
      invariant |out| == N && forall j :: 0 <= j < N ==> out[j] == if j < c then goal[j] else acc[j]
    {
      out := out[c := out[c] + k * row[c]];
    }
  }

  lemma GramSnoc(eqs: seq<Equation>, e: Equation, r: nat)
    requires Wide(eqs) && |e.row| == N && r < N
    ensures Gram(eqs + [e], r) == AddScaled(Gram(eqs, r), e.row[r], e.row)
  {
    hide AddScaled;
    assert (eqs + [e])[..|eqs|] == eqs;
  }

  lemma MomentSnoc(eqs: seq<Equation>, e: Equation, r: nat)
    requires Wide(eqs) && |e.row| == N && r < N
    ensures Moment(eqs + [e], r) == Moment(eqs, r) + Times(e.row[r], e.target)
  {
    assert (eqs + [e])[..|eqs|] == eqs;
  }

  /** Fold one equation into the normal matrix and right-hand side, in place. */
  method Accumulate(ata: array<Vector>, atb: array<real>, ghost eqs: seq<Equation>, e: Equation)
    requires Wide(eqs) && |e.row| == N && ata.Length == N && atb.Length == N
    requires forall r :: 0 <= r < N ==> ata[r] == Gram(eqs, r) && atb[r] == Moment(eqs, r)
    modifies ata, atb
    ensures forall r :: 0 <= r < N ==> ata[r] == Gram(eqs + [e], r) && atb[r] == Moment(eqs + [e], r)
  {
    hide AddScaled, Gram, Moment;
    for r := 0 to N
      invariant forall k :: 0 <= k < N ==>
                  if k < r then ata[k] == Gram(eqs + [e], k) && atb[k] == Moment(eqs + [e], k)
                  else ata[k] == Gram(eqs, k) && atb[k] == Moment(eqs, k)
    {
      GramSnoc(eqs, e, r);
      MomentSnoc(eqs, e, r);
      var sum := AddProducts(ata[r], e.row[r], e.row);
      ata[r] := sum;
      atb[r] := atb[r] + e.row[r] * e.target;
    }
  }

  /** Build the normal equations of the landmark fit. */
  method BuildNormal(src: seq<Point>, dst: seq<Point>) returns (ata: array<Vector>, atb: array<real>)
    requires |src| == |dst| == 5
    ensures fresh(ata) && fresh(atb) && Held(ata, atb) == Normal(Equations(src, dst, 5))
  {
    hide AddScaled, Gram, Moment;
    ata := new Vector[N](_ => ZEROS);
    atb := new real[N](_ => 0.0);
    EmptyNormal();
    ghost var eqs: seq<Equation> := [];
    for i := 0 to 5
      invariant fresh(ata) && fresh(atb) && ata.Length == N && atb.Length == N
      invariant eqs == Equations(src, dst, i)
      invariant forall r :: 0 <= r < N ==> ata[r] == Gram(eqs, r) && atb[r] == Moment(eqs, r)
    {
      var p, q := src[i], dst[i];
      var ex, ey := Equation([p.x, -p.y, 1.0, 0.0], q.x), Equation([p.y, p.x, 0.0, 1.0], q.y);
      Accumulate(ata, atb, eqs, ex);
      Accumulate(ata, atb, eqs + [ex], ey);
      eqs := eqs + [ex] + [ey];
    }
    var s := Normal(eqs);
    assert ata[..] == s.rows && atb[..] == s.rhs;
  }

  lemma EmptyNormal()
    ensures forall r :: 0 <= r < N ==> Gram([], r) == ZEROS && Moment([], r) == 0.0
  {
  }

  /** No similarity fits the landmarks better, and none but itself as well. */
  ghost predicate BestFit(src: seq<Point>, dst: seq<Point>, t: Similarity)
    requires |src| == |dst| == 5
  {
    forall other: Similarity :: other != t ==> SquaredError(src, dst, t, 5) < SquaredError(src, dst, other, 5)
  }

  lemma SolutionIsBestFit(src: seq<Point>, dst: seq<Point>, p: Vector)
    requires |src| == |dst| == 5 && |p| == N
    requires var s := Normal(Equations(src, dst, 5));
             s.Solves(N, p) && forall y: Vector :: |y| == N && s.Solves(N, y) ==> y == p
    ensures BestFit(src, dst, FromParams(p))
  {
    hide Dot, Gram, Moment, ErrorOf, SquaredError, Equations, Normal;
    var eqs := Equations(src, dst, 5);
    var t := FromParams(p);
    assert t.Params() == p;
    ErrorIsSquaredError(src, dst, t, 5);
    forall other: Similarity | other != t ensures SquaredError(src, dst, t, 5) < SquaredError(src, dst, other, 5) {
      ErrorIsSquaredError(src, dst, other, 5);
      assert other == FromParams(other.Params());
      if ErrorOf(eqs, other.Params()) <= ErrorOf(eqs, p) {
        NormalMinimiserUnique(eqs, p, other.Params());
        assert false;
      }
    }
  }

  // ---------- what a best fit gives ----------

  lemma {:induction false} ErrorNonNegative(src: seq<Point>, dst: seq<Point>, t: Similarity, n: nat)
    requires n <= |src| == |dst|
    ensures SquaredError(src, dst, t, n) >= 0.0
  {
    if n > 0 {
      ErrorNonNegative(src, dst, t, n - 1);
      var p, q := t.Apply(src[n - 1]), dst[n - 1];
      SquareNonNegative(p.x - q.x);
      SquareNonNegative(p.y - q.y);
    }
  }

  lemma {:induction false} ExactHasNoError(src: seq<Point>, dst: seq<Point>, t: Similarity, n: nat)
    requires n <= |src| == |dst| && forall i :: 0 <= i < |src| ==> dst[i] == t.Apply(src[i])
    ensures SquaredError(src, dst, t, n) == 0.0
  {
    hide Similarity.Apply;
    if n > 0 {
      ExactHasNoError(src, dst, t, n - 1);
    }
  }

  /** Landmarks that are an exact similarity image are fitted by that similarity and no other. */
  lemma ExactSimilarityRecovered(src: seq<Point>, dst: seq<Point>, t: Similarity, exact: Similarity)
    requires |src| == |dst| == 5 && BestFit(src, dst, t)
    requires forall i :: 0 <= i < 5 ==> dst[i] == exact.Apply(src[i])
    ensures t == exact
  {
    hide SquaredError, Similarity.Apply;
    ExactHasNoError(src, dst, exact, 5);
    ErrorNonNegative(src, dst, t, 5);
  }

  lemma {:induction false} SameImagesSameError(src: seq<Point>, dst: seq<Point>, t: Similarity, u: Similarity, n: nat)
    requires n <= |src| == |dst| && forall i :: 0 <= i < |src| ==> t.Apply(src[i]) == u.Apply(src[i])
    ensures SquaredError(src, dst, t, n) == SquaredError(src, dst, u, n)
  {
    hide Similarity.Apply;
    if n > 0 {
      SameImagesSameError(src, dst, t, u, n - 1);
    }
  }

  /** Coincident landmarks have no best fit. */
  lemma CoincidentHaveNoBestFit(src: seq<Point>, dst: seq<Point>, t: Similarity)
    requires |src| == |dst| == 5 && forall i :: 0 <= i < 5 ==> src[i] == src[0]
    ensures !BestFit(src, dst, t)
  {
    var p := src[0];
    var u := Similarity(t.a + 1.0, t.b, t.tx - p.x, t.ty - p.y);
    assert t.Apply(p) == u.Apply(p);
    SameImagesSameError(src, dst, t, u, 5);
  }
}
