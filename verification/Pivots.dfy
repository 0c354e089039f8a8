/**
 Which pivots elimination meets on the normal equations of a similarity fit. Their matrix has three
 parameters: q, the sum of squared coordinates, and the coordinate sums x and y. Eliminating it
 symbolically gives the exact condition under which no pivot falls short.
 */
module Pivots {
  import opened Wrappers
  import opened LinAlg
  import opened Solve
  import opened Geometry

  /** The normal matrix of five landmarks. */
  function NormalRows(q: real, x: real, y: real): seq<Vector> {
    [[q, 0.0, x, y], [0.0, q, -y, x], [x, -y, 5.0, 0.0], [y, x, 0.0, 5.0]]
  }

  /** What the third and fourth pivots are multiples of. */
  function Spread(q: real, x: real, y: real): real {
    5.0 * q - (x * x + y * y)
  }

  /** Every pivot reaches the minimum: for landmarks of pixel size the first two pivots are q and the
      last two Spread / q; for sums larger than q the largest of them takes its place. */
  predicate Usable(q: real, x: real, y: real) {
    if q >= Abs(x) && q >= Abs(y) then
      q >= PIVOT_MIN && Spread(q, x, y) >= PIVOT_MIN * q
    else
      var m := Max(Abs(x), Abs(y));
      m >= PIVOT_MIN && m * Spread(q, x, y) >= PIVOT_MIN * (x * x + y * y)
  }

  // ---------- one column, on the matrix alone ----------

  predicate FourByFour(rows: seq<Vector>) {
    |rows| == N && forall k :: 0 <= k < N ==> |rows[k]| == N
  }

  function ClearedRow(row: Vector, pivotRow: Vector, i: nat): Vector
    requires |row| == |pivotRow| == N && i < N && pivotRow[i] != 0.0
  {
    AddScaled(row, -(row[i] / pivotRow[i]), pivotRow)
  }

  lemma {:induction false} BestIs(s: System, i: nat, p: nat, r: nat)
    requires s.Square(N) && i <= p < r <= N
    requires forall k :: i <= k < p ==> Abs(s.rows[k][i]) < Abs(s.rows[p][i])
    requires forall k :: p < k < r ==> Abs(s.rows[k][i]) <= Abs(s.rows[p][i])
    ensures Best(s, i, r) == p
  {
    if p < r - 1 {
      BestIs(s, i, p, r - 1);
    }
  }

  lemma ClearRowRows(s: System, i: nat, r: nat)
    requires s.Square(N) && i < r < N && s.rows[i][i] != 0.0
    ensures ClearRow(s, i, r).rows == s.rows[r := ClearedRow(s.rows[r], s.rows[i], i)]
  {
    hide AddScaled;
  }

  lemma {:induction false} ClearedRows(s: System, i: nat, r: nat)
    requires s.Square(N) && i < r <= N && s.rows[i][i] != 0.0
    ensures forall k :: 0 <= k < N ==>
              ClearRows(s, i, r).rows[k] ==
                if i < k < r then ClearedRow(s.rows[k], s.rows[i], i) else s.rows[k]
  {
    if r > i + 1 {
      hide ClearRow, ClearedRow;
      ClearedRows(s, i, r - 1);
      ClearRowRows(ClearRows(s, i, r - 1), i, r - 1);
    }
  }

  /** Elimination passes column i with pivot row p. */
  lemma Stage(s: System, i: nat, p: nat) returns (t: System)
    requires s.Square(N) && i <= p < N && Best(s, i, N) == p
    requires Abs(s.rows[p][i]) >= PIVOT_MIN
    ensures t.Square(N) && Reduce(s, i) == Reduce(t, i + 1)
    ensures var swapped := s.rows[i := s.rows[p]][p := s.rows[i]];
            forall k :: 0 <= k < N ==>
              t.rows[k] == if i < k then ClearedRow(swapped[k], swapped[i], i) else swapped[k]
  {
    hide Best, ClearRows, ClearedRow;
    var u := Pivoted(s, i);
    t := ClearRows(u, i, N);
    ClearedRows(u, i, N);
  }

  lemma IsQuotient(r: real, b: real, a: real)
    requires b != 0.0 && r * b == a
    ensures r == a / b
  {
  }

  lemma Divide(a: real, b: real) returns (r: real)
    requires b != 0.0
    ensures r * b == a
  {
    r := a / b;
  }

  /** A cleared row, given entry by entry. */
  lemma RowIs(row: Vector, pivotRow: Vector, i: nat, f: real, out: Vector)
    requires |row| == |pivotRow| == |out| == N && i < N && pivotRow[i] != 0.0 && f * pivotRow[i] == row[i]
    requires forall k :: 0 <= k < N ==> out[k] == row[k] - f * pivotRow[k]
    ensures ClearedRow(row, pivotRow, i) == out
  {
    IsQuotient(f, pivotRow[i], row[i]);
    var c := ClearedRow(row, pivotRow, i);
    forall k | 0 <= k < N ensures c[k] == out[k] {
      assert c[k] == row[k] + (-f) * pivotRow[k];
      SubtractIsAdd(row[k], f, pivotRow[k]);
    }
  }

  lemma ClearEntries(a0: real, a1: real, a2: real, a3: real, b0: real, b1: real, b2: real, b3: real,
                     i: nat, f: real, c0: real, c1: real, c2: real, c3: real)
    requires i < N && [b0, b1, b2, b3][i] != 0.0 && f * [b0, b1, b2, b3][i] == [a0, a1, a2, a3][i]
    requires c0 == a0 - f * b0 && c1 == a1 - f * b1 && c2 == a2 - f * b2 && c3 == a3 - f * b3
    ensures ClearedRow([a0, a1, a2, a3], [b0, b1, b2, b3], i) == [c0, c1, c2, c3]
  {
    hide ClearedRow;
    RowIs([a0, a1, a2, a3], [b0, b1, b2, b3], i, f, [c0, c1, c2, c3]);
  }

  function Swapped(rows: seq<Vector>, i: nat, p: nat): seq<Vector>
    requires i < |rows| && p < |rows|
  {
    rows[i := rows[p]][p := rows[i]]
  }

  /** Row p leads column i: it is the first with the largest entry. */
  predicate Leads(rows: seq<Vector>, i: nat, p: nat)
    requires FourByFour(rows) && i <= p < N
  {
    && (forall k :: i <= k < p ==> Abs(rows[k][i]) < Abs(rows[p][i]))
    && (forall k :: p < k < N ==> Abs(rows[k][i]) <= Abs(rows[p][i]))
  }

  lemma FirstColumn(s: System, p: nat, r0: Vector, r1: Vector, r2: Vector, r3: Vector, c1: Vector, c2: Vector,
                    c3: Vector)
    returns (t: System)
    requires s.Square(N) && p < N && Leads(s.rows, 0, p) && Swapped(s.rows, 0, p) == [r0, r1, r2, r3]
    requires |r0| == |r1| == |r2| == |r3| == N && Abs(r0[0]) >= PIVOT_MIN
    requires c1 == ClearedRow(r1, r0, 0) && c2 == ClearedRow(r2, r0, 0) && c3 == ClearedRow(r3, r0, 0)
    ensures t.Square(N) && Reduce(s, 0) == Reduce(t, 1) && t.rows == [r0, c1, c2, c3]
  {
    hide ClearedRow, Reduce;
    BestIs(s, 0, p, N);
    assert Swapped(s.rows, 0, p)[0] == s.rows[p];
    t := Stage(s, 0, p);
  }

  lemma SecondColumn(s: System, p: nat, r0: Vector, r1: Vector, r2: Vector, r3: Vector, c2: Vector, c3: Vector)
    returns (t: System)
    requires s.Square(N) && 1 <= p < N && Leads(s.rows, 1, p) && Swapped(s.rows, 1, p) == [r0, r1, r2, r3]
    requires |r0| == |r1| == |r2| == |r3| == N && Abs(r1[1]) >= PIVOT_MIN
    requires c2 == ClearedRow(r2, r1, 1) && c3 == ClearedRow(r3, r1, 1)
    ensures t.Square(N) && Reduce(s, 1) == Reduce(t, 2) && t.rows == [r0, r1, c2, c3]
  {
    hide ClearedRow, Reduce;
    BestIs(s, 1, p, N);
    assert Swapped(s.rows, 1, p)[1] == s.rows[p];
    t := Stage(s, 1, p);
  }

  /** The last two columns, decided by the pivot a and by d, what is left of the last entry. */
  lemma LastColumns(s: System, r0: Vector, r1: Vector, r2: Vector, r3: Vector, c3: Vector)
    requires s.Square(N) && s.rows == [r0, r1, r2, r3]
    requires |r0| == |r1| == |r2| == |r3| == |c3| == N && Abs(r3[2]) <= Abs(r2[2])
    requires r2[2] != 0.0 ==> c3 == ClearedRow(r3, r2, 2) && Abs(c3[3]) >= Abs(r2[2])
    ensures Reduce(s, 2).Some? <==> Abs(r2[2]) >= PIVOT_MIN
  {
    hide ClearedRow, ClearRows;
    BestIs(s, 2, 2, N);
    if Abs(r2[2]) >= PIVOT_MIN {
      var t := Stage(s, 2, 2);
      assert t.rows[3] == c3;
      BestIs(t, 3, 3, N);
      var done := Stage(t, 3, 3);
      assert Reduce(done, 4) == Some(done);
    }
  }

  /** Elimination fails at once when the leading entry of the first column is too small. */
  lemma FirstFails(s: System, p: nat)
    requires s.Square(N) && p < N && Leads(s.rows, 0, p) && Abs(s.rows[p][0]) < PIVOT_MIN
    ensures Reduce(s, 0) == None
  {
    hide ClearRows;
    BestIs(s, 0, p, N);
  }

  lemma ScaledCompare(a: real, b: real, k: real)
    requires k > 0.0
    ensures a >= b <==> a * k >= b * k
  {
    if a < b {
      assert (b - a) * k > 0.0;
    } else {
      assert (a - b) * k >= 0.0;
    }
  }

  // ---------- the sum of squares leads ----------

  lemma SquaresProduct(q: real, x: real, y: real, u: real, v: real, e: real)
    requires u * q == x && v * q == y && e == 5.0 - u * x - v * y
    ensures e * q == 5.0 * q - (x * x + y * y)
  {
    calc {
      e * q;
      5.0 * q - (u * x) * q - (v * y) * q;
      { assert (u * x) * q == (u * q) * x && (v * y) * q == (v * q) * y; }
      5.0 * q - x * x - y * y;
    }
  }

  lemma Crossed(q: real, x: real, y: real, u: real, v: real)
    requires u * q == x && v * q == y
    ensures u * y == v * x
  {
    assert u * y == u * (v * q) && v * x == v * (u * q);
  }

  lemma SquaresScale(q: real, x: real, y: real, u: real, v: real, e: real)
    requires q > 0.0 && u * q == x && v * q == y && e == 5.0 - u * x - v * y
    ensures u * y == v * x && e * q == Spread(q, x, y)
    ensures Spread(q, x, y) >= 0.0 ==> e >= 0.0 && (e >= PIVOT_MIN <==> Spread(q, x, y) >= PIVOT_MIN * q)
  {
    Crossed(q, x, y, u, v);
    SquaresProduct(q, x, y, u, v, e);
    var spread := Spread(q, x, y);
    assert e * q == spread;
    hide Spread;
    ScaledCompare(e, PIVOT_MIN, q);
    ScaledCompare(e, 0.0, q);
  }

  lemma SquaresFirst(q: real, x: real, y: real, u: real, v: real)
    requires q > 0.0 && u * q == x && v * q == y
    ensures var r0 := [q, 0.0, x, y];
            && ClearedRow([0.0, q, -y, x], r0, 0) == [0.0, q, -y, x]
            && ClearedRow([x, -y, 5.0, 0.0], r0, 0) == [0.0, -y, 5.0 - u * x, -(u * y)]
            && ClearedRow([y, x, 0.0, 5.0], r0, 0) == [0.0, x, -(v * x), 5.0 - v * y]
  {
    hide ClearedRow;
    ClearEntries(0.0, q, -y, x, q, 0.0, x, y, 0, 0.0, 0.0, q, -y, x);
    ClearEntries(x, -y, 5.0, 0.0, q, 0.0, x, y, 0, u, 0.0, -y, 5.0 - u * x, -(u * y));
    ClearEntries(y, x, 0.0, 5.0, q, 0.0, x, y, 0, v, 0.0, x, -(v * x), 5.0 - v * y);
  }

  lemma SquaresSecond(q: real, x: real, y: real, u: real, v: real, e: real)
    requires q > 0.0 && u * q == x && v * q == y
    requires e == 5.0 - u * x - v * y && u * y == v * x
    ensures var r1 := [0.0, q, -y, x];
            && ClearedRow([0.0, -y, 5.0 - u * x, -(u * y)], r1, 1) == [0.0, 0.0, e, 0.0]
            && ClearedRow([0.0, x, -(v * x), 5.0 - v * y], r1, 1) == [0.0, 0.0, 0.0, e]
  {
    hide ClearedRow;
    assert (-v) * q == -y && (-v) * (-y) == v * y;
    ClearEntries(0.0, -y, 5.0 - u * x, -(u * y), 0.0, q, -y, x, 1, -v, 0.0, 0.0, e, 0.0);
    ClearEntries(0.0, x, -(v * x), 5.0 - v * y, 0.0, q, -y, x, 1, u, 0.0, 0.0, 0.0, e);
  }

  lemma SquaresTail(s: System, r0: Vector, r1: Vector, e: real)
    requires s.Square(N) && s.rows == [r0, r1, [0.0, 0.0, e, 0.0], [0.0, 0.0, 0.0, e]]
    ensures Reduce(s, 2).Some? <==> Abs(e) >= PIVOT_MIN
  {
    hide ClearedRow, Reduce;
    if e != 0.0 {
      ClearEntries(0.0, 0.0, 0.0, e, 0.0, 0.0, e, 0.0, 2, 0.0, 0.0, 0.0, 0.0, e);
    }
    assert s.rows[0] == r0 && s.rows[1] == r1;
    LastColumns(s, r0, r1, [0.0, 0.0, e, 0.0], [0.0, 0.0, 0.0, e], [0.0, 0.0, 0.0, e]);
  }

  /** The pivots are q, q, Spread / q and Spread / q. */
  lemma SquaresLead(s: System, q: real, x: real, y: real)
    requires s.Square(N) && s.rows == NormalRows(q, x, y)
    requires q >= Abs(x) && q >= Abs(y) && Spread(q, x, y) >= 0.0
    ensures Reduce(s, 0).Some? <==> Usable(q, x, y)
  {
    hide ClearedRow, Spread, Reduce;
    assert Leads(s.rows, 0, 0);
    if q < PIVOT_MIN {
      FirstFails(s, 0);
    } else {
      var u := Divide(x, q);
      var v := Divide(y, q);
      var e := 5.0 - u * x - v * y;
      SquaresScale(q, x, y, u, v, e);
      SquaresFirst(q, x, y, u, v);
      SquaresSecond(q, x, y, u, v, e);
      SquaresRun(s, q, x, y, [0.0, -y, 5.0 - u * x, -(u * y)], [0.0, x, -(v * x), 5.0 - v * y], e);
    }
  }

  lemma SquaresRun(s: System, q: real, x: real, y: real, c2: Vector, c3: Vector, e: real)
    requires s.Square(N) && s.rows == NormalRows(q, x, y) && Leads(s.rows, 0, 0)
    requires q >= Abs(x) && q >= Abs(y) && q >= PIVOT_MIN && |c2| == |c3| == N && c2[1] == -y && c3[1] == x
    requires var r0, r1 := [q, 0.0, x, y], [0.0, q, -y, x];
             && ClearedRow(r1, r0, 0) == r1
             && ClearedRow([x, -y, 5.0, 0.0], r0, 0) == c2 && ClearedRow([y, x, 0.0, 5.0], r0, 0) == c3
             && ClearedRow(c2, r1, 1) == [0.0, 0.0, e, 0.0] && ClearedRow(c3, r1, 1) == [0.0, 0.0, 0.0, e]
    ensures Reduce(s, 0).Some? <==> Abs(e) >= PIVOT_MIN
  {
    hide ClearedRow, Reduce;
    var r0, r1 := [q, 0.0, x, y], [0.0, q, -y, x];
    var t := FirstColumn(s, 0, r0, r1, [x, -y, 5.0, 0.0], [y, x, 0.0, 5.0], r1, c2, c3);
    assert Leads(t.rows, 1, 1);
    var t' := SecondColumn(t, 1, r0, r1, c2, c3, [0.0, 0.0, e, 0.0], [0.0, 0.0, 0.0, e]);
    SquaresTail(t', r0, r1, e);
  }

  // ---------- a coordinate sum leads ----------

  /** The quotients met when the coordinate sum a leads, b being the other one. */
  ghost predicate Ratios(q: real, a: real, b: real, w: real, s: real, p: real, g: real, d: real) {
    && a != 0.0 && p != 0.0
    && w * a == b && s * a == q && g * p == q && (g * w) * p == s * b
    && p == a + w * b && Abs(p) >= Abs(a)
    && 5.0 * g - a == d * a && 5.0 * (g * w) - b == d * b
    && 5.0 * s - a - 5.0 * ((g * w) * w) == d * a
    && d * (a * a + b * b) == Spread(q, a, b)
  }

  lemma Cancelled(a: real, b: real, k: real)
    requires k != 0.0 && a * k == b * k
    ensures a == b
  {
    Cancel(k, a, b);
  }

  /** p, the second pivot, is the sum of squares over a, and larger than a. */
  lemma SecondPivot(a: real, b: real, w: real, p: real)
    requires a != 0.0 && w * a == b && p == a + w * b
    ensures p * a == a * a + b * b && a * a + b * b > 0.0 && Abs(p) >= Abs(a) && p != 0.0
  {
    calc {
      p * a;
      a * a + (w * a) * b;
      a * a + b * b;
    }
    assert w * b == (w * w) * a by {
      assert w * b == w * (w * a);
    }
    assert w * w >= 0.0;
    if a > 0.0 {
      assert (w * w) * a >= 0.0;
    } else {
      assert (w * w) * (-a) >= 0.0;
    }
    assert a * a > 0.0 && b * b >= 0.0;
  }

  /** Times the sum of squares, both remainders are multiples of the spread. */
  lemma Remainders(q: real, a: real, b: real, w: real, p: real, g: real, d: real, sum: real)
    requires w * a == b && g * p == q && p * a == sum && sum > 0.0 && d * sum == 5.0 * q - sum
    ensures 5.0 * g - a == d * a && 5.0 * (g * w) - b == d * b
  {
    assert g * sum == q * a by {
      assert g * sum == (g * p) * a;
    }
    calc {
      (5.0 * g - a) * sum;
      5.0 * (g * sum) - a * sum;
      5.0 * (q * a) - a * sum;
      (5.0 * q - sum) * a;
      (d * sum) * a;
      (d * a) * sum;
    }
    Cancelled(5.0 * g - a, d * a, sum);
    calc {
      5.0 * (g * w) - b;
      (5.0 * g) * w - w * a;
      (5.0 * g - a) * w;
      (d * a) * w;
      d * b;
    }
  }

  lemma ThirdEntry(q: real, a: real, b: real, w: real, s: real, p: real, g: real, d: real)
    requires a != 0.0 && w * a == b && s * a == q && g * p == q && p == a + w * b && 5.0 * g - a == d * a
    ensures 5.0 * s - a - 5.0 * ((g * w) * w) == d * a
    ensures (g * w) * p == s * b
  {
    calc {
      s * a;
      g * (a + w * b);
      g * (a + w * (w * a));
      (g + (g * w) * w) * a;
    }
    Cancelled(s, g + (g * w) * w, a);
    calc {
      (g * w) * p;
      (g * p) * w;
      (s * a) * w;
      s * b;
    }
  }

  lemma RatiosFrom(q: real, a: real, b: real, w: real, s: real, p: real, g: real, d: real, sum: real)
    requires a != 0.0 && w * a == b && s * a == q && p == a + w * b && g * p == q
    requires sum == a * a + b * b && p * a == sum && sum > 0.0 && d * sum == 5.0 * q - sum
    ensures 5.0 * g - a == d * a && 5.0 * (g * w) - b == d * b
    ensures 5.0 * s - a - 5.0 * ((g * w) * w) == d * a && (g * w) * p == s * b
  {
    Remainders(q, a, b, w, p, g, d, sum);
    ThirdEntry(q, a, b, w, s, p, g, d);
  }

  lemma RatiosHold(q: real, a: real, b: real) returns (w: real, s: real, p: real, g: real, d: real)
    requires a != 0.0
    ensures Ratios(q, a, b, w, s, p, g, d)
  {
    var sum, spread := a * a + b * b, Spread(q, a, b);
    assert spread == 5.0 * q - sum;
    hide Abs, Spread;
    w := Divide(b, a);
    s := Divide(q, a);
    p := a + w * b;
    SecondPivot(a, b, w, p);
    g := Divide(q, p);
    d := Divide(spread, sum);
    RatiosFrom(q, a, b, w, s, p, g, d, sum);
  }

  lemma AbsTimes(a: real, b: real)
    ensures Abs(a * b) == Abs(a) * Abs(b)
  {
    if a < 0.0 && b >= 0.0 {
      assert (-a) * b >= 0.0;
    } else if a >= 0.0 && b < 0.0 {
      assert a * (-b) >= 0.0;
    } else if a < 0.0 {
      assert (-a) * (-b) > 0.0;
    }
  }

  lemma AtMost(k: real, a: real, b: real)
    requires k >= 0.0 && a <= b
    ensures k * a <= k * b
  {
  }

  /** The leading sum is large, so both second-column entries below it are not. */
  lemma SumLeads(q: real, a: real, b: real, s: real, p: real)
    requires s * a == q && Abs(p) >= Abs(a) && 0.0 <= q < Abs(a) && Abs(b) <= Abs(a)
    ensures q < Abs(p) && Abs(s * b) < Abs(p)
  {
    assert Abs(q) == q && Abs(s) >= 0.0;
    hide Abs;
    calc {
      Abs(s * b);
    == { AbsTimes(s, b); }
      Abs(s) * Abs(b);
    <= { AtMost(Abs(s), Abs(b), Abs(a)); }
      Abs(s) * Abs(a);
    == { AbsTimes(s, a); }
      Abs(s * a);
    ==
      q;
    }
  }

  lemma AbsScaled(d: real, a: real)
    requires d >= 0.0
    ensures Abs(d * a) == d * Abs(a)
  {
    AbsTimes(d, a);
  }

  lemma AbsOrder(d: real, a: real, b: real)
    requires d >= 0.0 && Abs(a) <= Abs(b)
    ensures Abs(d * a) <= Abs(d * b)
  {
    hide Abs;
    AbsScaled(d, a);
    AbsScaled(d, b);
    AtMost(d, Abs(a), Abs(b));
  }

  lemma ScaleTo(a: real, d: real, sum: real, spread: real)
    requires d * sum == spread && sum > 0.0 && spread >= 0.0
    ensures d >= 0.0 && (d * a >= PIVOT_MIN <==> a * spread >= PIVOT_MIN * sum)
  {
    ScaledCompare(d, 0.0, sum);
    assert (d * a) * sum == a * (d * sum);
    ScaledCompare(d * a, PIVOT_MIN, sum);
  }

  /** The third pivot is d a and the fourth, d p, no smaller. */
  lemma SumScale(a: real, b: real, p: real, d: real, sum: real, spread: real)
    requires d * sum == spread && sum > 0.0 && spread >= 0.0 && Abs(b) <= Abs(a) <= Abs(p)
    ensures Abs(d * b) <= Abs(d * a) <= Abs(d * p)
    ensures Abs(d * a) >= PIVOT_MIN <==> Abs(a) * spread >= PIVOT_MIN * sum
  {
    hide Abs;
    ScaleTo(Abs(a), d, sum, spread);
    AbsScaled(d, a);
    AbsOrder(d, b, a);
    AbsOrder(d, a, p);
  }

  lemma LastFactor(a: real, b: real, w: real, p: real, d: real)
    requires w * a == b && p == a + w * b
    ensures d * p == d * a + w * (d * b) && w * (d * a) == d * b
  {
    assert w * (d * a) == d * (w * a);
    assert d * p == d * a + d * (w * b);
    assert d * (w * b) == w * (d * b);
  }

  lemma RatioBasics(q: real, a: real, b: real, w: real, s: real, p: real, g: real, d: real)
    requires Ratios(q, a, b, w, s, p, g, d)
    ensures a != 0.0 && w * a == b && s * a == q && p == a + w * b && Abs(p) >= Abs(a)
    ensures d * (a * a + b * b) == Spread(q, a, b)
  {
  }

  lemma LastSizes(a: real, b: real, w: real, p: real, d: real, spread: real) returns (k: real, l: real, e: real)
    requires a != 0.0 && w * a == b && p == a + w * b && d * (a * a + b * b) == spread
    requires spread >= 0.0 && Abs(b) <= Abs(a) <= Abs(p)
    ensures k == d * a && l == d * b && w * k == l && e == k + w * l && Abs(l) <= Abs(k) <= Abs(e)
    ensures Abs(k) >= PIVOT_MIN <==> Abs(a) * spread >= PIVOT_MIN * (a * a + b * b)
  {
    hide Abs;
    SecondPivot(a, b, w, p);
    SumScale(a, b, p, d, a * a + b * b, spread);
    LastFactor(a, b, w, p, d);
    k, l, e := d * a, d * b, d * p;
  }

  /** The sizes that decide, with k and l the two sums times d, and e the fourth pivot. */
  lemma Magnitudes(q: real, a: real, b: real, w: real, s: real, p: real, g: real, d: real)
    returns (k: real, l: real, e: real)
    requires Ratios(q, a, b, w, s, p, g, d) && 0.0 <= q < Abs(a) && Abs(b) <= Abs(a) && Spread(q, a, b) >= 0.0
    ensures k == d * a && l == d * b && w * k == l && e == k + w * l
    ensures q < Abs(p) && Abs(a) <= Abs(p) && Abs(s * b) < Abs(p) && Abs(l) <= Abs(k) <= Abs(e)
    ensures Abs(k) >= PIVOT_MIN <==> Abs(a) * Spread(q, a, b) >= PIVOT_MIN * (a * a + b * b)
  {
    hide Spread, Abs, Ratios;
    RatioBasics(q, a, b, w, s, p, g, d);
    k, l, e := LastSizes(a, b, w, p, d, Spread(q, a, b));
    SumLeads(q, a, b, s, p);
  }

  // x in front

  lemma XFirst(q: real, x: real, y: real, w: real, s: real, p: real, g: real, d: real)
    requires Ratios(q, x, y, w, s, p, g, d)
    ensures var r0 := [x, -y, 5.0, 0.0];
            && ClearedRow([0.0, q, -y, x], r0, 0) == [0.0, q, -y, x]
            && ClearedRow([q, 0.0, x, y], r0, 0) == [0.0, s * y, x - 5.0 * s, y]
            && ClearedRow([y, x, 0.0, 5.0], r0, 0) == [0.0, p, -5.0 * w, 5.0]
  {
    hide ClearedRow;
    ClearEntries(0.0, q, -y, x, x, -y, 5.0, 0.0, 0, 0.0, 0.0, q, -y, x);
    ClearEntries(q, 0.0, x, y, x, -y, 5.0, 0.0, 0, s, 0.0, s * y, x - 5.0 * s, y);
    ClearEntries(y, x, 0.0, 5.0, x, -y, 5.0, 0.0, 0, w, 0.0, p, -5.0 * w, 5.0);
  }

  lemma XSecond(q: real, x: real, y: real, w: real, s: real, p: real, g: real, d: real)
    requires Ratios(q, x, y, w, s, p, g, d)
    ensures var r1 := [0.0, p, -5.0 * w, 5.0];
            && ClearedRow([0.0, s * y, x - 5.0 * s, y], r1, 1) == [0.0, 0.0, -(d * x), -(d * y)]
            && ClearedRow([0.0, q, -y, x], r1, 1) == [0.0, 0.0, d * y, -(d * x)]
  {
    hide ClearedRow;
    var f := g * w;
    assert f * (-5.0 * w) == -5.0 * (f * w);
    ClearEntries(0.0, s * y, x - 5.0 * s, y, 0.0, p, -5.0 * w, 5.0, 1, f, 0.0, 0.0, -(d * x), -(d * y));
    assert g * (-5.0 * w) == -5.0 * (g * w);
    ClearEntries(0.0, q, -y, x, 0.0, p, -5.0 * w, 5.0, 1, g, 0.0, 0.0, d * y, -(d * x));
  }

  /** a and b are d times x and y; the entry left is minus d p. */
  lemma XThird(a: real, b: real, w: real, e: real)
    requires a != 0.0 && w * a == b && e == a + w * b
    ensures ClearedRow([0.0, 0.0, b, -a], [0.0, 0.0, -a, -b], 2) == [0.0, 0.0, 0.0, -e]
  {
    hide ClearedRow;
    assert (-w) * (-a) == b;
    assert (-w) * (-b) == w * b;
    ClearEntries(0.0, 0.0, b, -a, 0.0, 0.0, -a, -b, 2, -w, 0.0, 0.0, 0.0, -e);
  }

  lemma XRun(sys: System, q: real, x: real, y: real, w: real, p: real, c2: Vector, d2: Vector, d3: Vector, e3: Vector)
    requires sys.Square(N) && sys.rows == NormalRows(q, x, y) && Leads(sys.rows, 0, 2)
    requires |c2| == |d2| == |d3| == |e3| == N && Abs(x) >= PIVOT_MIN && Abs(p) >= Abs(x)
    requires 0.0 <= q < Abs(p) && Abs(c2[1]) < Abs(p)
    requires var r0, r1, c3 := [x, -y, 5.0, 0.0], [0.0, q, -y, x], [0.0, p, -5.0 * w, 5.0];
             && ClearedRow(r1, r0, 0) == r1
             && ClearedRow([q, 0.0, x, y], r0, 0) == c2 && ClearedRow([y, x, 0.0, 5.0], r0, 0) == c3
             && ClearedRow(c2, c3, 1) == d2 && ClearedRow(r1, c3, 1) == d3
    requires Abs(d3[2]) <= Abs(d2[2]) && (d2[2] != 0.0 ==> e3 == ClearedRow(d3, d2, 2) && Abs(e3[3]) >= Abs(d2[2]))
    ensures Reduce(sys, 0).Some? <==> Abs(d2[2]) >= PIVOT_MIN
  {
    hide ClearedRow, Reduce;
    var r0, r1, c3 := [x, -y, 5.0, 0.0], [0.0, q, -y, x], [0.0, p, -5.0 * w, 5.0];
    var t := FirstColumn(sys, 2, r0, r1, [q, 0.0, x, y], [y, x, 0.0, 5.0], r1, c2, c3);
    assert Leads(t.rows, 1, 3);
    var t' := SecondColumn(t, 3, r0, c3, c2, r1, d2, d3);
    LastColumns(t', r0, c3, d2, d3, e3);
  }

  /** The rows met while x leads: c2 after the first column, and a, b in the last two rows after the second. */
  predicate XRows(q: real, x: real, y: real, w: real, p: real, c2: Vector, a: real, b: real) {
    var r0, r1, c3 := [x, -y, 5.0, 0.0], [0.0, q, -y, x], [0.0, p, -5.0 * w, 5.0];
    && |c2| == N && x != 0.0 && p != 0.0
    && ClearedRow(r1, r0, 0) == r1
    && ClearedRow([q, 0.0, x, y], r0, 0) == c2 && ClearedRow([y, x, 0.0, 5.0], r0, 0) == c3
    && ClearedRow(c2, c3, 1) == [0.0, 0.0, -a, -b] && ClearedRow(r1, c3, 1) == [0.0, 0.0, b, -a]
  }

  lemma XRowsHold(q: real, x: real, y: real, w: real, s: real, p: real, g: real, d: real)
    requires Ratios(q, x, y, w, s, p, g, d)
    ensures XRows(q, x, y, w, p, [0.0, s * y, x - 5.0 * s, y], d * x, d * y)
  {
    XFirst(q, x, y, w, s, p, g, d);
    XSecond(q, x, y, w, s, p, g, d);
    assert x != 0.0 && p != 0.0;
    hide ClearedRow, Ratios;
  }

  lemma XPasses(sys: System, q: real, x: real, y: real, w: real, p: real, c2: Vector, a: real, b: real, e: real)
    requires sys.Square(N) && sys.rows == NormalRows(q, x, y) && Leads(sys.rows, 0, 2)
    requires XRows(q, x, y, w, p, c2, a, b)
    requires 0.0 <= q < Abs(p) && PIVOT_MIN <= Abs(x) <= Abs(p) && Abs(c2[1]) < Abs(p)
    requires Abs(b) <= Abs(a) <= Abs(e) && w * a == b && e == a + w * b
    ensures Reduce(sys, 0).Some? <==> Abs(a) >= PIVOT_MIN
  {
    hide ClearedRow, Reduce, NormalRows, Leads;
    if a != 0.0 {
      XThird(a, b, w, e);
    }
    XRun(sys, q, x, y, w, p, c2, [0.0, 0.0, -a, -b], [0.0, 0.0, b, -a], [0.0, 0.0, 0.0, -e]);
  }

  lemma XDecides(sys: System, q: real, x: real, y: real, w: real, s: real, p: real, g: real, d: real)
    requires sys.Square(N) && sys.rows == NormalRows(q, x, y) && Leads(sys.rows, 0, 2)
    requires 0.0 <= q < Abs(x) && Abs(y) <= Abs(x) && Abs(x) >= PIVOT_MIN && Spread(q, x, y) >= 0.0
    requires Ratios(q, x, y, w, s, p, g, d)
    ensures Reduce(sys, 0).Some? <==> Abs(x) * Spread(q, x, y) >= PIVOT_MIN * (x * x + y * y)
  {
    hide ClearedRow, Reduce, NormalRows, Leads, Spread, Abs, Ratios, XRows;
    XRowsHold(q, x, y, w, s, p, g, d);
    var a, b, e := Magnitudes(q, x, y, w, s, p, g, d);
    XPasses(sys, q, x, y, w, p, [0.0, s * y, x - 5.0 * s, y], a, b, e);
  }

  lemma UsableX(q: real, x: real, y: real)
    requires 0.0 <= q < Abs(x) && Abs(y) <= Abs(x)
    ensures FourByFour(NormalRows(q, x, y)) && Leads(NormalRows(q, x, y), 0, 2)
    ensures Usable(q, x, y) <==> Abs(x) >= PIVOT_MIN && Abs(x) * Spread(q, x, y) >= PIVOT_MIN * (x * x + y * y)
  {
    hide Spread;
  }

  /** The pivots are x, (x^2 + y^2) / x, and, with d the spread over x^2 + y^2, d x and d (x^2 + y^2) / x. */
  lemma XLeads(sys: System, q: real, x: real, y: real)
    requires sys.Square(N) && sys.rows == NormalRows(q, x, y)
    requires 0.0 <= q < Abs(x) && Abs(y) <= Abs(x) && Spread(q, x, y) >= 0.0
    ensures Reduce(sys, 0).Some? <==> Usable(q, x, y)
  {
    UsableX(q, x, y);
    assert sys.rows[2][0] == x;
    hide Reduce, Ratios, Spread, Usable, NormalRows, Leads, Abs;
    if Abs(x) < PIVOT_MIN {
      FirstFails(sys, 2);
    } else {
      assert x != 0.0 by {
        NonZero(x);
      }
      var w, s, p, g, d := RatiosHold(q, x, y);
      XDecides(sys, q, x, y, w, s, p, g, d);
    }
  }

  lemma NonZero(a: real)
    ensures Abs(a) >= PIVOT_MIN ==> a != 0.0
  {
  }

  // y in front: the same with the rows and signs of y

  lemma YFirst(q: real, x: real, y: real, w: real, s: real, p: real, g: real, d: real)
    requires Ratios(q, y, x, w, s, p, g, d)
    ensures var r0 := [y, x, 0.0, 5.0];
            && ClearedRow([0.0, q, -y, x], r0, 0) == [0.0, q, -y, x]
            && ClearedRow([x, -y, 5.0, 0.0], r0, 0) == [0.0, -p, 5.0, -5.0 * w]
            && ClearedRow([q, 0.0, x, y], r0, 0) == [0.0, -(s * x), x, y - 5.0 * s]
  {
    hide ClearedRow;
    ClearEntries(0.0, q, -y, x, y, x, 0.0, 5.0, 0, 0.0, 0.0, q, -y, x);
    ClearEntries(x, -y, 5.0, 0.0, y, x, 0.0, 5.0, 0, w, 0.0, -p, 5.0, -5.0 * w);
    ClearEntries(q, 0.0, x, y, y, x, 0.0, 5.0, 0, s, 0.0, -(s * x), x, y - 5.0 * s);
  }

  lemma YSecond(q: real, x: real, y: real, w: real, s: real, p: real, g: real, d: real)
    requires Ratios(q, y, x, w, s, p, g, d)
    ensures var r1 := [0.0, -p, 5.0, -5.0 * w];
            && ClearedRow([0.0, q, -y, x], r1, 1) == [0.0, 0.0, d * y, -(d * x)]
            && ClearedRow([0.0, -(s * x), x, y - 5.0 * s], r1, 1) == [0.0, 0.0, -(d * x), -(d * y)]
  {
    hide ClearedRow;
    var f := g * w;
    assert (-g) * (-p) == q && f * (-p) == -(s * x);
    assert (-g) * (-5.0 * w) == 5.0 * f && f * (-5.0 * w) == -5.0 * (f * w);
    ClearEntries(0.0, q, -y, x, 0.0, -p, 5.0, -5.0 * w, 1, -g, 0.0, 0.0, d * y, -(d * x));
    ClearEntries(0.0, -(s * x), x, y - 5.0 * s, 0.0, -p, 5.0, -5.0 * w, 1, f, 0.0, 0.0, -(d * x), -(d * y));
  }

  lemma YThird(a: real, b: real, w: real, e: real)
    requires a != 0.0 && w * a == b && e == a + w * b
    ensures ClearedRow([0.0, 0.0, -b, -a], [0.0, 0.0, a, -b], 2) == [0.0, 0.0, 0.0, -e]
  {
    hide ClearedRow;
    assert (-w) * a == -b;
    assert (-w) * (-b) == w * b;
    ClearEntries(0.0, 0.0, -b, -a, 0.0, 0.0, a, -b, 2, -w, 0.0, 0.0, 0.0, -e);
  }

  lemma YRun(sys: System, q: real, x: real, y: real, w: real, p: real, c3: Vector, d2: Vector, d3: Vector, e3: Vector)
    requires sys.Square(N) && sys.rows == NormalRows(q, x, y) && Leads(sys.rows, 0, 3)
    requires |c3| == |d2| == |d3| == |e3| == N && Abs(y) >= PIVOT_MIN && Abs(p) >= Abs(y)
    requires 0.0 <= q < Abs(p) && Abs(c3[1]) < Abs(p)
    requires var r0, r1, c2 := [y, x, 0.0, 5.0], [0.0, q, -y, x], [0.0, -p, 5.0, -5.0 * w];
             && ClearedRow(r1, r0, 0) == r1
             && ClearedRow([x, -y, 5.0, 0.0], r0, 0) == c2 && ClearedRow([q, 0.0, x, y], r0, 0) == c3
             && ClearedRow(r1, c2, 1) == d2 && ClearedRow(c3, c2, 1) == d3
    requires Abs(d3[2]) <= Abs(d2[2]) && (d2[2] != 0.0 ==> e3 == ClearedRow(d3, d2, 2) && Abs(e3[3]) >= Abs(d2[2]))
    ensures Reduce(sys, 0).Some? <==> Abs(d2[2]) >= PIVOT_MIN
  {
    hide ClearedRow, Reduce;
    var r0, r1, c2 := [y, x, 0.0, 5.0], [0.0, q, -y, x], [0.0, -p, 5.0, -5.0 * w];
    var t := FirstColumn(sys, 3, r0, r1, [x, -y, 5.0, 0.0], [q, 0.0, x, y], r1, c2, c3);
    assert Leads(t.rows, 1, 2);
    var t' := SecondColumn(t, 2, r0, c2, r1, c3, d2, d3);
    LastColumns(t', r0, c2, d2, d3, e3);
  }

  /** The rows met while y leads, as XRows has them. */
  predicate YRows(q: real, x: real, y: real, w: real, p: real, c3: Vector, a: real, b: real) {
    var r0, r1, c2 := [y, x, 0.0, 5.0], [0.0, q, -y, x], [0.0, -p, 5.0, -5.0 * w];
    && |c3| == N && y != 0.0 && p != 0.0
    && ClearedRow(r1, r0, 0) == r1
    && ClearedRow([x, -y, 5.0, 0.0], r0, 0) == c2 && ClearedRow([q, 0.0, x, y], r0, 0) == c3
    && ClearedRow(r1, c2, 1) == [0.0, 0.0, a, -b] && ClearedRow(c3, c2, 1) == [0.0, 0.0, -b, -a]
  }

  lemma YRowsHold(q: real, x: real, y: real, w: real, s: real, p: real, g: real, d: real)
    requires Ratios(q, y, x, w, s, p, g, d)
    ensures YRows(q, x, y, w, p, [0.0, -(s * x), x, y - 5.0 * s], d * y, d * x)
  {
    YFirst(q, x, y, w, s, p, g, d);
    YSecond(q, x, y, w, s, p, g, d);
    assert y != 0.0 && p != 0.0;
    hide ClearedRow, Ratios;
  }

  lemma YPasses(sys: System, q: real, x: real, y: real, w: real, p: real, c3: Vector, a: real, b: real, e: real)
    requires sys.Square(N) && sys.rows == NormalRows(q, x, y) && Leads(sys.rows, 0, 3)
    requires YRows(q, x, y, w, p, c3, a, b)
    requires 0.0 <= q < Abs(p) && PIVOT_MIN <= Abs(y) <= Abs(p) && Abs(c3[1]) < Abs(p)
    requires Abs(b) <= Abs(a) <= Abs(e) && w * a == b && e == a + w * b
    ensures Reduce(sys, 0).Some? <==> Abs(a) >= PIVOT_MIN
  {
    hide ClearedRow, Reduce, NormalRows, Leads;
    if a != 0.0 {
      YThird(a, b, w, e);
    }
    YRun(sys, q, x, y, w, p, c3, [0.0, 0.0, a, -b], [0.0, 0.0, -b, -a], [0.0, 0.0, 0.0, -e]);
  }

  lemma Negated(a: real)
    ensures Abs(-a) == Abs(a)
  {
  }

  lemma YDecides(sys: System, q: real, x: real, y: real, w: real, s: real, p: real, g: real, d: real)
    requires sys.Square(N) && sys.rows == NormalRows(q, x, y) && Leads(sys.rows, 0, 3)
    requires 0.0 <= q < Abs(y) && Abs(x) <= Abs(y) && Abs(y) >= PIVOT_MIN && Spread(q, y, x) >= 0.0
    requires Ratios(q, y, x, w, s, p, g, d)
    ensures Reduce(sys, 0).Some? <==> Abs(y) * Spread(q, y, x) >= PIVOT_MIN * (y * y + x * x)
  {
    hide ClearedRow, Reduce, NormalRows, Leads, Spread, Abs, Ratios, YRows;
    YRowsHold(q, x, y, w, s, p, g, d);
    var a, b, e := Magnitudes(q, y, x, w, s, p, g, d);
    Negated(s * x);
    YPasses(sys, q, x, y, w, p, [0.0, -(s * x), x, y - 5.0 * s], a, b, e);
  }

  lemma UsableY(q: real, x: real, y: real)
    requires 0.0 <= q < Abs(y) && Abs(x) < Abs(y)
    ensures FourByFour(NormalRows(q, x, y)) && Leads(NormalRows(q, x, y), 0, 3)
    ensures Spread(q, x, y) == Spread(q, y, x)
    ensures Usable(q, x, y) <==> Abs(y) >= PIVOT_MIN && Abs(y) * Spread(q, y, x) >= PIVOT_MIN * (y * y + x * x)
  {
    assert Spread(q, x, y) == Spread(q, y, x) && x * x + y * y == y * y + x * x;
    hide Spread;
  }

  lemma YLeads(sys: System, q: real, x: real, y: real)
    requires sys.Square(N) && sys.rows == NormalRows(q, x, y)
    requires 0.0 <= q < Abs(y) && Abs(x) < Abs(y) && Spread(q, x, y) >= 0.0
    ensures Reduce(sys, 0).Some? <==> Usable(q, x, y)
  {
    UsableY(q, x, y);
    assert sys.rows[3][0] == y;
    hide Reduce, Ratios, Spread, Usable, NormalRows, Leads, Abs;
    if Abs(y) < PIVOT_MIN {
      FirstFails(sys, 3);
    } else {
      assert y != 0.0 by {
        NonZero(y);
      }
      var w, s, p, g, d := RatiosHold(q, y, x);
      YDecides(sys, q, x, y, w, s, p, g, d);
    }
  }

  /** Elimination of the normal equations succeeds if and only if their parameters are usable. */
  lemma ReducesExactly(sys: System, q: real, x: real, y: real)
    requires sys.Square(N) && sys.rows == NormalRows(q, x, y) && q >= 0.0 && Spread(q, x, y) >= 0.0
    ensures Reduce(sys, 0).Some? <==> Usable(q, x, y)
  {
    hide Reduce, Usable, Spread, NormalRows;
    if q >= Abs(x) && q >= Abs(y) {
      SquaresLead(sys, q, x, y);
    } else if Abs(x) >= Abs(y) {
      XLeads(sys, q, x, y);
    } else {
      YLeads(sys, q, x, y);
    }
  }
}
