/** Gaussian elimination with partial pivoting, in place on the matrix rows and right-hand side. */
module Solve {
  import opened Wrappers
  import opened LinAlg

  const N: nat := 4
  const PIVOT_MIN: real := 0.000000000001

  function Abs(x: real): real {
    if x < 0.0 then -x else x
  }

  /** The system held in the two arrays. */
  function Held(m: array<Vector>, b: array<real>): System
    reads m, b
  {
    System(m[..], b[..])
  }

  ghost predicate Shaped(m: array<Vector>, b: array<real>)
    reads m, b
  {
    Held(m, b).Square(N)
  }

  // ---------- elimination as a function ----------

  /** The first of rows i..r-1 with the largest entry in column i. */
  function Best(s: System, i: nat, r: nat): (pivot: nat)
    requires s.Square(N) && i < r <= N
    ensures i <= pivot < r && forall k :: i <= k < r ==> Abs(s.rows[k][i]) <= Abs(s.rows[pivot][i])
  {
    if r == i + 1 then i
    else
      var p := Best(s, i, r - 1);
      if Abs(s.rows[r - 1][i]) > Abs(s.rows[p][i]) then r - 1 else p
  }

  /** Row i taken off row r, so often that column i of row r becomes zero. */
  function ClearRow(s: System, i: nat, r: nat): (t: System)
    requires s.Square(N) && i < r < N && s.rows[i][i] != 0.0
    ensures t.Square(N) && t.rows[i] == s.rows[i]
  {
    AddRow(s, r, -(s.rows[r][i] / s.rows[i][i]), i)
  }

  /** Column i cleared in rows i+1..r-1. */
  function ClearRows(s: System, i: nat, r: nat): (t: System)
    requires s.Square(N) && i < r <= N && s.rows[i][i] != 0.0
    ensures t.Square(N) && t.rows[i] == s.rows[i]
  {
    if r == i + 1 then s else ClearRow(ClearRows(s, i, r - 1), i, r - 1)
  }

  /** The largest entry of column i brought to the diagonal. */
  function Pivoted(s: System, i: nat): (t: System)
    requires s.Square(N) && i < N
    ensures t.Square(N) && t.rows[i] == s.rows[Best(s, i, N)]
  {
    SwapRows(s, i, Best(s, i, N))
  }

  /** The triangular form of columns i..N-1, unless one of their pivots falls short. */
  function Reduce(s: System, i: nat): Option<System>
    requires s.Square(N) && i <= N
    decreases N - i
  {
    if i == N then Some(s)
    else
      var t := Pivoted(s, i);
      if Abs(t.rows[i][i]) < PIVOT_MIN then None else Reduce(ClearRows(t, i, N), i + 1)
  }

  // ---------- the loops ----------

  /** The row at or below i with the largest entry in column i. */
  method FindPivot(m: array<Vector>, b: array<real>, i: nat) returns (pivot: nat)
    requires Shaped(m, b) && i < N
    ensures pivot == Best(Held(m, b), i, N)
  {
    pivot := i;
    for r := i + 1 to N
      invariant pivot == Best(Held(m, b), i, r)
    {
      if Abs(m[r][i]) > Abs(m[pivot][i]) {
        pivot := r;
      }
    }
  }

  lemma SubtractIsAdd(x: real, f: real, y: real)
    ensures x - f * y == x + (-f) * y
  {
  }

  /** Subtract f times the pivot row, entry by entry from column i on; the pivot row is zero before
      column i, so this is the whole row operation. */
  method SubtractScaled(row: Vector, f: real, pivotRow: Vector, i: nat) returns (out: Vector)
    requires |row| == |pivotRow| == N && i < N
    requires forall c :: 0 <= c < i ==> pivotRow[c] == 0.0
    ensures out == AddScaled(row, -f, pivotRow)
  {
    ghost var goal := AddScaled(row, -f, pivotRow);
    out := row;
    for c := i to N
      invariant |out| == N && forall k :: 0 <= k < N ==> out[k] == if k < c then goal[k] else row[k]
    {
      SubtractIsAdd(out[c], f, pivotRow[c]);
      out := out[c := out[c] - f * pivotRow[c]];
    }
  }

  method EliminateRow(m: array<Vector>, b: array<real>, i: nat, r: nat)
    requires Shaped(m, b) && i < r < N && m[i][i] != 0.0
    requires forall c :: 0 <= c < i ==> m[i][c] == 0.0
    modifies m, b
    ensures Shaped(m, b) && Held(m, b) == ClearRow(old(Held(m, b)), i, r)
  {
    hide AddScaled;
    var f := m[r][i] / m[i][i];
    var row := SubtractScaled(m[r], f, m[i], i);
    SubtractIsAdd(b[r], f, b[i]);
    var entry := b[r] - f * b[i];
    m[r] := row;
    b[r] := entry;
    assert m[..] == old(m[..])[r := row] && b[..] == old(b[..])[r := entry];
  }

  method EliminateColumn(m: array<Vector>, b: array<real>, i: nat)
    requires Shaped(m, b) && i < N && m[i][i] != 0.0
    requires forall c :: 0 <= c < i ==> m[i][c] == 0.0
    modifies m, b
    ensures Shaped(m, b) && Held(m, b) == ClearRows(old(Held(m, b)), i, N)
  {
    hide ClearRow;
    for r := i + 1 to N
      invariant Shaped(m, b) && Held(m, b) == ClearRows(old(Held(m, b)), i, r)
    {
      assert Held(m, b).rows[i] == old(Held(m, b)).rows[i];
      EliminateRow(m, b, i, r);
    }
  }

  method BringUp(m: array<Vector>, b: array<real>, i: nat, pivot: nat)
    requires Shaped(m, b) && i < N && pivot == Best(Held(m, b), i, N)
    modifies m, b
    ensures Shaped(m, b) && Held(m, b) == Pivoted(old(Held(m, b)), i)
  {
    m[i], m[pivot] := m[pivot], m[i];
    b[i], b[pivot] := b[pivot], b[i];
  }

  /** Forward elimination: the reduced system in place, or failure exactly when a pivot falls short. */
  method Eliminate(m: array<Vector>, b: array<real>) returns (ok: bool)
    requires Shaped(m, b)
    modifies m, b
    ensures ok <==> Reduce(old(Held(m, b)), 0).Some?
    ensures ok ==> Shaped(m, b) && Held(m, b) == Reduce(old(Held(m, b)), 0).value
  {
    hide ClearRows, Pivoted, Equivalent, Dot;
    for i := 0 to N
      invariant Shaped(m, b) && Triangular(N, Held(m, b), i)
      invariant Reduce(Held(m, b), i) == Reduce(old(Held(m, b)), 0)
    {
      ghost var s := Held(m, b);
      var pivot := FindPivot(m, b, i);
      if Abs(m[pivot][i]) < PIVOT_MIN {
        return false;
      }
      BringUp(m, b, i, pivot);
      StageFacts(s, i);
      EliminateColumn(m, b, i);
    }
    return true;
  }

  // ---------- what elimination keeps ----------

  /** The row operation clears the entry under the pivot and keeps what was already cleared. */
  lemma ClearsEntry(s: System, r: nat, i: nat)
    requires s.Square(N) && i < r < N && Triangular(N, s, i) && s.rows[i][i] != 0.0
    ensures var t := ClearRow(s, i, r);
            && Triangular(N, t, i)
            && t.rows[r][i] == 0.0
            && forall k :: 0 <= k < N && k != r ==> t.rows[k] == s.rows[k]
  {
    var p, q := s.rows[r][i], s.rows[i][i];
    var t := ClearRow(s, i, r);
    assert t.rows[r][i] == p + (-(p / q)) * q;
    assert (p / q) * q == p;
    forall c | 0 <= c < i ensures t.rows[r][c] == 0.0 {
      assert s.rows[r][c] == 0.0 && s.rows[i][c] == 0.0;
    }
  }

  /** Column i is cleared in rows up to r. */
  predicate Cleared(s: System, i: nat, r: nat)
    requires i < N && r <= N
  {
    && s.Square(N) && Triangular(N, s, i) && s.rows[i][i] != 0.0
    && forall k :: i < k < r ==> s.rows[k][i] == 0.0
  }

  lemma {:induction false} ClearsColumn(s: System, i: nat, r: nat)
    requires s.Square(N) && i < r <= N && Triangular(N, s, i) && s.rows[i][i] != 0.0
    ensures Cleared(ClearRows(s, i, r), i, r) && Equivalent(N, ClearRows(s, i, r), s)
  {
    hide Dot, AddScaled, Equivalent, ClearRow;
    if r == i + 1 {
      EquivalentRefl(N, s);
    } else {
      var t := ClearRows(s, i, r - 1);
      ClearsColumn(s, i, r - 1);
      ClearsEntry(t, r - 1, i);
      ClearEquivalent(t, i, r - 1);
      EquivalentTrans(N, ClearRow(t, i, r - 1), t, s);
    }
  }

  lemma ClearEquivalent(s: System, i: nat, r: nat)
    requires s.Square(N) && i < r < N && s.rows[i][i] != 0.0
    ensures Equivalent(N, ClearRow(s, i, r), s)
  {
    hide Dot, AddScaled, Equivalent;
    AddRowEquivalent(N, s, r, -(s.rows[r][i] / s.rows[i][i]), i);
  }

  lemma SwapKeepsTriangular(s: System, i: nat, j: nat)
    requires s.Square(N) && i <= j < N && Triangular(N, s, i)
    ensures SwapRows(s, i, j).Square(N) && Triangular(N, SwapRows(s, i, j), i)
  {
  }

  /** One column: triangular one column further, with the same solutions. */
  lemma StageFacts(s: System, i: nat)
    requires s.Square(N) && i < N && Triangular(N, s, i) && Pivoted(s, i).rows[i][i] != 0.0
    ensures Triangular(N, Pivoted(s, i), i)
    ensures Triangular(N, ClearRows(Pivoted(s, i), i, N), i + 1)
    ensures Equivalent(N, ClearRows(Pivoted(s, i), i, N), s)
  {
    hide Dot, AddScaled, Equivalent, ClearRows, Best;
    var t := Pivoted(s, i);
    SwapKeepsTriangular(s, i, Best(s, i, N));
    SwapEquivalent(N, s, i, Best(s, i, N));
    ClearsColumn(t, i, N);
    EquivalentTrans(N, ClearRows(t, i, N), t, s);
  }

  /** The reduced system is triangular and has the solutions of the original. */
  lemma {:induction false} ReduceFacts(s: System, i: nat)
    requires s.Square(N) && i <= N && Triangular(N, s, i) && Reduce(s, i).Some?
    ensures var t := Reduce(s, i).value;
            t.Square(N) && Triangular(N, t, N) && Equivalent(N, t, s)
    decreases N - i
  {
    hide Dot, Equivalent, ClearRows, Pivoted;
    if i == N {
      EquivalentRefl(N, s);
    } else {
      var t := ClearRows(Pivoted(s, i), i, N);
      StageFacts(s, i);
      ReduceFacts(t, i + 1);
      EquivalentTrans(N, Reduce(s, i).value, t, s);
    }
  }

  /** Right-hand side less the terms already known: columns after i. */
  method Remainder(row: Vector, x: Vector, rhs: real, i: nat) returns (s: real)
    requires |row| == |x| == N && i < N
    ensures s == rhs - Dot(row[i + 1..], x[i + 1..])
  {
    s := rhs;
    for c := i + 1 to N
      invariant s == rhs - (Dot(row[i + 1..], x[i + 1..]) - Dot(row[c..], x[c..]))
    {
      assert row[c..][1..] == row[c + 1..] && x[c..][1..] == x[c + 1..];
      s := s - row[c] * x[c];
    }
    assert row[N..] == [] && x[N..] == [];
  }

  /** The entry that the remainder leaves for column i solves the row. */
  lemma RowSolved(row: Vector, x: Vector, rhs: real, i: nat, s: real)
    requires |row| == |x| == N && i < N && row[i] != 0.0 && forall c :: 0 <= c < i ==> row[c] == 0.0
    requires s == rhs - Dot(row[i + 1..], x[i + 1..]) && x[i] == s / row[i]
    ensures Dot(row, x) == rhs
  {
    hide Dot;
    DotSplit(row, x, i);
    assert row[i] * (s / row[i]) == s;
  }

  /** Rows that start after column i do not notice a change there. */
  lemma RowUnaffected(row: Vector, x: Vector, y: Vector, i: nat)
    requires |row| == |x| == |y| == N && i < N && x[i + 1..] == y[i + 1..] && forall c :: 0 <= c <= i ==> row[c] == 0.0
    ensures Dot(row, x) == Dot(row, y)
  {
    DotFrom(row, x, i + 1);
    DotFrom(row, y, i + 1);
  }

  /** Solve a triangular system from the last row up. */
  method BackSubstitute(m: array<Vector>, b: array<real>) returns (x: Vector)
    requires Shaped(m, b) && Triangular(N, Held(m, b), N)
    ensures |x| == N && Held(m, b).Solves(N, x)
  {
    hide Dot;
    x := [0.0, 0.0, 0.0, 0.0];
    var i := N;
    while i > 0
      invariant 0 <= i <= N && |x| == N
      invariant forall r :: i <= r < N ==> Dot(m[r], x) == b[r]
    {
      i := i - 1;
      ghost var y := x;
      var s := Remainder(m[i], x, b[i], i);
      x := x[i := s / m[i][i]];
      assert x[i + 1..] == y[i + 1..];
      RowSolved(m[i], x, b[i], i, s);
      forall r | i < r < N ensures Dot(m[r], x) == b[r] {
        RowUnaffected(m[r], x, y, i);
      }
    }
  }

  /**
   Elimination returns a vector exactly when no pivot of the functional elimination falls short, and
   that vector is the unique solution of the system it was given.
   */
  method Solve4(m: array<Vector>, b: array<real>) returns (r: Option<Vector>)
    requires Shaped(m, b)
    modifies m, b
    ensures r.Some? <==> Reduce(old(Held(m, b)), 0).Some?
    ensures r.Some? ==> |r.value| == N && old(Held(m, b)).Solves(N, r.value)
    ensures r.Some? ==> forall y: Vector :: |y| == N && old(Held(m, b)).Solves(N, y) ==> y == r.value
  {
    hide Dot, AddScaled, Reduce;
    ghost var s := Held(m, b);
    var ok := Eliminate(m, b);
    if !ok {
      return None;
    }
    ReduceFacts(s, 0);
    var x := BackSubstitute(m, b);
    ghost var t := Held(m, b);
    assert s.Solves(N, x);
    forall y: Vector | |y| == N && s.Solves(N, y) ensures y == x {
      assert t.Solves(N, y);
      TriangularUnique(N, t, y, x, 0);
      assert y[0..] == y && x[0..] == x;
    }
    return Some(x);
  }
}
