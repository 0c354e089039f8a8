/** Vectors of reals and square linear systems, with the row operations that keep their solutions. */
module LinAlg {

  type Vector = seq<real>

  function Dot(a: Vector, x: Vector): real
    requires |a| == |x|
  {
    if a == [] then 0.0 else a[0] * x[0] + Dot(a[1..], x[1..])
  }

  /** a + k b */
  function AddScaled(a: Vector, k: real, b: Vector): (r: Vector)
    requires |a| == |b|
    ensures |r| == |a| && forall i :: 0 <= i < |a| ==> r[i] == a[i] + k * b[i]
  {
    if a == [] then [] else [a[0] + k * b[0]] + AddScaled(a[1..], k, b[1..])
  }

  lemma {:induction false} DotAddScaled(a: Vector, k: real, b: Vector, x: Vector)
    requires |a| == |b| == |x|
    ensures Dot(AddScaled(a, k, b), x) == Dot(a, x) + k * Dot(b, x)
  {
    if a != [] {
      DotAddScaled(a[1..], k, b[1..], x[1..]);
      var s := AddScaled(a, k, b);
      assert s[1..] == AddScaled(a[1..], k, b[1..]);
      assert s[0] * x[0] == a[0] * x[0] + k * (b[0] * x[0]);
    }
  }

  lemma {:induction false} DotCommutes(a: Vector, x: Vector)
    requires |a| == |x|
    ensures Dot(a, x) == Dot(x, a)
  {
    if a != [] {
      DotCommutes(a[1..], x[1..]);
    }
  }

  /** Additive in the second argument too. */
  lemma {:induction false} DotSum(a: Vector, x: Vector, d: Vector, y: Vector)
    requires |a| == |x| == |d| == |y| && forall i :: 0 <= i < |a| ==> y[i] == x[i] + d[i]
    ensures Dot(a, y) == Dot(a, x) + Dot(a, d)
  {
    if a != [] {
      DotSum(a[1..], x[1..], d[1..], y[1..]);
      assert a[0] * y[0] == a[0] * x[0] + a[0] * d[0];
    }
  }

  lemma DotPlus(a: Vector, x: Vector, d: Vector)
    requires |a| == |x| == |d|
    ensures Dot(a, AddScaled(x, 1.0, d)) == Dot(a, x) + Dot(a, d)
  {
    hide Dot, AddScaled;
    DotSum(a, x, d, AddScaled(x, 1.0, d));
  }

  lemma {:induction false} DotZero(a: Vector, x: Vector)
    requires |a| == |x| && forall i :: 0 <= i < |a| ==> x[i] == 0.0
    ensures Dot(a, x) == 0.0
  {
    if a != [] {
      DotZero(a[1..], x[1..]);
    }
  }

  /** Leading zeros of the row do not matter. */
  lemma {:induction false} DotFrom(a: Vector, x: Vector, k: nat)
    requires |a| == |x| && k <= |a| && forall i :: 0 <= i < k ==> a[i] == 0.0
    ensures Dot(a, x) == Dot(a[k..], x[k..])
  {
    if k == 0 {
      assert a[0..] == a && x[0..] == x;
    } else {
      DotFrom(a[1..], x[1..], k - 1);
      assert a[1..][k - 1..] == a[k..] && x[1..][k - 1..] == x[k..];
    }
  }

  lemma DotCons(a: Vector, x: Vector)
    requires |a| == |x| > 0
    ensures Dot(a, x) == a[0] * x[0] + Dot(a[1..], x[1..])
  {
  }

  /** A row that starts at column k, split into its first entry and the rest. */
  lemma DotSplit(a: Vector, x: Vector, k: nat)
    requires |a| == |x| && k < |a| && forall i :: 0 <= i < k ==> a[i] == 0.0
    ensures Dot(a, x) == a[k] * x[k] + Dot(a[k + 1..], x[k + 1..])
  {
    hide Dot;
    DotFrom(a, x, k);
    DotCons(a[k..], x[k..]);
    assert a[k..][1..] == a[k + 1..] && x[k..][1..] == x[k + 1..];
  }

  lemma Cancel(a: real, x: real, y: real)
    requires a != 0.0 && a * x == a * y
    ensures x == y
  {
    assert a * (x - y) == 0.0;
  }

  // ---------- systems ----------

  datatype System = System(rows: seq<Vector>, rhs: Vector) {
    predicate Square(n: nat) {
      |rows| == n && |rhs| == n && forall i :: 0 <= i < n ==> |rows[i]| == n
    }

    predicate Solves(n: nat, x: Vector)
      requires Square(n) && |x| == n
    {
      forall i :: 0 <= i < n ==> Dot(rows[i], x) == rhs[i]
    }
  }

  /** Two systems with the same solutions. */
  ghost predicate Equivalent(n: nat, s: System, t: System) {
    s.Square(n) && t.Square(n) && forall x: Vector :: |x| == n ==> (s.Solves(n, x) <==> t.Solves(n, x))
  }

  function SwapRows(s: System, i: nat, j: nat): System
    requires i < |s.rows| && j < |s.rows| && |s.rhs| == |s.rows|
  {
    System(s.rows[i := s.rows[j]][j := s.rows[i]], s.rhs[i := s.rhs[j]][j := s.rhs[i]])
  }

  /** Row r plus k times row i. */
  function AddRow(s: System, r: nat, k: real, i: nat): System
    requires r < |s.rows| && i < |s.rows| && |s.rhs| == |s.rows| && |s.rows[r]| == |s.rows[i]|
  {
    System(s.rows[r := AddScaled(s.rows[r], k, s.rows[i])], s.rhs[r := s.rhs[r] + k * s.rhs[i]])
  }

  lemma SwapEquivalent(n: nat, s: System, i: nat, j: nat)
    requires s.Square(n) && i < n && j < n
    ensures Equivalent(n, SwapRows(s, i, j), s)
  {
    hide Dot;
    var t := SwapRows(s, i, j);
    forall x: Vector | |x| == n ensures s.Solves(n, x) <==> t.Solves(n, x) {
      assert t.rows[i] == s.rows[j] && t.rows[j] == s.rows[i];
      if t.Solves(n, x) {
        forall k | 0 <= k < n ensures Dot(s.rows[k], x) == s.rhs[k] {
          var k' := if k == i then j else if k == j then i else k;
          assert Dot(t.rows[k'], x) == t.rhs[k'];
        }
      }
    }
  }

  lemma AddRowEquivalent(n: nat, s: System, r: nat, k: real, i: nat)
    requires s.Square(n) && r < n && i < n && r != i
    ensures Equivalent(n, AddRow(s, r, k, i), s)
  {
    var t := AddRow(s, r, k, i);
    forall x: Vector | |x| == n ensures s.Solves(n, x) <==> t.Solves(n, x) {
      DotAddScaled(s.rows[r], k, s.rows[i], x);
      if t.Solves(n, x) {
        assert Dot(t.rows[i], x) == t.rhs[i] && Dot(t.rows[r], x) == t.rhs[r];
        forall j | 0 <= j < n ensures Dot(s.rows[j], x) == s.rhs[j] {
          assert Dot(t.rows[j], x) == t.rhs[j];
        }
      }
    }
  }

  lemma EquivalentRefl(n: nat, s: System)
    requires s.Square(n)
    ensures Equivalent(n, s, s)
  {
  }

  lemma EquivalentTrans(n: nat, s: System, t: System, u: System)
    requires Equivalent(n, s, t) && Equivalent(n, t, u)
    ensures Equivalent(n, s, u)
  {
    forall x: Vector | |x| == n ensures s.Solves(n, x) <==> u.Solves(n, x) {
      assert s.Solves(n, x) <==> t.Solves(n, x);
    }
  }

  /** Zero below the diagonal in the first k columns, with non-zero diagonal entries there. */
  predicate Triangular(n: nat, s: System, k: nat)
    requires s.Square(n) && k <= n
  {
    && (forall r, c :: 0 <= c < k && c < r < n ==> s.rows[r][c] == 0.0)
    && (forall d :: 0 <= d < k ==> s.rows[d][d] != 0.0)
  }

  /** A triangular system has at most one solution. */
  lemma {:induction false} TriangularUnique(n: nat, s: System, x: Vector, y: Vector, i: nat)
    requires s.Square(n) && Triangular(n, s, n) && |x| == |y| == n && i <= n
    requires s.Solves(n, x) && s.Solves(n, y)
    ensures x[i..] == y[i..]
    decreases n - i
  {
    hide Dot;
    if i < n {
      TriangularUnique(n, s, x, y, i + 1);
      var a := s.rows[i];
      DotSplit(a, x, i);
      DotSplit(a, y, i);
      assert Dot(a, x) == s.rhs[i] && Dot(a, y) == s.rhs[i];
      Cancel(a[i], x[i], y[i]);
      assert x[i..] == [x[i]] + x[i + 1..] && y[i..] == [y[i]] + y[i + 1..];
    }
  }
}
