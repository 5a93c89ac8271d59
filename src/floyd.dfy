// Floyd's all-pairs relaxation, shared by the two places the source runs
// it in place on a square matrix: the path-included distance matrix of
// src/ring/sssr.js and the all-pairs shortest paths of
// src/layout/atom_placer.js.  Both relax every pair (i, j) through k for
// k = 0, 1, ..., n - 1 and read row k and column k while writing the
// matrix; those two stay fixed during round k because the diagonal is 0.

module Floyd {

  type Matrix = seq<seq<int>>

  predicate Square(m: Matrix, n: nat)
  {
    |m| == n && forall i :: 0 <= i < n ==> |m[i]| == n
  }

  /** The contents of a two-dimensional array, row by row. */
  function Rows(a: array2<int>): (m: Matrix)
    reads a
    ensures |m| == a.Length0
    ensures forall i :: 0 <= i < a.Length0 ==> |m[i]| == a.Length1
    ensures forall i, j :: 0 <= i < a.Length0 && 0 <= j < a.Length1 ==> m[i][j] == a[i, j]
  {
    seq(a.Length0, i requires 0 <= i < a.Length0 reads a => seq(a.Length1, j requires 0 <= i < a.Length0 && 0 <= j < a.Length1 reads a => a[i, j]))
  }

  function Min(a: int, b: int): (r: int)
    ensures r <= a && r <= b && (r == a || r == b)
  {
    if b < a then b else a
  }

  predicate ZeroDiagonal(m: Matrix, n: nat)
    requires Square(m, n)
  {
    forall i :: 0 <= i < n ==> m[i][i] == 0
  }

  predicate NonNegative(m: Matrix, n: nat)
    requires Square(m, n)
  {
    forall i, j :: 0 <= i < n && 0 <= j < n ==> m[i][j] >= 0
  }

  /** m1 is m0 with every pair relaxed through k. */
  predicate RelaxedThrough(m0: Matrix, m1: Matrix, n: nat, k: nat)
    requires Square(m0, n) && Square(m1, n) && k < n
  {
    forall i, j :: 0 <= i < n && 0 <= j < n ==> m1[i][j] == Min(m0[i][j], m0[i][k] + m0[k][j])
  }

  /** The triangle inequality through every intermediate l < k. */
  predicate TriangleBelow(m: Matrix, n: nat, k: nat)
    requires Square(m, n) && k <= n
  {
    forall i, j, l :: 0 <= i < n && 0 <= j < n && 0 <= l < k ==> m[i][j] <= m[i][l] + m[l][j]
  }

  /** No entry of m exceeds the same entry of bound. */
  predicate AtMost(m: Matrix, bound: Matrix, n: nat)
    requires Square(m, n) && Square(bound, n)
  {
    forall i, j :: 0 <= i < n && 0 <= j < n ==> m[i][j] <= bound[i][j]
  }

  /** A round never raises an entry, so it keeps every upper bound. */
  lemma RelaxNoIncrease(m0: Matrix, m1: Matrix, n: nat, k: nat, bound: Matrix)
    requires Square(m0, n) && Square(m1, n) && Square(bound, n) && k < n
    requires RelaxedThrough(m0, m1, n, k) && AtMost(m0, bound, n)
    ensures AtMost(m1, bound, n)
  {
    forall i, j | 0 <= i < n && 0 <= j < n
      ensures m1[i][j] <= bound[i][j]
    {
      assert m1[i][j] == Min(m0[i][j], m0[i][k] + m0[k][j]);
    }
  }

  /** One round keeps the diagonal at 0, the entries non-negative, and
      extends the triangle inequality to intermediate k. */
  lemma RelaxRound(m0: Matrix, m1: Matrix, n: nat, k: nat)
    requires Square(m0, n) && Square(m1, n) && k < n
    requires ZeroDiagonal(m0, n) && NonNegative(m0, n) && TriangleBelow(m0, n, k)
    requires RelaxedThrough(m0, m1, n, k)
    ensures ZeroDiagonal(m1, n) && NonNegative(m1, n) && TriangleBelow(m1, n, k + 1)
  {
    forall i, j | 0 <= i < n && 0 <= j < n
      ensures m1[i][j] >= 0
    {
      assert m1[i][j] == Min(m0[i][j], m0[i][k] + m0[k][j]);
    }
    forall i | 0 <= i < n
      ensures m1[i][i] == 0
    {
      assert m1[i][i] == Min(m0[i][i], m0[i][k] + m0[k][i]);
    }
    forall i, j, l | 0 <= i < n && 0 <= j < n && 0 <= l < k + 1
      ensures m1[i][j] <= m1[i][l] + m1[l][j]
    {
      assert m1[i][l] == Min(m0[i][l], m0[i][k] + m0[k][l]);
      assert m1[l][j] == Min(m0[l][j], m0[l][k] + m0[k][j]);
      assert m1[i][j] == Min(m0[i][j], m0[i][k] + m0[k][j]);
      if l < k {
        assert m0[i][j] <= m0[i][l] + m0[l][j];
        assert m0[i][k] <= m0[i][l] + m0[l][k];
        assert m0[k][j] <= m0[k][l] + m0[l][j];
      } else {
        assert m0[k][k] == 0;
      }
    }
  }

  /** Row k and column k are unchanged by the round through k. */
  lemma RelaxRoundKeepsPivot(m0: Matrix, m1: Matrix, n: nat, k: nat)
    requires Square(m0, n) && Square(m1, n) && k < n
    requires ZeroDiagonal(m0, n)
    requires RelaxedThrough(m0, m1, n, k)
    ensures forall i :: 0 <= i < n ==> m1[i][k] == m0[i][k] && m1[k][i] == m0[k][i]
  {
    forall i | 0 <= i < n
      ensures m1[i][k] == m0[i][k] && m1[k][i] == m0[k][i]
    {
      assert m1[i][k] == Min(m0[i][k], m0[i][k] + m0[k][k]);
      assert m1[k][i] == Min(m0[k][i], m0[k][k] + m0[k][i]);
    }
  }
}
