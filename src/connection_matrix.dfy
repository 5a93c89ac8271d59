// The adjacency matrix of src/layout/connection_matrix.js: an n x n
// matrix of 0s in which every bond writes a 1 at both of its positions.

module ConnectionMatrix {
  import opened MolGraph

  /** Some bond joins atoms i and j, in one direction or the other. */
  predicate Bonded(g: Graph, i: nat, j: nat)
  {
    exists b :: 0 <= b < |g.bonds| && (g.bonds[b] == (i, j) || g.bonds[b] == (j, i))
  }

  /** Some bond among the first k joins atoms i and j. */
  predicate BondedBefore(g: Graph, k: nat, i: nat, j: nat)
    requires k <= |g.bonds|
  {
    k > 0 && (BondedBefore(g, k - 1, i, j) || g.bonds[k - 1] == (i, j) || g.bonds[k - 1] == (j, i))
  }

  /** Scanning all the bonds finds exactly the bonded pairs. */
  lemma {:induction false} BondedBeforeAll(g: Graph, k: nat, i: nat, j: nat)
    requires k <= |g.bonds|
    ensures BondedBefore(g, k, i, j) <==>
      exists b :: 0 <= b < k && (g.bonds[b] == (i, j) || g.bonds[b] == (j, i))
  {
    if k > 0 {
      BondedBeforeAll(g, k - 1, i, j);
      if BondedBefore(g, k, i, j) && !BondedBefore(g, k - 1, i, j) {
        assert g.bonds[k - 1] == (i, j) || g.bonds[k - 1] == (j, i);
      }
    }
  }

  /** `getMatrix` (connection_matrix.js:5-27): entry [i][j] is 1 exactly
      when some bond joins i and j, and 0 otherwise; so the matrix is
      symmetric and holds only 0s and 1s.  Every bond endpoint is an atom
      of the molecule (an absent one would index row -1). */
  method GetMatrix(g: Graph) returns (m: array2<int>)
    requires g.WellFormed()
    ensures fresh(m) && m.Length0 == g.atomCount && m.Length1 == g.atomCount
    ensures forall i, j :: 0 <= i < g.atomCount && 0 <= j < g.atomCount ==>
      (m[i, j] == 1 <==> Bonded(g, i, j)) && (m[i, j] == 0 || m[i, j] == 1)
    ensures forall i, j :: 0 <= i < g.atomCount && 0 <= j < g.atomCount ==> m[i, j] == m[j, i]
  {
    var n := g.atomCount;
    m := new int[n, n];
    for i := 0 to n
      invariant forall a, b :: 0 <= a < i && 0 <= b < n ==> m[a, b] == 0
    {
      for j := 0 to n
        invariant forall a, b :: 0 <= a < i && 0 <= b < n ==> m[a, b] == 0
        invariant forall b :: 0 <= b < j ==> m[i, b] == 0
      {
        m[i, j] := 0;
      }
    }
    for f := 0 to |g.bonds|
      invariant forall a, b :: 0 <= a < n && 0 <= b < n ==>
        m[a, b] == if BondedBefore(g, f, a, b) then 1 else 0
    {
      var s := g.bonds[f].0;
      var t := g.bonds[f].1;
      m[s, t] := 1;
      m[t, s] := 1;
    }
    forall i, j | 0 <= i < n && 0 <= j < n
      ensures (m[i, j] == 1 <==> Bonded(g, i, j)) && m[i, j] == m[j, i]
    {
      BondedBeforeAll(g, |g.bonds|, i, j);
      BondedBeforeAll(g, |g.bonds|, j, i);
    }
  }
}
