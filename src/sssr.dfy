// src/ring/sssr.js: the Smallest Set of Smallest Rings by path-included
// distance matrices (Lee, Kang, Cho, Choi and Kim, PNAS 2009, 106(41),
// 17355-17358).  D holds distances, Pe (Pe1) the shortest paths and Pe'
// (Pe2) the paths one bond longer, each path a list of bond indices.  Ring
// candidates are read off the matrices, sorted by size, and accepted while
// they add something to the set found so far.

module RingSSSR {
  import opened Wrappers
  import opened Seqs
  import opened MolGraph
  import opened Floyd

  /** The distance `createWeightMatrix` gives a pair with no bond. */
  const NoPath: int := 99999999
  /** The one path length `makePIDMatrixes` skips (sssr.js:201). */
  const Invalid: int := 100000000

  /** A path as the list of its bond indices. */
  type Path = seq<nat>

  // ---------------------------------------------------------------------
  // The initial matrices

  /** Entry (i, j) of `createWeightMatrix` (sssr.js:94-110). */
  function Weight(g: Graph, i: nat, j: nat): int
  {
    if i == j then 0 else if FindBond(g, i, j).Some? then 1 else NoPath
  }

  /** Entry (i, j) of `createPIDMatrix` (sssr.js:141-158): the one-bond
      path of the bond `findBond` finds, or no path. */
  function BondPaths(g: Graph, i: nat, j: nat): seq<Path>
  {
    match FindBond(g, i, j)
    case Some(b) => [[b]]
    case None => []
  }

  /** The weight matrix is symmetric, since a bond joins its two atoms in
      both directions. */
  lemma WeightSymmetric(g: Graph, i: nat, j: nat)
    ensures Weight(g, i, j) == Weight(g, j, i)
  {
    FindBondSymmetric(g, i, j);
  }

  method CreateWeightMatrix(g: Graph, n: nat) returns (m: array2<int>)
    ensures fresh(m) && m.Length0 == n && m.Length1 == n
    ensures forall i, j :: 0 <= i < n && 0 <= j < n ==> m[i, j] == Weight(g, i, j)
  {
    m := new int[n, n];
    for i := 0 to n
      invariant forall a, b :: 0 <= a < i && 0 <= b < n ==> m[a, b] == Weight(g, a, b)
    {
      for j := 0 to n
        invariant forall a, b :: 0 <= a < i && 0 <= b < n ==> m[a, b] == Weight(g, a, b)
        invariant forall b :: 0 <= b < j ==> m[i, b] == Weight(g, i, b)
      {
        if i == j {
          m[i, j] := 0;
        } else if FindBond(g, i, j).Some? {
          m[i, j] := 1;
        } else {
          m[i, j] := NoPath;
        }
      }
    }
  }

  method CreatePIDMatrix(g: Graph, n: nat) returns (m: array2<seq<Path>>)
    ensures fresh(m) && m.Length0 == n && m.Length1 == n
    ensures forall i, j :: 0 <= i < n && 0 <= j < n ==> m[i, j] == BondPaths(g, i, j)
  {
    m := new seq<Path>[n, n];
    for i := 0 to n
      invariant forall a, b :: 0 <= a < i && 0 <= b < n ==> m[a, b] == BondPaths(g, a, b)
    {
      for j := 0 to n
        invariant forall a, b :: 0 <= a < i && 0 <= b < n ==> m[a, b] == BondPaths(g, a, b)
        invariant forall b :: 0 <= b < j ==> m[i, b] == BondPaths(g, i, b)
      {
        var bond := FindBond(g, i, j);
        if bond.Some? {
          m[i, j] := [[bond.value]];
        } else {
          m[i, j] := [];
        }
      }
    }
  }

  /** `createEmptyPIDMatrix` (sssr.js:119-130). */
  method CreateEmptyPIDMatrix(n: nat) returns (m: array2<seq<Path>>)
    ensures fresh(m) && m.Length0 == n && m.Length1 == n
    ensures forall i, j :: 0 <= i < n && 0 <= j < n ==> m[i, j] == []
  {
    m := new seq<Path>[n, n];
    for i := 0 to n
      invariant forall a, b :: 0 <= a < i && 0 <= b < n ==> m[a, b] == []
    {
      for j := 0 to n
        invariant forall a, b :: 0 <= a < i && 0 <= b < n ==> m[a, b] == []
        invariant forall b :: 0 <= b < j ==> m[i, b] == []
      {
        m[i, j] := [];
      }
    }
  }

  // ---------------------------------------------------------------------
  // One step of the relaxation

  /** Entry (i, j) of the three matrices D, Pe and Pe'. */
  datatype Entry = Entry(d: int, pe: seq<Path>, pe2: seq<Path>)

  /** `appendPath(lhs, p1, p2)` (sssr.js:167-173): the join of the first
      paths of p1 and p2 is added at the end of lhs; setting index 0 of an
      empty list and pushing onto it come to the same. */
  function AppendPath(lhs: seq<Path>, p1: seq<Path>, p2: seq<Path>): (r: seq<Path>)
    requires p1 != [] && p2 != []
    ensures |r| == |lhs| + 1 && r[..|lhs|] == lhs
  {
    lhs + [p1[0] + p2[0]]
  }

  /** Does the step read the first paths of Pe[i][k] and Pe[k][j]?  It does
      when it finds a strictly shorter path or one exactly one bond longer. */
  predicate ReadsPaths(d: int, sum: int)
  {
    sum != Invalid && (d > sum || d == sum - 1)
  }

  /** The body of the triple loop (sssr.js:195-226) for entry e = (i, j)
      with `pathLength` sum = D[i][k] + D[k][j], p1 = Pe[i][k] and
      p2 = Pe[k][j]. */
  function Relax(e: Entry, sum: int, p1: seq<Path>, p2: seq<Path>): Entry
    requires ReadsPaths(e.d, sum) ==> p1 != [] && p2 != []
  {
    if sum == Invalid then e
    else if e.d > sum then
      Entry(sum, [p1[0] + p2[0]], if e.d == sum + 1 then e.pe else [])
    else if e.d == sum then
      if p1 != [] && p2 != [] then e.(pe := AppendPath(e.pe, p1, p2)) else e
    else if e.d == sum - 1 then e.(pe2 := AppendPath(e.pe2, p1, p2))
    else e
  }

  /** What a step means: D[i][j] becomes the smaller of itself and the sum
      (a skipped sum of 100000000 is never smaller, since D stays at most
      99999999); a strictly shorter path replaces Pe by the one new path and
      keeps the old Pe as Pe' only when it was exactly one bond longer;
      otherwise Pe and Pe' only grow at the end. */
  lemma RelaxMeaning(e: Entry, sum: int, p1: seq<Path>, p2: seq<Path>)
    requires e.d <= NoPath
    requires ReadsPaths(e.d, sum) ==> p1 != [] && p2 != []
    ensures Relax(e, sum, p1, p2).d == Min(e.d, sum)
    ensures var r := Relax(e, sum, p1, p2);
      r.d < e.d ==> r.pe == [p1[0] + p2[0]] && r.pe2 == (if e.d == sum + 1 then e.pe else [])
    ensures var r := Relax(e, sum, p1, p2);
      r.d == e.d ==> e.pe <= r.pe && e.pe2 <= r.pe2
    ensures var r := Relax(e, sum, p1, p2);
      r.d == e.d && sum == e.d && p1 != [] && p2 != [] ==> r.pe == e.pe + [p1[0] + p2[0]]
    ensures var r := Relax(e, sum, p1, p2);
      r.d == e.d && sum == e.d + 1 && sum != Invalid ==> r.pe2 == e.pe2 + [p1[0] + p2[0]]
  {
  }

  /** The facts about one entry that the relaxation keeps: the diagonal
      is 0 with no longer paths; elsewhere D lies in 1..99999999, a finite
      distance has a shortest path, only a finite distance has longer
      paths; every path holds bond indices of the molecule. */
  predicate EntryOk(g: Graph, e: Entry, diagonal: bool)
  {
    (diagonal ==> e.d == 0 && e.pe2 == []) &&
    (!diagonal ==> 1 <= e.d <= NoPath && (e.d < NoPath ==> e.pe != []) && (e.pe2 != [] ==> e.d < NoPath)) &&
    PathsOf(g, e.pe) && PathsOf(g, e.pe2)
  }

  /** Every path holds bond indices of g. */
  predicate PathsOf(g: Graph, ps: seq<Path>)
  {
    forall p, b :: p in ps && b in p ==> b < |g.bonds|
  }

  lemma AppendPathsOf(g: Graph, lhs: seq<Path>, p1: seq<Path>, p2: seq<Path>)
    requires p1 != [] && p2 != []
    requires PathsOf(g, lhs) && PathsOf(g, p1) && PathsOf(g, p2)
    ensures PathsOf(g, AppendPath(lhs, p1, p2))
    ensures PathsOf(g, [p1[0] + p2[0]])
  {
    assert p1[0] in p1 && p2[0] in p2;
  }

  /** A step on entry (i, j) through k, with the entries (i, k) and (k, j)
      as they stand, needs only paths that exist and keeps EntryOk. */
  lemma RelaxKeepsEntries(g: Graph, i: nat, j: nat, k: nat, eij: Entry, eik: Entry, ekj: Entry)
    requires EntryOk(g, eij, i == j) && EntryOk(g, eik, i == k) && EntryOk(g, ekj, k == j)
    requires i == k ==> ekj == eij
    requires k == j ==> eik == eij
    ensures ReadsPaths(eij.d, eik.d + ekj.d) ==> eik.pe != [] && ekj.pe != []
    ensures ReadsPaths(eij.d, eik.d + ekj.d) ==> i != k && k != j
    ensures EntryOk(g, Relax(eij, eik.d + ekj.d, eik.pe, ekj.pe), i == j)
  {
    var sum := eik.d + ekj.d;
    if ReadsPaths(eij.d, sum) {
      assert eik.pe != [] && ekj.pe != [];
      AppendPathsOf(g, eij.pe, eik.pe, ekj.pe);
      AppendPathsOf(g, eij.pe2, eik.pe, ekj.pe);
    } else if sum != Invalid && eij.d == sum && eik.pe != [] && ekj.pe != [] {
      AppendPathsOf(g, eij.pe, eik.pe, ekj.pe);
    }
  }

  // ---------------------------------------------------------------------
  // The relaxation as a function of the matrices

  /** The three matrices D, Pe and Pe' as one matrix of entries. */
  type EMatrix = seq<seq<Entry>>

  predicate SquareE(M: EMatrix, n: nat)
  {
    |M| == n && forall i :: 0 <= i < n ==> |M[i]| == n
  }

  /** What reading the first path of an empty list of paths throws. */
  const NoFirstPathError := "TypeError: Cannot read properties of undefined (reading 'concat')"

  /** The step for (i, j) through k on the matrices as they stand.  When it
      reads the first paths of Pe[i][k] and Pe[k][j] and one of them is
      missing, the result is an error: for Pe[i][k] that is the TypeError
      the source throws; for Pe[k][j] the source would join a path with
      `undefined`, which this model does not represent.  `MakePIDMatrixes`
      shows that neither happens. */
  function StepAt(M: EMatrix, n: nat, k: nat, i: nat, j: nat): (r: Result<EMatrix>)
    requires SquareE(M, n) && k < n && i < n && j < n
    ensures r.Ok? ==> SquareE(r.value, n)
  {
    var e, p1, p2 := M[i][j], M[i][k].pe, M[k][j].pe;
    var sum := M[i][k].d + M[k][j].d;
    if ReadsPaths(e.d, sum) && (p1 == [] || p2 == []) then Err(NoFirstPathError)
    else Ok(M[i := M[i][j := Relax(e, sum, p1, p2)]])
  }

  /** Row i of round k, from column j on. */
  function RowSteps(M: EMatrix, n: nat, k: nat, i: nat, j: nat): (r: Result<EMatrix>)
    requires SquareE(M, n) && k < n && i < n && j <= n
    ensures r.Ok? ==> SquareE(r.value, n)
    decreases n - j
  {
    if j == n then Ok(M)
    else
      match StepAt(M, n, k, i, j)
      case Err(e) => Err(e)
      case Ok(M1) => RowSteps(M1, n, k, i, j + 1)
  }

  /** Round k, from row i on. */
  function RoundRows(M: EMatrix, n: nat, k: nat, i: nat): (r: Result<EMatrix>)
    requires SquareE(M, n) && k < n && i <= n
    ensures r.Ok? ==> SquareE(r.value, n)
    decreases n - i
  {
    if i == n then Ok(M)
    else
      match RowSteps(M, n, k, i, 0)
      case Err(e) => Err(e)
      case Ok(M1) => RoundRows(M1, n, k, i + 1)
  }

  /** Rounds k, k + 1, ..., n - 1. */
  function Rounds(M: EMatrix, n: nat, k: nat): (r: Result<EMatrix>)
    requires SquareE(M, n) && k <= n
    ensures r.Ok? ==> SquareE(r.value, n)
    decreases n - k
  {
    if k == n then Ok(M)
    else
      match RoundRows(M, n, k, 0)
      case Err(e) => Err(e)
      case Ok(M1) => Rounds(M1, n, k + 1)
  }

  /** The matrices `makePIDMatrixes` starts from (sssr.js:184-186). */
  function InitialEntries(g: Graph): (M: EMatrix)
    ensures SquareE(M, g.atomCount)
  {
    seq(g.atomCount, i requires 0 <= i < g.atomCount =>
      seq(g.atomCount, j requires 0 <= j < g.atomCount => Entry(Weight(g, i, j), BondPaths(g, i, j), [])))
  }

  /** `makePIDMatrixes` (sssr.js:182-236) as a function: rounds
      k = 0 .. n - 1, each relaxing every pair in place, row by row. */
  function PIDMatrices(g: Graph): (r: Result<EMatrix>)
    ensures r.Ok? ==> SquareE(r.value, g.atomCount)
  {
    Rounds(InitialEntries(g), g.atomCount, 0)
  }

  /** EntryOk for every entry of a matrix of entries. */
  predicate MatOk(g: Graph, M: EMatrix, n: nat)
    requires SquareE(M, n)
  {
    forall i, j :: 0 <= i < n && 0 <= j < n ==> EntryOk(g, M[i][j], i == j)
  }

  // ---------------------------------------------------------------------
  // makePIDMatrixes

  predicate Dims<T>(m: array2<T>, n: nat)
  {
    m.Length0 == n && m.Length1 == n
  }

  function EntryAt(D: array2<int>, Pe1: array2<seq<Path>>, Pe2: array2<seq<Path>>, i: nat, j: nat): Entry
    reads D, Pe1, Pe2
    requires i < D.Length0 && j < D.Length1 && i < Pe1.Length0 && j < Pe1.Length1 && i < Pe2.Length0 && j < Pe2.Length1
  {
    Entry(D[i, j], Pe1[i, j], Pe2[i, j])
  }

  /** EntryOk for every entry. */
  ghost predicate MatricesOk(g: Graph, D: array2<int>, Pe1: array2<seq<Path>>, Pe2: array2<seq<Path>>, n: nat)
    reads D, Pe1, Pe2
    requires Dims(D, n) && Dims(Pe1, n) && Dims(Pe2, n)
  {
    forall i, j :: 0 <= i < n && 0 <= j < n ==> EntryOk(g, EntryAt(D, Pe1, Pe2, i, j), i == j)
  }

  /** The arrays hold the matrix of entries M. */
  ghost predicate Holds(D: array2<int>, Pe1: array2<seq<Path>>, Pe2: array2<seq<Path>>, n: nat, M: EMatrix)
    reads D, Pe1, Pe2
    requires Dims(D, n) && Dims(Pe1, n) && Dims(Pe2, n) && SquareE(M, n)
  {
    forall i, j :: 0 <= i < n && 0 <= j < n ==> EntryAt(D, Pe1, Pe2, i, j) == M[i][j]
  }

  lemma HoldsMatOk(g: Graph, D: array2<int>, Pe1: array2<seq<Path>>, Pe2: array2<seq<Path>>, n: nat, M: EMatrix)
    requires Dims(D, n) && Dims(Pe1, n) && Dims(Pe2, n) && SquareE(M, n)
    requires Holds(D, Pe1, Pe2, n, M) && MatricesOk(g, D, Pe1, Pe2, n)
    ensures MatOk(g, M, n)
  {
    forall i, j | 0 <= i < n && 0 <= j < n
      ensures EntryOk(g, M[i][j], i == j)
    {
      assert EntryAt(D, Pe1, Pe2, i, j) == M[i][j];
    }
  }

  /** `makePIDMatrixes` (sssr.js:182-236).  D is relaxed in place (`lastD`
      is the same array as D), so no entry ever rises above its weight;
      the diagonal stays 0; every path read exists, so the TypeError of
      reading the first path of an empty list never arises; and the
      result satisfies the triangle inequality through every atom.  The
      arrays end holding exactly `PIDMatrices(g)`, which is never an
      error. */
  method MakePIDMatrixes(g: Graph) returns (D: array2<int>, Pe1: array2<seq<Path>>, Pe2: array2<seq<Path>>)
    ensures Dims(D, g.atomCount) && Dims(Pe1, g.atomCount) && Dims(Pe2, g.atomCount)
    ensures PIDMatrices(g).Ok? && Holds(D, Pe1, Pe2, g.atomCount, PIDMatrices(g).value)
    ensures MatricesOk(g, D, Pe1, Pe2, g.atomCount)
    ensures forall i, j :: 0 <= i < g.atomCount && 0 <= j < g.atomCount ==> D[i, j] <= Weight(g, i, j)
    ensures TriangleBelow(Rows(D), g.atomCount, g.atomCount)
  {
    var n := g.atomCount;
    D, Pe1, Pe2 := InitialMatrices(g);
    ghost var M := InitialEntries(g);
    for k := 0 to n
      invariant MatricesOk(g, D, Pe1, Pe2, n)
      invariant SquareE(M, n) && Holds(D, Pe1, Pe2, n, M) && Rounds(M, n, k) == PIDMatrices(g)
      invariant forall i, j :: 0 <= i < n && 0 <= j < n ==> D[i, j] <= Weight(g, i, j)
      invariant TriangleBelow(Rows(D), n, k)
    {
      M := Round(g, D, Pe1, Pe2, n, k, M);
    }
  }

  /** One round of `makePIDMatrixes`: it keeps every entry at most its
      weight and extends the triangle inequality to paths through k. */
  method Round(g: Graph, D: array2<int>, Pe1: array2<seq<Path>>, Pe2: array2<seq<Path>>, n: nat, k: nat, ghost M: EMatrix)
    returns (ghost M': EMatrix)
    requires Dims(D, n) && Dims(Pe1, n) && Dims(Pe2, n) && k < n && Pe1 != Pe2 && n == g.atomCount
    requires MatricesOk(g, D, Pe1, Pe2, n) && SquareE(M, n) && Holds(D, Pe1, Pe2, n, M)
    requires forall i, j :: 0 <= i < n && 0 <= j < n ==> D[i, j] <= Weight(g, i, j)
    requires TriangleBelow(Rows(D), n, k)
    modifies D, Pe1, Pe2
    ensures MatricesOk(g, D, Pe1, Pe2, n)
    ensures SquareE(M', n) && RoundRows(M, n, k, 0) == Ok(M') && Holds(D, Pe1, Pe2, n, M')
    ensures forall i, j :: 0 <= i < n && 0 <= j < n ==> D[i, j] <= Weight(g, i, j)
    ensures TriangleBelow(Rows(D), n, k + 1)
  {
    ghost var D0 := Rows(D);
    M' := RelaxThrough(g, D, Pe1, Pe2, n, k, M);
    RelaxRound(D0, Rows(D), n, k);
    forall i, j | 0 <= i < n && 0 <= j < n
      ensures D[i, j] <= Weight(g, i, j)
    {
      assert D[i, j] == Min(D0[i][j], D0[i][k] + D0[k][j]);
    }
  }

  /** The weight matrix, the bond paths and the empty second paths that
      `makePIDMatrixes` starts from (sssr.js:184-186). */
  method InitialMatrices(g: Graph) returns (D: array2<int>, Pe1: array2<seq<Path>>, Pe2: array2<seq<Path>>)
    ensures Dims(D, g.atomCount) && Dims(Pe1, g.atomCount) && Dims(Pe2, g.atomCount)
    ensures fresh(D) && fresh(Pe1) && fresh(Pe2) && Pe1 != Pe2
    ensures MatricesOk(g, D, Pe1, Pe2, g.atomCount) && Holds(D, Pe1, Pe2, g.atomCount, InitialEntries(g))
    ensures forall i, j :: 0 <= i < g.atomCount && 0 <= j < g.atomCount ==> D[i, j] == Weight(g, i, j)
  {
    var n := g.atomCount;
    D := CreateWeightMatrix(g, n);
    Pe1 := CreatePIDMatrix(g, n);
    Pe2 := CreateEmptyPIDMatrix(n);
    ghost var M := InitialEntries(g);
    forall i, j | 0 <= i < n && 0 <= j < n
      ensures EntryOk(g, EntryAt(D, Pe1, Pe2, i, j), i == j)
      ensures EntryAt(D, Pe1, Pe2, i, j) == M[i][j]
    {
      var b := FindBond(g, i, j);
      if b.Some? {
        assert Pe1[i, j] == [[b.value]];
      }
    }
  }

  /** Round k of the triple loop: every pair relaxed through k. */
  method RelaxThrough(g: Graph, D: array2<int>, Pe1: array2<seq<Path>>, Pe2: array2<seq<Path>>, n: nat, k: nat, ghost M: EMatrix)
    returns (ghost M': EMatrix)
    requires Dims(D, n) && Dims(Pe1, n) && Dims(Pe2, n) && k < n && Pe1 != Pe2
    requires MatricesOk(g, D, Pe1, Pe2, n)
    requires SquareE(M, n) && Holds(D, Pe1, Pe2, n, M)
    modifies D, Pe1, Pe2
    ensures MatricesOk(g, D, Pe1, Pe2, n)
    ensures SquareE(M', n) && RoundRows(M, n, k, 0) == Ok(M') && Holds(D, Pe1, Pe2, n, M')
    ensures RelaxedThrough(old(Rows(D)), Rows(D), n, k)
    ensures ZeroDiagonal(old(Rows(D)), n) && NonNegative(old(Rows(D)), n)
  {
    ghost var D0 := Rows(D);
    forall i, j | 0 <= i < n && 0 <= j < n
      ensures D0[i][j] >= 0 && (i == j ==> D0[i][j] == 0)
    {
      assert EntryOk(g, EntryAt(D, Pe1, Pe2, i, j), i == j);
    }
    M' := M;
    ghost var round := RoundRows(M, n, k, 0);
    for i := 0 to n
      invariant MatricesOk(g, D, Pe1, Pe2, n)
      invariant SquareE(M', n) && Holds(D, Pe1, Pe2, n, M') && round == RoundRows(M', n, k, i)
      invariant forall a, b :: 0 <= a < n && 0 <= b < n ==>
        D[a, b] == if a < i then Min(D0[a][b], D0[a][k] + D0[k][b]) else D0[a][b]
    {
      M' := RelaxRow(g, D, Pe1, Pe2, n, k, i, D0, M');
    }
  }

  /** Row i of round k: the loop over j (sssr.js:194-227).  Row k and
      column k read the same as at the start of the round, since relaxing
      (a, k) through k adds D[k][k] = 0. */
  method RelaxRow(g: Graph, D: array2<int>, Pe1: array2<seq<Path>>, Pe2: array2<seq<Path>>, n: nat, k: nat, i: nat,
                  ghost D0: Matrix, ghost M: EMatrix)
    returns (ghost M': EMatrix)
    requires Dims(D, n) && Dims(Pe1, n) && Dims(Pe2, n) && k < n && i < n && Pe1 != Pe2
    requires Square(D0, n) && D0[k][k] == 0
    requires MatricesOk(g, D, Pe1, Pe2, n)
    requires SquareE(M, n) && Holds(D, Pe1, Pe2, n, M)
    requires forall a, b :: 0 <= a < n && 0 <= b < n ==>
      D[a, b] == if a < i then Min(D0[a][b], D0[a][k] + D0[k][b]) else D0[a][b]
    modifies D, Pe1, Pe2
    ensures MatricesOk(g, D, Pe1, Pe2, n)
    ensures forall a, b :: 0 <= a < n && 0 <= b < n ==>
      D[a, b] == if a < i + 1 then Min(D0[a][b], D0[a][k] + D0[k][b]) else D0[a][b]
    ensures SquareE(M', n) && RowSteps(M, n, k, i, 0) == Ok(M') && Holds(D, Pe1, Pe2, n, M')
  {
    M' := M;
    ghost var row := RowSteps(M, n, k, i, 0);
    for j := 0 to n
      invariant MatricesOk(g, D, Pe1, Pe2, n)
      invariant SquareE(M', n) && Holds(D, Pe1, Pe2, n, M') && row == RowSteps(M', n, k, i, j)
      invariant forall a, b :: 0 <= a < n && 0 <= b < n ==>
        D[a, b] == if a < i || (a == i && b < j) then Min(D0[a][b], D0[a][k] + D0[k][b]) else D0[a][b]
    {
      assert D[i, k] == D0[i][k] && D[k, j] == D0[k][j] && D[i, j] == D0[i][j];
      RelaxEntry(g, D, Pe1, Pe2, n, k, i, j, M');
      RowProgress(D, D0, n, k, i, j);
      M' := StepAt(M', n, k, i, j).value;
    }
  }

  /** Relaxing (i, j) extends the relaxed part of row i by one column. */
  lemma RowProgress(D: array2<int>, D0: Matrix, n: nat, k: nat, i: nat, j: nat)
    requires Dims(D, n) && Square(D0, n) && k < n && i < n && j < n
    requires D[i, j] == Min(D0[i][j], D0[i][k] + D0[k][j])
    requires forall a, b :: 0 <= a < n && 0 <= b < n && (a != i || b != j) ==>
      D[a, b] == if a < i || (a == i && b < j) then Min(D0[a][b], D0[a][k] + D0[k][b]) else D0[a][b]
    ensures forall a, b :: 0 <= a < n && 0 <= b < n ==>
      D[a, b] == if a < i || (a == i && b < j + 1) then Min(D0[a][b], D0[a][k] + D0[k][b]) else D0[a][b]
  {
  }

  /** The step for one pair (i, j) through k (sssr.js:195-226): D[i][j]
      becomes the smaller of itself and D[i][k] + D[k][j], nothing else in
      D changes, and every entry stays EntryOk. */
  method RelaxEntry(g: Graph, D: array2<int>, Pe1: array2<seq<Path>>, Pe2: array2<seq<Path>>, n: nat, k: nat, i: nat, j: nat,
                    ghost M: EMatrix)
    requires Dims(D, n) && Dims(Pe1, n) && Dims(Pe2, n) && k < n && i < n && j < n && Pe1 != Pe2
    requires MatricesOk(g, D, Pe1, Pe2, n)
    requires SquareE(M, n) && Holds(D, Pe1, Pe2, n, M)
    modifies D, Pe1, Pe2
    ensures MatricesOk(g, D, Pe1, Pe2, n)
    ensures StepAt(M, n, k, i, j).Ok? && Holds(D, Pe1, Pe2, n, StepAt(M, n, k, i, j).value)
    ensures D[i, j] == Min(old(D[i, j]), old(D[i, k]) + old(D[k, j]))
    ensures forall a, b :: 0 <= a < n && 0 <= b < n && (a != i || b != j) ==> D[a, b] == old(D[a, b])
  {
    var eij := EntryAt(D, Pe1, Pe2, i, j);
    var eik := EntryAt(D, Pe1, Pe2, i, k);
    var ekj := EntryAt(D, Pe1, Pe2, k, j);
    RelaxKeepsEntries(g, i, j, k, eij, eik, ekj);
    RelaxMeaning(eij, eik.d + ekj.d, eik.pe, ekj.pe);
    var e := Relax(eij, D[i, k] + D[k, j], Pe1[i, k], Pe1[k, j]);
    assert e == Relax(eij, eik.d + ekj.d, eik.pe, ekj.pe);
    assert eij == M[i][j] && eik == M[i][k] && ekj == M[k][j];
    ghost var M1 := M[i := M[i][j := e]];
    assert StepAt(M, n, k, i, j) == Ok(M1);
    WriteEntry(g, D, Pe1, Pe2, n, i, j, e, M);
  }

  /** Lines 205-225 store the relaxed entry of (i, j) in the three
      matrices; every other entry stays as it was. */
  method WriteEntry(g: Graph, D: array2<int>, Pe1: array2<seq<Path>>, Pe2: array2<seq<Path>>, n: nat, i: nat, j: nat, e: Entry,
                    ghost M: EMatrix)
    requires Dims(D, n) && Dims(Pe1, n) && Dims(Pe2, n) && i < n && j < n && Pe1 != Pe2
    requires MatricesOk(g, D, Pe1, Pe2, n) && EntryOk(g, e, i == j)
    requires SquareE(M, n) && Holds(D, Pe1, Pe2, n, M)
    modifies D, Pe1, Pe2
    ensures MatricesOk(g, D, Pe1, Pe2, n)
    ensures Holds(D, Pe1, Pe2, n, M[i := M[i][j := e]])
    ensures D[i, j] == e.d
    ensures forall a, b :: 0 <= a < n && 0 <= b < n && (a != i || b != j) ==> D[a, b] == old(D[a, b])
  {
    D[i, j] := e.d;
    Pe1[i, j] := e.pe;
    Pe2[i, j] := e.pe2;
    ghost var M1 := M[i := M[i][j := e]];
    forall a, b | 0 <= a < n && 0 <= b < n
      ensures EntryOk(g, EntryAt(D, Pe1, Pe2, a, b), a == b)
      ensures EntryAt(D, Pe1, Pe2, a, b) == M1[a][b]
    {
      if a != i || b != j {
        assert EntryAt(D, Pe1, Pe2, a, b) == old(EntryAt(D, Pe1, Pe2, a, b));
      }
    }
  }

  // ---------------------------------------------------------------------
  // makeCandidateSet

  /** A ring candidate: its size Cnum and the paths Pe and Pe' it is
      assembled from. */
  datatype Candidate = Candidate(cnum: int, pe1: seq<Path>, pe2: seq<Path>)

  /** Lines 260-269 for one pair: pairs with D = 0, and pairs with a single
      shortest path and no longer one, give no candidate; otherwise Cnum is
      2 * (D + 0.5) = 2D + 1 (odd) when Pe' has paths, else 2D. */
  function Classify(e: Entry): Option<Candidate>
  {
    if e.d == 0 || (|e.pe| == 1 && |e.pe2| == 0) then None
    else Some(Candidate(if |e.pe2| > 0 then 2 * e.d + 1 else 2 * e.d, e.pe, e.pe2))
  }

  function OptionList<T>(o: Option<T>): seq<T>
  {
    if o.Some? then [o.value] else []
  }

  /** The candidates of row i, columns 0..j-1, in order. */
  function RowCandidates(M: EMatrix, n: nat, i: nat, j: nat): seq<Candidate>
    requires SquareE(M, n) && i < n && j <= n
  {
    if j == 0 then []
    else RowCandidates(M, n, i, j - 1) + OptionList(Classify(M[i][j - 1]))
  }

  /** The candidates of rows 0..i-1, row by row. */
  function Candidates(M: EMatrix, n: nat, i: nat): seq<Candidate>
    requires SquareE(M, n) && i <= n
  {
    if i == 0 then []
    else Candidates(M, n, i - 1) + RowCandidates(M, n, i - 1, n)
  }

  /** Sorted by non-decreasing Cnum. */
  predicate SortedByCnum(cs: seq<Candidate>)
  {
    forall a, b :: 0 <= a < b < |cs| ==> cs[a].cnum <= cs[b].cnum
  }

  /** Insert x after every candidate whose Cnum is not greater. */
  function InsertByCnum(cs: seq<Candidate>, x: Candidate): (r: seq<Candidate>)
    ensures multiset(r) == multiset(cs) + multiset{x}
    ensures SortedByCnum(cs) ==> SortedByCnum(r)
  {
    if cs == [] then [x]
    else if x.cnum < cs[0].cnum then [x] + cs
    else
      var rest := InsertByCnum(cs[1..], x);
      InsertAfterFirst(cs, x, rest);
      [cs[0]] + rest
  }

  lemma InsertAfterFirst(cs: seq<Candidate>, x: Candidate, rest: seq<Candidate>)
    requires cs != [] && cs[0].cnum <= x.cnum
    requires multiset(rest) == multiset(cs[1..]) + multiset{x}
    requires SortedByCnum(cs[1..]) ==> SortedByCnum(rest)
    ensures multiset([cs[0]] + rest) == multiset(cs) + multiset{x}
    ensures SortedByCnum(cs) ==> SortedByCnum([cs[0]] + rest)
  {
    assert cs == [cs[0]] + cs[1..];
    if SortedByCnum(cs) {
      var r := [cs[0]] + rest;
      forall a, b | 0 <= a < b < |r|
        ensures r[a].cnum <= r[b].cnum
      {
        if a == 0 {
          assert r[b] in multiset(rest);
          assert r[b] in multiset(cs[1..]) || r[b] == x;
        }
      }
    }
  }

  /** `Cset.sort(sortByCnum)` (sssr.js:241-243, 275), a stable sort on
      Cnum: the result is ordered and holds the same candidates. */
  function SortByCnum(cs: seq<Candidate>): (r: seq<Candidate>)
    ensures SortedByCnum(r)
    ensures multiset(r) == multiset(cs)
  {
    if cs == [] then []
    else
      var init := cs[..|cs| - 1];
      assert cs == init + [cs[|cs| - 1]];
      InsertByCnum(SortByCnum(init), cs[|cs| - 1])
  }

  /** `makeCandidateSet` (sssr.js:254-278) on the arrays holding M.  When
      every entry of M is EntryOk, every candidate it finds is CandidateOk. */
  method MakeCandidateSet(D: array2<int>, Pe1: array2<seq<Path>>, Pe2: array2<seq<Path>>, n: nat,
                          ghost M: EMatrix, ghost g: Graph)
    returns (cset: seq<Candidate>)
    requires Dims(D, n) && Dims(Pe1, n) && Dims(Pe2, n) && SquareE(M, n) && Holds(D, Pe1, Pe2, n, M)
    ensures cset == SortByCnum(Candidates(M, n, n))
    ensures MatOk(g, M, n) ==> forall c :: c in cset ==> CandidateOk(g, c)
  {
    var found: seq<Candidate> := [];
    for i := 0 to n
      invariant found == Candidates(M, n, i)
      invariant MatOk(g, M, n) ==> forall k :: 0 <= k < |found| ==> CandidateOk(g, found[k])
    {
      ghost var prev := found;
      for j := 0 to n
        invariant found == prev + RowCandidates(M, n, i, j)
        invariant MatOk(g, M, n) ==> forall k :: 0 <= k < |found| ==> CandidateOk(g, found[k])
      {
        var c := CandidateAt(D, Pe1, Pe2, n, i, j, M, g);
        RowCandidatesStep(M, n, i, j, prev, found);
        found := found + c;
      }
    }
    cset := SortByCnum(found);
    if MatOk(g, M, n) {
      SortKeepsOk(g, found);
    }
  }

  lemma RowCandidatesStep(M: EMatrix, n: nat, i: nat, j: nat, prev: seq<Candidate>, found: seq<Candidate>)
    requires SquareE(M, n) && i < n && j < n && found == prev + RowCandidates(M, n, i, j)
    ensures found + OptionList(Classify(M[i][j])) == prev + RowCandidates(M, n, i, j + 1)
  {
  }

  /** Sorting keeps every candidate, so it keeps them all CandidateOk. */
  lemma SortKeepsOk(g: Graph, cs: seq<Candidate>)
    requires forall k :: 0 <= k < |cs| ==> CandidateOk(g, cs[k])
    ensures forall c :: c in SortByCnum(cs) ==> CandidateOk(g, c)
  {
    forall c | c in SortByCnum(cs)
      ensures CandidateOk(g, c)
    {
      assert c in multiset(SortByCnum(cs));
      assert c in multiset(cs);
    }
  }

  /** The body of the loop at sssr.js:258-273 for the pair (i, j): no
      candidate, or the one Classify gives. */
  method CandidateAt(D: array2<int>, Pe1: array2<seq<Path>>, Pe2: array2<seq<Path>>, n: nat, i: nat, j: nat,
                     ghost M: EMatrix, ghost g: Graph)
    returns (c: seq<Candidate>)
    requires Dims(D, n) && Dims(Pe1, n) && Dims(Pe2, n) && SquareE(M, n) && Holds(D, Pe1, Pe2, n, M)
    requires i < n && j < n
    ensures c == OptionList(Classify(M[i][j]))
    ensures MatOk(g, M, n) ==> forall k :: 0 <= k < |c| ==> CandidateOk(g, c[k])
  {
    assert EntryAt(D, Pe1, Pe2, i, j) == M[i][j];
    if D[i, j] == 0 || (|Pe1[i, j]| == 1 && |Pe2[i, j]| == 0) {
      return [];
    }
    var cnum;
    if |Pe2[i, j]| > 0 {
      cnum := 2 * D[i, j] + 1;
    } else {
      cnum := 2 * D[i, j];
    }
    c := [Candidate(cnum, Pe1[i, j], Pe2[i, j])];
    if MatOk(g, M, n) {
      assert EntryOk(g, M[i][j], i == j);
    }
  }

  /** What candidateSearch needs of a candidate: an odd Cnum exactly when
      Pe' has paths, a shortest path whenever Pe' has paths, and paths
      made of bond indices. */
  predicate CandidateOk(g: Graph, c: Candidate)
  {
    (c.cnum % 2 == 1 <==> c.pe2 != []) && (c.pe2 != [] ==> c.pe1 != []) &&
    PathsOf(g, c.pe1) && PathsOf(g, c.pe2)
  }

  // ---------------------------------------------------------------------
  // isCandidateInSet

  /** The paper's test at lines 306-313: the candidate is at least as long
      as the ring and holds all of its atoms. */
  predicate ContainsRing(c: seq<nat>, ring: seq<nat>)
  {
    |c| >= |ring| && forall x :: x in ring ==> x in c
  }

  /** Lines 316-320: for every position j of the candidate whose atom is in
      the ring, the count at POSITION j goes up (not the count of atom
      c[j]).  A position at or past the end of the count array is left
      out: JavaScript grows the array there with NaN entries, which no
      atom index ever reads. */
  function BumpPositions(rc: seq<int>, c: seq<nat>, ring: seq<nat>): (r: seq<int>)
    ensures |r| == |rc|
    ensures forall j :: 0 <= j < |rc| ==> r[j] == if j < |c| && c[j] in ring then rc[j] + 1 else rc[j]
  {
    seq(|rc|, j requires 0 <= j < |rc| => if j < |c| && c[j] in ring then rc[j] + 1 else rc[j])
  }

  /** Lines 334-336: the count of each atom of the candidate goes up, once
      per occurrence. */
  function BumpAtoms(rc: seq<int>, c: seq<nat>): (r: seq<int>)
    requires forall j :: 0 <= j < |c| ==> c[j] < |rc|
    ensures |r| == |rc|
  {
    if c == [] then rc
    else
      var r0 := BumpAtoms(rc, c[..|c| - 1]);
      r0[c[|c| - 1] := r0[c[|c| - 1]] + 1]
  }

  /** The loop at lines 303-321 over the accepted rings: Some(counts) when
      no ring is contained in the candidate, the counts then bumped by
      position for every ring; None when some ring is, at which point the
      function returns true with the counts bumped for the rings before
      it. */
  function ScanRings(c: seq<nat>, rings: seq<seq<nat>>, rc: seq<int>): (r: (bool, seq<int>))
    ensures |r.1| == |rc|
    ensures r.0 <==> exists ring :: ring in rings && ContainsRing(c, ring)
  {
    if rings == [] then (false, rc)
    else if ContainsRing(c, rings[0]) then (true, rc)
    else
      var r := ScanRings(c, rings[1..], BumpPositions(rc, c, rings[0]));
      assert rings == [rings[0]] + rings[1..];
      r
  }

  /** Lines 326-331: some atom of the candidate is in fewer accepted rings
      than its valence minus one. */
  predicate IsNewRing(c: seq<nat>, valences: seq<int>, rc: seq<int>)
    requires forall j :: 0 <= j < |c| ==> c[j] < |rc| && c[j] < |valences|
  {
    exists j :: 0 <= j < |c| && rc[c[j]] < valences[c[j]] - 1
  }

  /** `isCandidateInSet(C, Csssr, valences, ringCount)` (sssr.js:302-340):
      its answer and the ring counts it leaves. */
  function CandidateInSet(c: seq<nat>, rings: seq<seq<nat>>, valences: seq<int>, rc: seq<int>): (r: (bool, seq<int>))
    requires forall j :: 0 <= j < |c| ==> c[j] < |rc| && c[j] < |valences|
    ensures |r.1| == |rc|
  {
    var (contained, counts) := ScanRings(c, rings, rc);
    if contained then (true, counts)
    else if IsNewRing(c, valences, counts) then (false, BumpAtoms(counts, c))
    else (true, counts)
  }

  /** The candidate is in the set exactly when some accepted ring is inside
      it, or no atom of it is short of rings; when it is not, the count of
      every atom of the candidate has gone up. */
  lemma CandidateInSetMeaning(c: seq<nat>, rings: seq<seq<nat>>, valences: seq<int>, rc: seq<int>)
    requires forall j :: 0 <= j < |c| ==> c[j] < |rc| && c[j] < |valences|
    ensures var counts := ScanRings(c, rings, rc).1;
      CandidateInSet(c, rings, valences, rc).0 <==>
        (exists ring :: ring in rings && ContainsRing(c, ring)) || !IsNewRing(c, valences, counts)
    ensures var counts := ScanRings(c, rings, rc).1;
      !CandidateInSet(c, rings, valences, rc).0 ==>
        c != [] && forall x :: x in c ==> CandidateInSet(c, rings, valences, rc).1[x] > counts[x]
  {
    var counts := ScanRings(c, rings, rc).1;
    if !CandidateInSet(c, rings, valences, rc).0 {
      forall x | x in c
        ensures BumpAtoms(counts, c)[x] > counts[x]
      {
        BumpAtomsGrows(counts, c, x);
      }
    }
  }

  lemma {:induction false} BumpAtomsGrows(rc: seq<int>, c: seq<nat>, x: nat)
    requires forall j :: 0 <= j < |c| ==> c[j] < |rc|
    requires x < |rc|
    ensures BumpAtoms(rc, c)[x] >= rc[x]
    ensures x in c ==> BumpAtoms(rc, c)[x] > rc[x]
  {
    if c != [] {
      var init := c[..|c| - 1];
      BumpAtomsGrows(rc, init, x);
      if x in c && x != c[|c| - 1] {
        assert x in init;
      }
    }
  }

  /** Accepted rings are not empty: an empty candidate is always in the
      set. */
  lemma EmptyCandidateInSet(rings: seq<seq<nat>>, valences: seq<int>, rc: seq<int>)
    ensures CandidateInSet([], rings, valences, rc).0
  {
  }

  /** The method as written, with its loops and the ring counts updated in
      place. */
  method IsCandidateInSet(c: seq<nat>, rings: seq<seq<nat>>, valences: seq<int>, ringCount: array<int>) returns (r: bool)
    requires forall j :: 0 <= j < |c| ==> c[j] < ringCount.Length && c[j] < |valences|
    modifies ringCount
    ensures (r, ringCount[..]) == CandidateInSet(c, rings, valences, old(ringCount[..]))
  {
    ghost var rc0 := ringCount[..];
    for i := 0 to |rings|
      invariant ScanRings(c, rings, rc0) == ScanRings(c, rings[i..], ringCount[..])
    {
      assert rings[i..] == [rings[i]] + rings[i + 1..];
      var containsRing := RingInside(c, rings[i]);
      if containsRing {
        return true;
      }
      BumpByPosition(c, rings[i], ringCount);
    }
    assert rings[|rings|..] == [];
    var isNewRing := HasShortAtom(c, valences, ringCount);
    if isNewRing {
      BumpEach(c, ringCount);
      return false;
    }
    return true;
  }

  /** Lines 306-313 for one accepted ring. */
  method RingInside(c: seq<nat>, ring: seq<nat>) returns (b: bool)
    ensures b <==> ContainsRing(c, ring)
  {
    if |c| < |ring| {
      return false;
    }
    b := true;
    for j := 0 to |ring|
      invariant b <==> forall q :: 0 <= q < j ==> ring[q] in c
    {
      if ring[j] !in c {
        b := false;
      }
    }
  }

  /** Lines 326-331. */
  method HasShortAtom(c: seq<nat>, valences: seq<int>, ringCount: array<int>) returns (b: bool)
    requires forall j :: 0 <= j < |c| ==> c[j] < ringCount.Length && c[j] < |valences|
    ensures b <==> IsNewRing(c, valences, ringCount[..])
  {
    b := false;
    for j := 0 to |c|
      invariant b <==> exists q :: 0 <= q < j && ringCount[c[q]] < valences[c[q]] - 1
    {
      if ringCount[c[j]] < valences[c[j]] - 1 {
        b := true;
      }
    }
  }

  /** Lines 334-336. */
  method BumpEach(c: seq<nat>, ringCount: array<int>)
    requires forall j :: 0 <= j < |c| ==> c[j] < ringCount.Length
    modifies ringCount
    ensures ringCount[..] == BumpAtoms(old(ringCount[..]), c)
  {
    ghost var counts := ringCount[..];
    for j := 0 to |c|
      invariant ringCount[..] == BumpAtoms(counts, c[..j])
    {
      assert c[..j + 1][..j] == c[..j];
      ringCount[c[j]] := ringCount[c[j]] + 1;
    }
    assert c[..|c|] == c;
  }

  /** The loop at lines 316-320. */
  method BumpByPosition(c: seq<nat>, ring: seq<nat>, ringCount: array<int>)
    modifies ringCount
    ensures ringCount[..] == BumpPositions(old(ringCount[..]), c, ring)
  {
    ghost var before := ringCount[..];
    for j := 0 to |c|
      invariant forall q :: 0 <= q < ringCount.Length ==>
        ringCount[q] == if q < j && c[q] in ring then before[q] + 1 else before[q]
    {
      if j < ringCount.Length && c[j] in ring {
        ringCount[j] := ringCount[j] + 1;
      }
    }
  }

  // ---------------------------------------------------------------------
  // bondRingToAtomRing, processCandidate, candidateSearch

  /** Every entry is a bond index of g. */
  predicate BondsOf(g: Graph, ring: seq<nat>)
  {
    forall b :: b in ring ==> b < |g.bonds|
  }

  lemma BondsOfPrefix(g: Graph, ring: seq<nat>, i: nat)
    requires BondsOf(g, ring) && i <= |ring|
    ensures BondsOf(g, ring[..i])
  {
    assert forall b :: b in ring[..i] ==> b in ring;
  }

  /** `bondRingToAtomRing` (sssr.js:348-362): the atoms of the bonds, each
      listed once, in order of first appearance (source before target). */
  function AtomsOfBonds(g: Graph, ring: seq<nat>): (r: seq<nat>)
    requires BondsOf(g, ring)
    ensures g.WellFormed() ==> forall q :: 0 <= q < |r| ==> r[q] < g.atomCount
  {
    if ring == [] then []
    else
      var init := ring[..|ring| - 1];
      BondsOfPrefix(g, ring, |ring| - 1);
      assert ring[|ring| - 1] in ring;
      var r0 := AtomsOfBonds(g, init);
      var (s, t) := g.bonds[ring[|ring| - 1]];
      var r1 := if s in r0 then r0 else r0 + [s];
      if t in r1 then r1 else r1 + [t]
  }

  /** The atom list has no repeats and holds exactly the ends of the ring's
      bonds. */
  lemma {:induction false} AtomsOfBondsMeaning(g: Graph, ring: seq<nat>)
    requires BondsOf(g, ring)
    ensures Distinct(AtomsOfBonds(g, ring))
    ensures forall a :: a in AtomsOfBonds(g, ring) <==> exists b :: b in ring && (g.bonds[b].0 == a || g.bonds[b].1 == a)
    ensures ring != [] ==> AtomsOfBonds(g, ring) != []
  {
    AtomsOfBondsDistinct(g, ring);
    AtomsOfBondsMembers(g, ring);
  }

  lemma {:induction false} AtomsOfBondsDistinct(g: Graph, ring: seq<nat>)
    requires BondsOf(g, ring)
    ensures Distinct(AtomsOfBonds(g, ring))
  {
    if ring != [] {
      BondsOfPrefix(g, ring, |ring| - 1);
      AtomsOfBondsDistinct(g, ring[..|ring| - 1]);
    }
  }

  lemma {:induction false} AtomsOfBondsMembers(g: Graph, ring: seq<nat>)
    requires BondsOf(g, ring)
    ensures forall a :: a in AtomsOfBonds(g, ring) <==> exists b :: b in ring && (g.bonds[b].0 == a || g.bonds[b].1 == a)
  {
    if ring != [] {
      var init, last := ring[..|ring| - 1], ring[|ring| - 1];
      BondsOfPrefix(g, ring, |ring| - 1);
      AtomsOfBondsMembers(g, init);
      assert ring == init + [last];
      assert forall b :: b in ring <==> b in init || b == last;
    }
  }

  method BondRingToAtomRing(ring: seq<nat>, g: Graph) returns (atoms: seq<nat>)
    requires BondsOf(g, ring)
    ensures atoms == AtomsOfBonds(g, ring)
  {
    atoms := [];
    for i := 0 to |ring|
      invariant BondsOf(g, ring[..i])
      invariant atoms == AtomsOfBonds(g, ring[..i])
    {
      assert ring[..i + 1][..i] == ring[..i];
      BondsOfPrefix(g, ring, i + 1);
      assert ring[i] in ring;
      var bond := g.bonds[ring[i]];
      if bond.0 !in atoms {
        atoms := atoms + [bond.0];
      }
      if bond.1 !in atoms {
        atoms := atoms + [bond.1];
      }
    }
    assert ring[..|ring|] == ring;
  }

  /** What the search keeps about each accepted ring: distinct atom indices
      of the molecule, at least one. */
  predicate RingOk(g: Graph, ring: seq<nat>)
  {
    ring != [] && Distinct(ring) && forall a :: a in ring ==> a < g.atomCount
  }

  /** What `molecule.getBond(b).source` throws for an index past the last
      bond. */
  const NoBondError := "TypeError: Cannot read properties of undefined (reading 'source')"

  /** `processCandidate(bondIndexes, Csssr, molecule, valences, ringCount)`
      (sssr.js:373-386) as a function of the accepted rings and the ring
      counts: the rings and counts it leaves.  A bond index past the last
      bond throws; a candidate whose bond count differs from its atom count
      changes nothing; otherwise the candidate is accepted exactly when
      `isCandidateInSet` says it is new, and the counts are those
      `isCandidateInSet` leaves. */
  function Process(g: Graph, bondIndexes: seq<nat>, sssr: seq<seq<nat>>, valences: seq<int>, rc: seq<int>)
    : (r: Result<(seq<seq<nat>>, seq<int>)>)
    requires g.WellFormed() && |rc| == g.atomCount && |valences| == g.atomCount
    ensures r.Err? <==> !BondsOf(g, bondIndexes)
    ensures r.Ok? ==> |r.value.1| == |rc|
    ensures r.Ok? ==> r.value.0 == sssr || r.value.0 == sssr + [AtomsOfBonds(g, bondIndexes)]
    ensures r.Ok? && |r.value.0| != |sssr| ==> RingOk(g, r.value.0[|sssr|]) && |bondIndexes| == |r.value.0[|sssr|]|
  {
    if !BondsOf(g, bondIndexes) then Err(NoBondError)
    else
      var atoms := AtomsOfBonds(g, bondIndexes);
      AtomsOfBondsMeaning(g, bondIndexes);
      if |bondIndexes| != |atoms| then Ok((sssr, rc))
      else
        var (inSet, counts) := CandidateInSet(atoms, sssr, valences, rc);
        if inSet then Ok((sssr, counts)) else Ok((sssr + [atoms], counts))
  }

  /** The method as written, appending to the ring list and updating the
      counts in place. */
  method ProcessCandidate(bondIndexes: seq<nat>, sssr: seq<seq<nat>>, g: Graph, valences: seq<int>, ringCount: array<int>)
    returns (result: seq<seq<nat>>)
    requires g.WellFormed()
    requires BondsOf(g, bondIndexes)
    requires ringCount.Length == g.atomCount && |valences| == g.atomCount
    modifies ringCount
    ensures Process(g, bondIndexes, sssr, valences, old(ringCount[..])) == Ok((result, ringCount[..]))
    ensures var atoms := AtomsOfBonds(g, bondIndexes);
      if |bondIndexes| != |atoms| then result == sssr && ringCount[..] == old(ringCount[..])
      else (result == sssr + [atoms] <==> !CandidateInSet(atoms, sssr, valences, old(ringCount[..])).0) &&
           (result == sssr <==> CandidateInSet(atoms, sssr, valences, old(ringCount[..])).0)
  {
    var atomIndexes := BondRingToAtomRing(bondIndexes, g);
    AtomsOfBondsMeaning(g, bondIndexes);
    if |bondIndexes| != |atomIndexes| {
      return sssr;
    }
    var inSet := IsCandidateInSet(atomIndexes, sssr, valences, ringCount);
    if !inSet {
      return sssr + [atomIndexes];
    }
    return sssr;
  }

  /** The valences `candidateSearch` stores: each atom's bond count. */
  function Valences(g: Graph): (v: seq<int>)
    ensures |v| == g.atomCount
    ensures forall a :: 0 <= a < g.atomCount ==> v[a] == Degree(g, a)
  {
    seq(g.atomCount, a requires 0 <= a < g.atomCount => Degree(g, a))
  }

  /** The ring counts `candidateSearch` starts from. */
  function NoRingCounts(g: Graph): (rc: seq<int>)
    ensures |rc| == g.atomCount && forall a :: 0 <= a < g.atomCount ==> rc[a] == 0
  {
    seq(g.atomCount, _ => 0)
  }

  /** The bond lists `candidateSearch` (sssr.js:415-432) builds from one
      candidate, in order.  An odd Cnum joins the first shortest path with
      each longer one, and with no shortest path that first join throws;
      an even Cnum joins each pair of consecutive shortest paths. */
  function Joins(c: Candidate): (r: Result<seq<seq<nat>>>)
    ensures r.Err? <==> c.cnum % 2 == 1 && c.pe2 != [] && c.pe1 == []
    ensures r.Ok? && c.cnum % 2 == 1 ==> |r.value| == |c.pe2| && forall j :: 0 <= j < |c.pe2| ==> r.value[j] == c.pe1[0] + c.pe2[j]
    ensures r.Ok? && c.cnum % 2 != 1 ==>
      |r.value| == (if |c.pe1| == 0 then 0 else |c.pe1| - 1) &&
      forall j :: 0 <= j < |r.value| ==> r.value[j] == c.pe1[j] + c.pe1[j + 1]
  {
    if c.cnum % 2 == 1 then
      if c.pe2 == [] then Ok([])
      else if c.pe1 == [] then Err(NoFirstPathError)
      else Ok(seq(|c.pe2|, j requires 0 <= j < |c.pe2| => c.pe1[0] + c.pe2[j]))
    else
      Ok(seq(if |c.pe1| == 0 then 0 else |c.pe1| - 1, j requires 0 <= j < |c.pe1| - 1 => c.pe1[j] + c.pe1[j + 1]))
  }

  /** Every ring accepted so far is RingOk. */
  predicate AllRingsOk(g: Graph, sssr: seq<seq<nat>>)
  {
    forall ring :: ring in sssr ==> RingOk(g, ring)
  }

  /** The inner loop of `candidateSearch` over the joins of one candidate:
      the rings and counts it leaves, and whether it stopped on reaching
      nsssr rings.  The rings found before stay in front, each new one is
      RingOk, and one at a time is added. */
  function SearchJoins(g: Graph, joins: seq<seq<nat>>, nsssr: int, valences: seq<int>, sssr: seq<seq<nat>>, rc: seq<int>)
    : (r: Result<(seq<seq<nat>>, seq<int>, bool)>)
    requires g.WellFormed() && |rc| == g.atomCount && |valences| == g.atomCount
    ensures r.Ok? ==> |r.value.1| == |rc| && sssr <= r.value.0
    ensures r.Ok? && AllRingsOk(g, sssr) ==> AllRingsOk(g, r.value.0)
    ensures r.Ok? && r.value.2 ==> |r.value.0| == nsssr
    ensures r.Ok? && |sssr| < nsssr && !r.value.2 ==> |r.value.0| < nsssr
    ensures r.Ok? && |sssr| < nsssr ==> |r.value.0| <= nsssr
  {
    if joins == [] then Ok((sssr, rc, false))
    else
      match Process(g, joins[0], sssr, valences, rc)
      case Err(e) => Err(e)
      case Ok((s1, rc1)) =>
        if |s1| == nsssr then Ok((s1, rc1, true))
        else SearchJoins(g, joins[1..], nsssr, valences, s1, rc1)
  }

  /** `candidateSearch(Cset, nsssr, molecule, D)` (sssr.js:397-435) from
      the rings and counts found so far: the candidates in order, until
      nsssr rings are accepted. */
  function Search(g: Graph, cs: seq<Candidate>, nsssr: int, valences: seq<int>, sssr: seq<seq<nat>>, rc: seq<int>)
    : (r: Result<seq<seq<nat>>>)
    requires g.WellFormed() && |rc| == g.atomCount && |valences| == g.atomCount
    ensures r.Ok? ==> sssr <= r.value
    ensures r.Ok? && AllRingsOk(g, sssr) ==> AllRingsOk(g, r.value)
    ensures r.Ok? && |sssr| < nsssr ==> |r.value| <= nsssr
  {
    if cs == [] then Ok(sssr)
    else
      match Joins(cs[0])
      case Err(e) => Err(e)
      case Ok(js) =>
        match SearchJoins(g, js, nsssr, valences, sssr, rc)
        case Err(e) => Err(e)
        case Ok((s1, rc1, done)) =>
          if done then Ok(s1) else Search(g, cs[1..], nsssr, valences, s1, rc1)
  }

  /** A candidate of the matrices gives joins of bond indices, never the
      error. */
  lemma JoinsOk(g: Graph, c: Candidate)
    requires CandidateOk(g, c)
    ensures Joins(c).Ok? && forall j :: 0 <= j < |Joins(c).value| ==> BondsOf(g, Joins(c).value[j])
  {
    var js := Joins(c).value;
    forall j | 0 <= j < |js|
      ensures BondsOf(g, js[j])
    {
      if c.cnum % 2 == 1 {
        assert c.pe1[0] in c.pe1 && c.pe2[j] in c.pe2;
      } else {
        assert c.pe1[j] in c.pe1 && c.pe1[j + 1] in c.pe1;
      }
    }
  }

  /** `candidateSearch` (sssr.js:397-435) as written, the ring counts an
      array updated in place: it returns what `Search` gives from no rings
      and zero counts, which is never an error on candidates of the
      matrices.  With nsssr >= 1 it never returns more than nsssr rings. */
  method CandidateSearch(cset: seq<Candidate>, nsssr: int, g: Graph) returns (sssr: seq<seq<nat>>)
    requires g.WellFormed()
    requires forall c :: c in cset ==> CandidateOk(g, c)
    ensures Search(g, cset, nsssr, Valences(g), [], NoRingCounts(g)) == Ok(sssr)
    ensures nsssr >= 1 ==> |sssr| <= nsssr
    ensures AllRingsOk(g, sssr)
  {
    sssr := [];
    var valences := Valences(g);
    var ringCount := new int[g.atomCount](_ => 0);
    assert ringCount[..] == NoRingCounts(g);
    ghost var total := Search(g, cset, nsssr, valences, [], NoRingCounts(g));
    assert cset[0..] == cset;
    for i := 0 to |cset|
      invariant |ringCount[..]| == g.atomCount
      invariant total == Search(g, cset[i..], nsssr, valences, sssr, ringCount[..])
    {
      var set_ := cset[i];
      assert set_ in cset;
      ghost var sssr0, rc0 := sssr, ringCount[..];
      var done;
      sssr, done := SearchCandidate(set_, nsssr, g, valences, sssr, ringCount);
      SearchAt(g, cset, i, nsssr, valences, sssr0, rc0, sssr, ringCount[..], done);
      if done {
        return sssr;
      }
    }
    assert cset[|cset|..] == [];
  }

  /** One step of `Search` at position i of the candidates. */
  lemma SearchAt(g: Graph, cs: seq<Candidate>, i: nat, nsssr: int, valences: seq<int>,
                 sssr: seq<seq<nat>>, rc: seq<int>, s1: seq<seq<nat>>, rc1: seq<int>, done: bool)
    requires g.WellFormed() && |rc| == g.atomCount && |valences| == g.atomCount && i < |cs|
    requires Joins(cs[i]).Ok? && SearchJoins(g, Joins(cs[i]).value, nsssr, valences, sssr, rc) == Ok((s1, rc1, done))
    ensures |rc1| == g.atomCount
    ensures Search(g, cs[i..], nsssr, valences, sssr, rc) ==
              if done then Ok(s1) else Search(g, cs[i + 1..], nsssr, valences, s1, rc1)
  {
    assert cs[i..][0] == cs[i] && cs[i..][1..] == cs[i + 1..];
  }

  /** The body of the loop of `candidateSearch` for one candidate
      (sssr.js:415-432): the rings and counts `SearchJoins` gives over its
      joins, and whether nsssr rings were reached. */
  method SearchCandidate(set_: Candidate, nsssr: int, g: Graph, valences: seq<int>, sssr: seq<seq<nat>>, ringCount: array<int>)
    returns (result: seq<seq<nat>>, done: bool)
    requires g.WellFormed() && CandidateOk(g, set_)
    requires ringCount.Length == g.atomCount && |valences| == g.atomCount
    modifies ringCount
    ensures Joins(set_).Ok?
    ensures SearchJoins(g, Joins(set_).value, nsssr, valences, sssr, old(ringCount[..])) == Ok((result, ringCount[..], done))
  {
    JoinsOk(g, set_);
    if set_.cnum % 2 == 1 {
      result, done := SearchOddJoins(set_, nsssr, g, valences, sssr, ringCount);
    } else {
      result, done := SearchEvenJoins(set_, nsssr, g, valences, sssr, ringCount);
    }
  }

  /** An odd candidate (sssr.js:416-422): Pe[0] joined with each path of
      Pe'. */
  method SearchOddJoins(set_: Candidate, nsssr: int, g: Graph, valences: seq<int>, sssr: seq<seq<nat>>, ringCount: array<int>)
    returns (result: seq<seq<nat>>, done: bool)
    requires g.WellFormed() && CandidateOk(g, set_) && set_.cnum % 2 == 1
    requires ringCount.Length == g.atomCount && |valences| == g.atomCount
    modifies ringCount
    ensures Joins(set_).Ok?
    ensures SearchJoins(g, Joins(set_).value, nsssr, valences, sssr, old(ringCount[..])) == Ok((result, ringCount[..], done))
  {
    JoinsOk(g, set_);
    ghost var js := Joins(set_).value;
    ghost var total := SearchJoins(g, js, nsssr, valences, sssr, ringCount[..]);
    result := sssr;
    for j := 0 to |set_.pe2|
      invariant |js| == |set_.pe2| && |ringCount[..]| == g.atomCount
      invariant total == SearchJoins(g, js[j..], nsssr, valences, result, ringCount[..])
    {
      SearchJoinsAt(g, js, j, nsssr, valences, result, ringCount[..]);
      var bondIndexes := set_.pe1[0] + set_.pe2[j];
      result := ProcessCandidate(bondIndexes, result, g, valences, ringCount);
      if |result| == nsssr {
        return result, true;
      }
    }
    assert js[|js|..] == [];
    done := false;
  }

  /** An even candidate (sssr.js:423-430): each path of Pe joined with
      the next. */
  method SearchEvenJoins(set_: Candidate, nsssr: int, g: Graph, valences: seq<int>, sssr: seq<seq<nat>>, ringCount: array<int>)
    returns (result: seq<seq<nat>>, done: bool)
    requires g.WellFormed() && CandidateOk(g, set_) && set_.cnum % 2 != 1
    requires ringCount.Length == g.atomCount && |valences| == g.atomCount
    modifies ringCount
    ensures Joins(set_).Ok?
    ensures SearchJoins(g, Joins(set_).value, nsssr, valences, sssr, old(ringCount[..])) == Ok((result, ringCount[..], done))
  {
    JoinsOk(g, set_);
    ghost var js := Joins(set_).value;
    ghost var total := SearchJoins(g, js, nsssr, valences, sssr, ringCount[..]);
    result := sssr;
    var j := 0;
    while j < |set_.pe1| - 1
      invariant 0 <= j <= |js| && |js| == if |set_.pe1| == 0 then 0 else |set_.pe1| - 1
      invariant |ringCount[..]| == g.atomCount
      invariant total == SearchJoins(g, js[j..], nsssr, valences, result, ringCount[..])
    {
      SearchJoinsAt(g, js, j, nsssr, valences, result, ringCount[..]);
      var bondIndexes := set_.pe1[j] + set_.pe1[j + 1];
      result := ProcessCandidate(bondIndexes, result, g, valences, ringCount);
      if |result| == nsssr {
        return result, true;
      }
      j := j + 1;
    }
    assert js[|js|..] == [];
    done := false;
  }

  /** SearchJoins from join j on: join j is processed first. */
  lemma SearchJoinsAt(g: Graph, js: seq<seq<nat>>, j: nat, nsssr: int, valences: seq<int>, sssr: seq<seq<nat>>, rc: seq<int>)
    requires g.WellFormed() && |rc| == g.atomCount && |valences| == g.atomCount && j < |js|
    ensures SearchJoins(g, js[j..], nsssr, valences, sssr, rc) ==
      match Process(g, js[j], sssr, valences, rc)
      case Err(e) => Err(e)
      case Ok((s1, rc1)) =>
        if |s1| == nsssr then Ok((s1, rc1, true))
        else SearchJoins(g, js[j + 1..], nsssr, valences, s1, rc1)
  {
    assert js[j..][0] == js[j] && js[j..][1..] == js[j + 1..];
  }

  // ---------------------------------------------------------------------
  // sortByPath and findRings

  /** One pass of `sortByPath` (sssr.js:451-461) over atoms i.. of the
      ring: an atom not yet placed is appended when it is bonded to the
      last atom of the path, else put in front when it is bonded to the
      ring's first atom. */
  function PassFrom(g: Graph, xs: seq<nat>, path: seq<nat>, i: nat): (r: seq<nat>)
    requires xs != [] && path != []
    ensures r != [] && |path| <= |r|
    ensures PathShape(g, path, xs[0]) && Distinct(path) ==> PathShape(g, r, xs[0]) && Distinct(r)
    ensures (forall a :: a in path ==> a in xs) ==> forall a :: a in r ==> a in xs
    decreases |xs| - i
  {
    if i >= |xs| then path
    else
      var next := xs[i];
      var path' :=
        if next in path then path
        else if FindBond(g, path[|path| - 1], next).Some? then path + [next]
        else if FindBond(g, xs[0], next).Some? then [next] + path
        else path;
      assert PathShape(g, path, xs[0]) && Distinct(path) ==> PathShape(g, path', xs[0]) && Distinct(path') by {
        if PathShape(g, path, xs[0]) && Distinct(path) && next !in path {
          PathGrows(g, path, xs[0], next);
        }
      }
      PassFrom(g, xs, path', i + 1)
  }

  /** The shape of a path `sortByPath` builds from `begin`: begin occurs
      once; the atoms before it were each put in front for a bond to begin;
      from begin on, each atom is bonded to the one before it. */
  predicate PathShape(g: Graph, path: seq<nat>, begin: nat)
  {
    begin in path &&
    var p := IndexOf(path, begin);
    (forall q :: 0 <= q < p ==> FindBond(g, begin, path[q]).Some?) &&
    (forall q :: p <= q < |path| - 1 ==> FindBond(g, path[q], path[q + 1]).Some?)
  }

  /** In a list without repeats, the first position of the atom at p is p. */
  lemma IndexOfDistinct(s: seq<nat>, p: nat)
    requires Distinct(s) && p < |s|
    ensures IndexOf(s, s[p]) == p
  {
  }

  lemma PathGrows(g: Graph, path: seq<nat>, begin: nat, next: nat)
    requires path != [] && PathShape(g, path, begin) && Distinct(path) && next !in path
    ensures FindBond(g, path[|path| - 1], next).Some? ==> PathShape(g, path + [next], begin) && Distinct(path + [next])
    ensures FindBond(g, begin, next).Some? ==> PathShape(g, [next] + path, begin) && Distinct([next] + path)
  {
    if FindBond(g, path[|path| - 1], next).Some? {
      PathAppend(g, path, begin, next);
    }
    if FindBond(g, begin, next).Some? {
      PathPrepend(g, path, begin, next);
    }
  }

  lemma PathAppend(g: Graph, path: seq<nat>, begin: nat, next: nat)
    requires path != [] && PathShape(g, path, begin) && Distinct(path) && next !in path
    requires FindBond(g, path[|path| - 1], next).Some?
    ensures PathShape(g, path + [next], begin) && Distinct(path + [next])
  {
    var p := IndexOf(path, begin);
    var r := path + [next];
    assert Distinct(r);
    assert r[p] == begin;
    IndexOfDistinct(r, p);
    assert forall q :: 0 <= q < p ==> r[q] == path[q];
  }

  lemma PathPrepend(g: Graph, path: seq<nat>, begin: nat, next: nat)
    requires path != [] && PathShape(g, path, begin) && Distinct(path) && next !in path
    requires FindBond(g, begin, next).Some?
    ensures PathShape(g, [next] + path, begin) && Distinct([next] + path)
  {
    var p := IndexOf(path, begin);
    var r := [next] + path;
    assert Distinct(r);
    assert r[p + 1] == begin;
    IndexOfDistinct(r, p + 1);
    assert forall q :: 1 <= q < |r| ==> r[q] == path[q - 1];
  }

  /** The passes of `sortByPath` after l of them (sssr.js:446-462): none
      once the path holds as many atoms as the ring, and none past the
      1000th. */
  function PathAfter(g: Graph, xs: seq<nat>, path: seq<nat>, l: nat): (r: seq<nat>)
    requires xs != [] && path != [] && l <= 1000
    ensures r != []
    ensures PathShape(g, path, xs[0]) && Distinct(path) ==> PathShape(g, r, xs[0]) && Distinct(r)
    ensures (forall a :: a in path ==> a in xs) ==> forall a :: a in r ==> a in xs
    decreases 1000 - l
  {
    if |xs| == |path| || l + 1 > 1000 then path
    else PathAfter(g, xs, PassFrom(g, xs, path, 1), l + 1)
  }

  /** `sortByPath(atomIndexes, molecule)`: the passes from the path
      holding the ring's first atom alone. */
  function SortedPath(g: Graph, xs: seq<nat>): seq<nat>
    requires xs != []
  {
    PathAfter(g, xs, [xs[0]], 0)
  }

  /** The ring's atoms reordered along its bonds: the result has no
      repeats, holds atoms of the ring only, among them the first one, and
      has the shape of `PathShape`; when it is as long as a ring without
      repeats it holds every atom of the ring once. */
  lemma SortedPathMeaning(g: Graph, xs: seq<nat>)
    requires xs != []
    ensures var r := SortedPath(g, xs);
      Distinct(r) && PathShape(g, r, xs[0]) && forall a :: a in r ==> a in xs
    ensures var r := SortedPath(g, xs);
      Distinct(xs) && |r| == |xs| ==> multiset(r) == multiset(xs)
  {
    var r := SortedPath(g, xs);
    assert IndexOf([xs[0]], xs[0]) == 0;
    if Distinct(xs) && |r| == |xs| {
      SameLengthSameMembers(r, xs);
    }
  }

  /** Two lists without repeats, of the same length, one inside the other,
      hold the same members once each. */
  lemma SameLengthSameMembers(a: seq<nat>, b: seq<nat>)
    requires Distinct(a) && Distinct(b) && |a| == |b|
    requires forall x :: x in a ==> x in b
    ensures multiset(a) == multiset(b)
  {
    var A, B := multiset(a), multiset(b);
    DistinctMultiset(a);
    DistinctMultiset(b);
    assert A <= B;
    assert B == A + (B - A);
    assert |B - A| == 0;
    assert B - A == multiset{};
  }

  lemma {:induction false} DistinctMultiset(s: seq<nat>)
    requires Distinct(s)
    ensures forall x :: multiset(s)[x] == if x in s then 1 else 0
  {
    if s != [] {
      DistinctMultiset(s[1..]);
      assert s == [s[0]] + s[1..];
      assert s[0] !in s[1..];
    }
  }

  /** `sortByPath` (sssr.js:443-464) as written: the path it builds is
      `SortedPath`, and it falls short of the ring's length only after
      1000 passes. */
  method SortByPath(atomIndexes: seq<nat>, g: Graph) returns (path: seq<nat>, ghost passes: nat)
    requires atomIndexes != []
    ensures path == SortedPath(g, atomIndexes)
    ensures passes <= 1000 && (|path| != |atomIndexes| ==> passes == 1000)
  {
    path := [atomIndexes[0]];
    var begin := atomIndexes[0];
    var l := 0;
    passes := 0;
    while |atomIndexes| != |path|
      invariant 0 <= l <= 1000 && passes == l && path != []
      invariant PathAfter(g, atomIndexes, path, l) == SortedPath(g, atomIndexes)
      decreases 1000 - l
    {
      l := l + 1;
      if l > 1000 {
        break;
      }
      passes := l;
      ghost var path0 := path;
      for i := 1 to |atomIndexes|
        invariant path != []
        invariant PassFrom(g, atomIndexes, path0, 1) == PassFrom(g, atomIndexes, path, i)
      {
        var last := path[|path| - 1];
        var next := atomIndexes[i];
        if next in path {
          continue;
        }
        if FindBond(g, last, next).Some? {
          path := path + [next];
        } else if FindBond(g, begin, next).Some? {
          path := [next] + path;
        }
      }
    }
  }

  /** Each ring put in bond order (sssr.js:490-492). */
  function SortedPaths(g: Graph, indexes: seq<seq<nat>>): (r: seq<seq<nat>>)
    requires forall i :: 0 <= i < |indexes| ==> indexes[i] != []
    ensures |r| == |indexes|
    ensures forall i :: 0 <= i < |r| ==> r[i] == SortedPath(g, indexes[i])
  {
    seq(|indexes|, i requires 0 <= i < |indexes| => SortedPath(g, indexes[i]))
  }

  /** Sorting a ring keeps it RingOk. */
  lemma SortedPathsOk(g: Graph, indexes: seq<seq<nat>>)
    requires AllRingsOk(g, indexes)
    ensures forall i :: 0 <= i < |indexes| ==> indexes[i] != []
    ensures AllRingsOk(g, SortedPaths(g, indexes))
  {
    assert forall i :: 0 <= i < |indexes| ==> indexes[i] in indexes;
    var r := SortedPaths(g, indexes);
    forall ring | ring in r
      ensures RingOk(g, ring)
    {
      var i :| 0 <= i < |r| && r[i] == ring;
      assert indexes[i] in indexes;
      SortedPathMeaning(g, indexes[i]);
    }
  }

  /** `findRings(molecule)` (sssr.js:471-495) as a function: with
      nsssr = bonds - atoms + 1 equal to 0, no rings; otherwise the search
      over the sorted candidates of the matrices, each ring then sorted by
      path. */
  function SSSRRings(g: Graph): (r: Result<seq<seq<nat>>>)
    requires g.WellFormed()
    ensures CyclomaticNumber(g) == 0 ==> r == Ok([])
    ensures r.Ok? && CyclomaticNumber(g) >= 1 ==> |r.value| <= CyclomaticNumber(g)
    ensures r.Ok? ==> AllRingsOk(g, r.value)
  {
    var nsssr := CyclomaticNumber(g);
    if nsssr == 0 then Ok([])
    else
      match PIDMatrices(g)
      case Err(e) => Err(e)
      case Ok(M) =>
        match Search(g, SortByCnum(Candidates(M, g.atomCount, g.atomCount)), nsssr, Valences(g), [], NoRingCounts(g))
        case Err(e) => Err(e)
        case Ok(indexes) =>
          SortedPathsOk(g, indexes);
          Ok(SortedPaths(g, indexes))
  }

  /** `findRings` (sssr.js:471-495) as written: it returns what `SSSRRings`
      gives, which is never an error. */
  method FindRings(g: Graph) returns (rings: seq<seq<nat>>)
    requires g.WellFormed()
    ensures SSSRRings(g) == Ok(rings)
  {
    var nsssr := CyclomaticNumber(g);
    if nsssr == 0 {
      return [];
    }
    var D, Pe1, Pe2 := MakePIDMatrixes(g);
    ghost var M := PIDMatrices(g).value;
    HoldsMatOk(g, D, Pe1, Pe2, g.atomCount, M);
    var cset := MakeCandidateSet(D, Pe1, Pe2, g.atomCount, M, g);
    var indexes := CandidateSearch(cset, nsssr, g);
    rings := SortEachByPath(indexes, g);
    SSSRRingsFrom(g, M, indexes);
  }

  /** `SSSRRings` once the matrices and the search are known. */
  lemma SSSRRingsFrom(g: Graph, M: EMatrix, indexes: seq<seq<nat>>)
    requires g.WellFormed() && CyclomaticNumber(g) != 0 && PIDMatrices(g) == Ok(M)
    requires Search(g, SortByCnum(Candidates(M, g.atomCount, g.atomCount)), CyclomaticNumber(g),
                    Valences(g), [], NoRingCounts(g)) == Ok(indexes)
    requires forall i :: 0 <= i < |indexes| ==> indexes[i] != []
    ensures SSSRRings(g) == Ok(SortedPaths(g, indexes))
  {
  }

  lemma AppendSortedPath(rings: seq<seq<nat>>, sorted: seq<nat>, g: Graph, indexes: seq<seq<nat>>, i: nat)
    requires i < |indexes| && |rings| == i && forall q :: 0 <= q < |indexes| ==> indexes[q] != []
    requires forall q :: 0 <= q < i ==> rings[q] == SortedPath(g, indexes[q])
    requires sorted == SortedPath(g, indexes[i])
    ensures forall q :: 0 <= q <= i ==> (rings + [sorted])[q] == SortedPath(g, indexes[q])
  {
  }

  /** The loop at sssr.js:490-492. */
  method SortEachByPath(indexes: seq<seq<nat>>, g: Graph) returns (rings: seq<seq<nat>>)
    requires AllRingsOk(g, indexes)
    ensures forall i :: 0 <= i < |indexes| ==> indexes[i] != []
    ensures rings == SortedPaths(g, indexes)
  {
    SortedPathsOk(g, indexes);
    rings := [];
    for i := 0 to |indexes|
      invariant |rings| == i && forall q :: 0 <= q < i ==> rings[q] == SortedPath(g, indexes[q])
    {
      var sorted, _ := SortByPath(indexes[i], g);
      AppendSortedPath(rings, sorted, g, indexes, i);
      rings := rings + [sorted];
    }
  }
}
