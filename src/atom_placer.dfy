// The discrete part of src/layout/atom_placer.js: degree counts, Floyd's
// all-pairs shortest paths over the connection matrix, the search for the
// longest unplaced chain, the bubble sort by distance, the partition of an
// atom's partners, and the flags and coordinates the placement routines
// write.  Atoms are indices into the molecule; the flags and coordinates
// live on a LayoutState.Layout.  The trigonometry that chooses angles and
// bond vectors is not modelled: where the source computes a point with sin
// and cos, the model takes that point (or the function producing it) as a
// parameter.

module AtomPlacer {
  import opened Wrappers
  import opened Seqs
  import opened Vec2
  import opened MolGraph
  import opened Floyd
  import ConnectionMatrix
  import opened LayoutState

  /** The distance written for an unbonded pair before relaxation. */
  const Unreachable := 999999

  /** `2.0 * Math.PI` as a double. */
  const TwoPi: real := 6.283185307179586

  /** `molecule.addAtom(a)` on a path or partner list: a no-op when a is
      already listed, otherwise an append. */
  function AddAtom(p: seq<nat>, a: nat): (r: seq<nat>)
    ensures forall x :: x in r <==> x in p || x == a
  {
    if a in p then p else p + [a]
  }

  // ---------------------------------------------------------------- degrees

  /** `getConnectedBondsCount` (atom_placer.js:154-160): the number of bonds
      with the atom as source or target, which is the size of its bond set. */
  method GetConnectedBondsCount(g: Graph, a: nat) returns (c: nat)
    ensures c == |IncidentBonds(g, a)| && c == Degree(g, a)
    ensures c <= |g.bonds|
  {
    c := 0;
    for i := 0 to |g.bonds|
      invariant c == |IncidentBefore(g, a, i)|
    {
      if g.bonds[i].0 == a || g.bonds[i].1 == a {
        c := c + 1;
      }
    }
    IncidentBound(g, a, |g.bonds|);
  }

  /** An atom has at most as many bonds as the molecule. */
  lemma {:induction false} IncidentBound(g: Graph, a: nat, n: nat)
    requires n <= |g.bonds|
    ensures |IncidentBefore(g, a, n)| <= n
  {
    if n > 0 {
      IncidentBound(g, a, n - 1);
    }
  }

  /** The sum of the degrees of a path's atoms. */
  function DegreeSum(g: Graph, path: seq<nat>): nat
  {
    if path == [] then 0 else DegreeSum(g, path[..|path| - 1]) + Degree(g, path[|path| - 1])
  }

  /** A degree sum is positive exactly when some atom of the path has a bond. */
  lemma {:induction false} DegreeSumPositive(g: Graph, path: seq<nat>)
    ensures DegreeSum(g, path) > 0 <==> exists k :: 0 <= k < |path| && Degree(g, path[k]) > 0
  {
    if path != [] {
      var init := path[..|path| - 1];
      DegreeSumPositive(g, init);
      if exists k :: 0 <= k < |init| && Degree(g, init[k]) > 0 {
        var k :| 0 <= k < |init| && Degree(g, init[k]) > 0;
        assert path[k] == init[k];
      }
      if exists k :: 0 <= k < |path| && Degree(g, path[k]) > 0 {
        var k :| 0 <= k < |path| && Degree(g, path[k]) > 0;
        if k < |init| {
          assert init[k] == path[k];
        }
      }
    }
  }

  /** `getDegreeSum` (atom_placer.js:141-149). */
  method GetDegreeSum(g: Graph, path: seq<nat>) returns (s: nat)
    ensures s == DegreeSum(g, path)
  {
    s := 0;
    for cb := 0 to |path|
      invariant s == DegreeSum(g, path[..cb])
    {
      var c := GetConnectedBondsCount(g, path[cb]);
      assert path[..cb + 1][..cb] == path[..cb];
      s := s + c;
    }
    assert path[..|path|] == path;
  }

  // ---------------------------------------------------- all-pairs distances

  /** The distance `computeFloydAPSP` starts from for the pair (i, j). */
  function InitialDistance(cost: array2<int>, i: nat, j: nat): int
    requires i < cost.Length0 && j < cost.Length1
    reads cost
  {
    if i == j then 0 else if cost[i, j] == 0 then Unreachable else 1
  }

  /** atom_placer.js:66-83: 999999 where the cost is 0, 1 elsewhere, then 0
      on the diagonal. */
  method InitialDistances(cost: array2<int>) returns (d: array2<int>)
    requires cost.Length0 == cost.Length1
    ensures fresh(d) && d.Length0 == cost.Length0 && d.Length1 == cost.Length0
    ensures forall i, j :: 0 <= i < d.Length0 && 0 <= j < d.Length0 ==> d[i, j] == InitialDistance(cost, i, j)
  {
    var n := cost.Length0;
    d := new int[n, n];
    for i := 0 to n
      invariant forall a, b :: 0 <= a < i && 0 <= b < n ==> d[a, b] == if cost[a, b] == 0 then Unreachable else 1
    {
      for j := 0 to n
        invariant forall a, b :: 0 <= a < i && 0 <= b < n ==> d[a, b] == if cost[a, b] == 0 then Unreachable else 1
        invariant forall b :: 0 <= b < j ==> d[i, b] == if cost[i, b] == 0 then Unreachable else 1
      {
        if cost[i, j] == 0 {
          d[i, j] := Unreachable;
        } else {
          d[i, j] := 1;
        }
      }
    }
    for i := 0 to n
      invariant forall a, b :: 0 <= a < n && 0 <= b < n ==>
        d[a, b] == if a == b && a < i then 0 else if cost[a, b] == 0 then Unreachable else 1
    {
      d[i, i] := 0;
    }
  }

  /** `computeFloydAPSP` (atom_placer.js:65-95): the initial distances
      relaxed through every k.  The result never exceeds the initial
      distance, has a zero diagonal, holds no negative entry, and satisfies
      the triangle inequality d[i][j] <= d[i][k] + d[k][j] for all i, j, k. */
  method ComputeFloydAPSP(cost: array2<int>) returns (d: array2<int>)
    requires cost.Length0 == cost.Length1
    ensures fresh(d) && d.Length0 == cost.Length0 && d.Length1 == cost.Length0
    ensures forall i, j :: 0 <= i < d.Length0 && 0 <= j < d.Length0 ==> d[i, j] <= InitialDistance(cost, i, j)
    ensures ZeroDiagonal(Rows(d), cost.Length0) && NonNegative(Rows(d), cost.Length0)
    ensures TriangleBelow(Rows(d), cost.Length0, cost.Length0)
  {
    var n := cost.Length0;
    d := InitialDistances(cost);
    ghost var init := Rows(d);
    for k := 0 to n
      invariant AtMost(Rows(d), init, n)
      invariant ZeroDiagonal(Rows(d), n) && NonNegative(Rows(d), n)
      invariant TriangleBelow(Rows(d), n, k)
    {
      ghost var d0 := Rows(d);
      RelaxAllThrough(d, n, k);
      ghost var d1 := Rows(d);
      RelaxRound(d0, d1, n, k);
      RelaxNoIncrease(d0, d1, n, k, init);
    }
    assert forall i, j :: 0 <= i < n && 0 <= j < n ==> d[i, j] <= init[i][j];
  }

  /** Round k of the triple loop (atom_placer.js:85-91). */
  method RelaxAllThrough(d: array2<int>, n: nat, k: nat)
    requires d.Length0 == n && d.Length1 == n && k < n && d[k, k] == 0
    modifies d
    ensures RelaxedThrough(old(Rows(d)), Rows(d), n, k)
  {
    ghost var d0 := Rows(d);
    for i := 0 to n
      invariant forall a, b :: 0 <= a < n && 0 <= b < n ==>
        d[a, b] == if a < i then Min(d0[a][b], d0[a][k] + d0[k][b]) else d0[a][b]
    {
      RelaxRowThrough(d, n, k, i, d0);
    }
  }

  /** Row i of round k.  Row k and column k read the same as at the start
      of the round, because relaxing (a, k) through k adds d[k][k] = 0. */
  method RelaxRowThrough(d: array2<int>, n: nat, k: nat, i: nat, ghost d0: Matrix)
    requires d.Length0 == n && d.Length1 == n && k < n && i < n
    requires Square(d0, n) && d0[k][k] == 0
    requires forall a, b :: 0 <= a < n && 0 <= b < n ==>
      d[a, b] == if a < i then Min(d0[a][b], d0[a][k] + d0[k][b]) else d0[a][b]
    modifies d
    ensures forall a, b :: 0 <= a < n && 0 <= b < n ==>
      d[a, b] == if a < i + 1 then Min(d0[a][b], d0[a][k] + d0[k][b]) else d0[a][b]
  {
    for j := 0 to n
      invariant forall a, b :: 0 <= a < n && 0 <= b < n ==>
        d[a, b] == if a < i || (a == i && b < j) then Min(d0[a][b], d0[a][k] + d0[k][b]) else d0[a][b]
    {
      assert d[i, k] == d0[i][k] && d[k, j] == d0[k][j] && d[i, j] == d0[i][j];
      if d[i, k] + d[k, j] < d[i, j] {
        d[i, j] := d[i, k] + d[k, j];
      }
    }
  }

  // ------------------------------------------------------ the initial chain

  /** Atom f has exactly one bond and some distance in its row is positive. */
  predicate ChainEnd(g: Graph, apsp: Matrix, f: nat)
    requires Square(apsp, g.atomCount) && f < g.atomCount
  {
    Degree(g, f) == 1 && exists j :: 0 <= j < g.atomCount && apsp[f][j] > 0
  }

  /** (start, end) is the first entry, in row then column order, holding
      the largest positive distance in the rows of atoms with one bond. */
  predicate FirstLongest(g: Graph, apsp: Matrix, start: int, end: int)
    requires Square(apsp, g.atomCount)
  {
    0 <= start < g.atomCount && 0 <= end < g.atomCount &&
    Degree(g, start) == 1 && apsp[start][end] > 0 &&
    forall f, j :: 0 <= f < g.atomCount && 0 <= j < g.atomCount && Degree(g, f) == 1 ==>
      apsp[f][j] <= apsp[start][end] &&
      ((f < start || (f == start && j < end)) ==> apsp[f][j] < apsp[start][end])
  }

  /** At most one entry is the first longest one, so the scan's start atom
      is determined by the matrix. */
  lemma FirstLongestUnique(g: Graph, apsp: Matrix, s1: int, e1: int, s2: int, e2: int)
    requires Square(apsp, g.atomCount)
    requires FirstLongest(g, apsp, s1, e1) && FirstLongest(g, apsp, s2, e2)
    ensures s1 == s2 && e1 == e2
  {
    assert apsp[s1][e1] <= apsp[s2][e2] && apsp[s2][e2] <= apsp[s1][e1];
  }

  /** The scan of atom_placer.js:31-43.  It keeps the first entry, in row
      then column order, holding the largest distance in the rows of atoms
      with exactly one bond; start is -1 when all those entries are 0 or no
      atom has exactly one bond. */
  method LongestChainStart(g: Graph, apsp: Matrix) returns (start: int, end: int)
    requires Square(apsp, g.atomCount)
    ensures start == -1 <==> forall f :: 0 <= f < g.atomCount ==> !ChainEnd(g, apsp, f)
    ensures start != -1 ==> FirstLongest(g, apsp, start, end)
  {
    var n := g.atomCount;
    var maxPathLength := 0;
    start, end := -1, -1;
    for f := 0 to n
      invariant start == -1 <==> forall a :: 0 <= a < f ==> !ChainEnd(g, apsp, a)
      invariant start == -1 ==> maxPathLength == 0
      invariant start != -1 ==> (0 <= start < f && 0 <= end < n && Degree(g, start) == 1 &&
        maxPathLength == apsp[start][end] > 0)
      invariant forall a, j :: 0 <= a < f && 0 <= j < n && Degree(g, a) == 1 ==>
        apsp[a][j] <= maxPathLength &&
        ((a < start || (a == start && j < end)) ==> apsp[a][j] < maxPathLength)
    {
      var c := GetConnectedBondsCount(g, f);
      if c == 1 {
        ghost var start0 := start;
        for j := 0 to n
          invariant start == -1 <==> start0 == -1 && forall b :: 0 <= b < j ==> apsp[f][b] <= 0
          invariant start == -1 ==> maxPathLength == 0
          invariant start != -1 ==> (0 <= start <= f && 0 <= end < n && Degree(g, start) == 1 &&
            maxPathLength == apsp[start][end] > 0)
          invariant start != start0 ==> start == f && end < j
          invariant forall b :: 0 <= b < j ==> apsp[f][b] <= maxPathLength
          invariant forall b :: 0 <= b < j && start == f && b < end ==> apsp[f][b] < maxPathLength
          invariant forall a, b :: 0 <= a < f && 0 <= b < n && Degree(g, a) == 1 ==>
            apsp[a][b] <= maxPathLength &&
            ((a < start || (a == start && b < end)) ==> apsp[a][b] < maxPathLength)
        {
          if apsp[f][j] > maxPathLength {
            maxPathLength := apsp[f][j];
            start, end := f, j;
          }
        }
        if start == -1 {
          assert !ChainEnd(g, apsp, f);
        }
      } else {
        assert !ChainEnd(g, apsp, f);
      }
      if start != -1 {
        assert ChainEnd(g, apsp, start);
      }
    }
  }

  // ---------------------------------------------------- coordinates present

  /** An atom with no usable 2D position: at the origin. */
  predicate AtOrigin(p: Vec)
  {
    p.x == 0.0 && p.y == 0.0
  }

  /** `has2DCoordinatesNew` (atom_placer.js:235-255) on a chain given as its
      atoms' coordinates, None standing for a null chain: 2 when every atom
      is off the origin, 1 when some are and some are not, 0 otherwise
      (null, empty, or all at the origin). */
  function Has2DCoordinates(chain: Option<seq<Vec>>): (r: int)
    ensures chain.None? ==> r == 0
    ensures chain.Some? ==>
      (r == 2 <==> |chain.value| > 0 && forall k :: 0 <= k < |chain.value| ==> !AtOrigin(chain.value[k]))
    ensures chain.Some? ==>
      (r == 1 <==> (exists k :: 0 <= k < |chain.value| && AtOrigin(chain.value[k])) &&
                   (exists k :: 0 <= k < |chain.value| && !AtOrigin(chain.value[k])))
    ensures r == 0 || r == 1 || r == 2
  {
    if chain.None? then 0
    else
      var no2d := AnyAtOrigin(chain.value);
      var with2d := AnyOffOrigin(chain.value);
      if !no2d && with2d then 2 else if no2d && with2d then 1 else 0
  }

  function AnyAtOrigin(ps: seq<Vec>): (r: bool)
    ensures r <==> exists k :: 0 <= k < |ps| && AtOrigin(ps[k])
  {
    if ps == [] then false
    else
      assert forall k :: 0 < k < |ps| ==> ps[k] == ps[1..][k - 1];
      AtOrigin(ps[0]) || AnyAtOrigin(ps[1..])
  }

  function AnyOffOrigin(ps: seq<Vec>): (r: bool)
    ensures r <==> exists k :: 0 <= k < |ps| && !AtOrigin(ps[k])
  {
    if ps == [] then false
    else
      assert forall k :: 0 < k < |ps| ==> ps[k] == ps[1..][k - 1];
      !AtOrigin(ps[0]) || AnyOffOrigin(ps[1..])
  }

  // ------------------------------------------------------------------ flags

  /** `allPlaced(molecule, atCount)` (atom_placer.js:328-332). */
  method AllPlaced(st: Layout, atCount: nat) returns (r: bool)
    requires atCount <= |st.placed|
    ensures r <==> forall a :: 0 <= a < atCount ==> st.placed[a]
  {
    for ap := 0 to atCount
      invariant forall a :: 0 <= a < ap ==> st.placed[a]
    {
      if !st.placed[ap] {
        return false;
      }
    }
    return true;
  }

  /** The flags of `flags` with every listed atom set to v. */
  function SetAll(flags: seq<bool>, atoms: seq<nat>, v: bool): (r: seq<bool>)
    ensures |r| == |flags|
    ensures forall a :: 0 <= a < |flags| ==> r[a] == if a in atoms then v else flags[a]
  {
    seq(|flags|, a requires 0 <= a < |flags| => if a in atoms then v else flags[a])
  }

  /** The loop behind `markPlaced`/`markNotPlaced` and the other places
      that set one flag on a list of atoms. */
  method MarkAll(st: Layout, atoms: seq<nat>, v: bool)
    requires forall k :: 0 <= k < |atoms| ==> atoms[k] < |st.placed|
    modifies st`placed
    ensures st.placed == SetAll(old(st.placed), atoms, v)
  {
    ghost var p0 := st.placed;
    for k := 0 to |atoms|
      invariant st.placed == SetAll(p0, atoms[..k], v)
    {
      st.placed := st.placed[atoms[k] := v];
      assert forall a :: a in atoms[..k + 1] <==> a in atoms[..k] || a == atoms[k];
    }
    assert atoms[..|atoms|] == atoms;
  }

  /** `markNotPlaced` (atom_placer.js:532-534): the listed atoms lose
      ISPLACED and no other atom changes. */
  method MarkNotPlaced(st: Layout, atoms: seq<nat>)
    requires forall k :: 0 <= k < |atoms| ==> atoms[k] < |st.placed|
    modifies st`placed
    ensures |st.placed| == old(|st.placed|)
    ensures forall a :: 0 <= a < |st.placed| ==> st.placed[a] == (a !in atoms && old(st.placed[a]))
  {
    MarkAll(st, atoms, false);
  }

  /** `markPlaced` (atom_placer.js:537-539): the listed atoms gain
      ISPLACED and no other atom changes. */
  method MarkPlaced(st: Layout, atoms: seq<nat>)
    requires forall k :: 0 <= k < |atoms| ==> atoms[k] < |st.placed|
    modifies st`placed
    ensures |st.placed| == old(|st.placed|)
    ensures forall a :: 0 <= a < |st.placed| ==> st.placed[a] == (a in atoms || old(st.placed[a]))
  {
    MarkAll(st, atoms, true);
  }

  /** `partitionPartners` (atom_placer.js:518-530) over the atom's bond set:
      each bond's other atom is added to `unplaced` when it lacks ISPLACED
      and to `placed` when it has it, each list skipping atoms it already
      holds; the result counts the bonds visited. */
  method PartitionPartners(g: Graph, st: Layout, atom: nat, unplaced0: seq<nat>, placed0: seq<nat>)
    returns (unplaced: seq<nat>, placed: seq<nat>, cntLoop: nat)
    requires g.WellFormed() && |st.placed| == g.atomCount
    ensures cntLoop == Degree(g, atom)
    ensures forall x :: x in unplaced <==> x in unplaced0 || (x in Neighbors(g, atom) && !st.placed[x])
    ensures forall x :: x in placed <==> x in placed0 || (x in Neighbors(g, atom) && st.placed[x])
  {
    var bonds := IncidentBonds(g, atom);
    unplaced, placed, cntLoop := unplaced0, placed0, 0;
    ghost var nbrs := Neighbors(g, atom);
    NeighborAt(g, atom, 0);
    for i := 0 to |bonds|
      invariant cntLoop == i && |nbrs| == |bonds|
      invariant Gathered(unplaced, unplaced0, nbrs[..i], st.placed, false)
      invariant Gathered(placed, placed0, nbrs[..i], st.placed, true)
    {
      cntLoop := cntLoop + 1;
      NeighborAt(g, atom, i);
      var other := OtherAtom(g.bonds[bonds[i]], atom).value;
      assert nbrs[..i + 1] == nbrs[..i] + [other];
      GatheredStep(unplaced, unplaced0, nbrs[..i], st.placed, false, other);
      GatheredStep(placed, placed0, nbrs[..i], st.placed, true, other);
      if !st.placed[other] {
        unplaced := AddAtom(unplaced, other);
      } else {
        placed := AddAtom(placed, other);
      }
    }
    assert nbrs[..|bonds|] == nbrs;
  }

  /** list holds the atoms of base and those of items whose flag is want. */
  ghost predicate Gathered(list: seq<nat>, base: seq<nat>, items: seq<nat>, flags: seq<bool>, want: bool)
    requires forall k :: 0 <= k < |items| ==> items[k] < |flags|
  {
    forall x :: x in list <==> x in base || (x in items && flags[x] == want)
  }

  lemma GatheredStep(list: seq<nat>, base: seq<nat>, items: seq<nat>, flags: seq<bool>, want: bool, y: nat)
    requires forall k :: 0 <= k < |items| ==> items[k] < |flags|
    requires y < |flags| && Gathered(list, base, items, flags, want)
    ensures Gathered(if flags[y] == want then AddAtom(list, y) else list, base, items + [y], flags, want)
  {
    assert forall x :: x in items + [y] <==> x in items || x == y;
  }

  // --------------------------------------------------- placement routines

  /** The number of atoms labelled 'H' among `atoms`. */
  function CountH(symbols: seq<string>, atoms: seq<nat>): nat
    requires forall k :: 0 <= k < |atoms| ==> atoms[k] < |symbols|
  {
    if atoms == [] then 0
    else CountH(symbols, atoms[..|atoms| - 1]) + (if symbols[atoms[|atoms| - 1]] == "H" then 1 else 0)
  }

  function Pow(b: real, e: nat): real
  {
    if e == 0 then 1.0 else b * Pow(b, e - 1)
  }

  /** The radius `populatePolygonCorners` uses for the atom at position ad:
      `radius *= .6` runs on the shared variable, so every 'H' up to and
      including this one shrinks it again. */
  function RadiusAt(symbols: seq<string>, atoms: seq<nat>, radius: real, ad: nat): real
    requires ad < |atoms| && forall k :: 0 <= k < |atoms| ==> atoms[k] < |symbols|
  {
    radius * Pow(0.6, CountH(symbols, atoms[..ad + 1]))
  }

  /** The angle at position ad: the start angle plus ad + 1 steps, each
      step subtracting 2 pi once when the angle reaches it. */
  function AngleAt(startAngle: real, addAngle: real, ad: nat): real
    decreases ad, 1
  {
    var a := AngleBefore(startAngle, addAngle, ad) + addAngle;
    if a >= TwoPi then a - TwoPi else a
  }

  lemma {:induction false} CountHMonotone(symbols: seq<string>, atoms: seq<nat>, p: nat, q: nat)
    requires p <= q <= |atoms| && forall k :: 0 <= k < |atoms| ==> atoms[k] < |symbols|
    ensures CountH(symbols, atoms[..p]) <= CountH(symbols, atoms[..q])
  {
    if p < q {
      CountHMonotone(symbols, atoms, p, q - 1);
      assert atoms[..q][..q - 1] == atoms[..q - 1];
    }
  }

  lemma {:induction false} PowShrinks(e: nat, f: nat)
    requires e <= f
    ensures 0.0 < Pow(0.6, f) <= Pow(0.6, e) <= 1.0
  {
    if e < f {
      PowShrinks(e, f - 1);
    } else if e > 0 {
      PowShrinks(e - 1, e - 1);
    }
  }

  /** The radius reduction is cumulative: after an 'H' at position p every
      later atom, 'H' or not, is placed at no more than 0.6 of the radius,
      while the atoms before the first 'H' keep the full radius. */
  lemma HydrogenShrinksLaterRadii(symbols: seq<string>, atoms: seq<nat>, radius: real, p: nat, q: nat)
    requires p <= q < |atoms| && forall k :: 0 <= k < |atoms| ==> atoms[k] < |symbols|
    requires radius >= 0.0 && symbols[atoms[p]] == "H"
    ensures RadiusAt(symbols, atoms, radius, q) <= 0.6 * radius
  {
    assert atoms[..p + 1][..p] == atoms[..p];
    assert CountH(symbols, atoms[..p + 1]) >= 1;
    CountHMonotone(symbols, atoms, p + 1, q + 1);
    var e := CountH(symbols, atoms[..q + 1]);
    PowShrinks(1, e);
    assert Pow(0.6, e) <= 0.6;
    assert radius * Pow(0.6, e) <= radius * 0.6;
  }

  /** Without an 'H' up to position q the radius is unchanged. */
  lemma {:induction false} NoHydrogenKeepsRadius(symbols: seq<string>, atoms: seq<nat>, radius: real, q: nat)
    requires q < |atoms| && forall k :: 0 <= k < |atoms| ==> atoms[k] < |symbols|
    requires forall k :: 0 <= k <= q ==> symbols[atoms[k]] != "H"
    ensures RadiusAt(symbols, atoms, radius, q) == radius
  {
    NoHydrogenCount(symbols, atoms[..q + 1]);
  }

  lemma {:induction false} NoHydrogenCount(symbols: seq<string>, atoms: seq<nat>)
    requires forall k :: 0 <= k < |atoms| ==> atoms[k] < |symbols| && symbols[atoms[k]] != "H"
    ensures CountH(symbols, atoms) == 0
  {
    if atoms != [] {
      NoHydrogenCount(symbols, atoms[..|atoms| - 1]);
    }
  }

  /** `populatePolygonCorners` (atom_placer.js:477-504).  `polar(angle, r)`
      stands for (cos(angle) * r, sin(angle) * r).  Every listed atom gains
      ISPLACED; the coordinates of listed atoms change, those of other atoms
      do not; and when the list has no repeats, the atom at position ad sits
      at the rotation centre plus the polar point for AngleAt and RadiusAt. */
  method PopulatePolygonCorners(st: Layout, symbols: seq<string>, atomsToDraw: seq<nat>, center: Vec,
                                startAngle: real, addAngle: real, radius: real, polar: (real, real) -> Vec)
    requires |st.coords| == |st.placed| == |symbols|
    requires forall k :: 0 <= k < |atomsToDraw| ==> atomsToDraw[k] < |symbols|
    modifies st`coords, st`placed
    ensures st.placed == SetAll(old(st.placed), atomsToDraw, true)
    ensures |st.coords| == old(|st.coords|)
    ensures forall a :: 0 <= a < |st.coords| && a !in atomsToDraw ==> st.coords[a] == old(st.coords[a])
    ensures Distinct(atomsToDraw) ==> forall ad :: 0 <= ad < |atomsToDraw| ==>
      st.coords[atomsToDraw[ad]] == Corner(symbols, atomsToDraw, center, startAngle, addAngle, radius, polar, ad)
  {
    var points := CornerPoints(symbols, atomsToDraw, center, startAngle, addAngle, radius, polar);
    WriteCorners(st, atomsToDraw, points);
  }

  /** The point for the atom at position ad: the rotation centre plus the
      polar point for AngleAt and RadiusAt. */
  function Corner(symbols: seq<string>, atoms: seq<nat>, center: Vec, startAngle: real, addAngle: real,
                  radius: real, polar: (real, real) -> Vec, ad: nat): Vec
    requires ad < |atoms| && forall k :: 0 <= k < |atoms| ==> atoms[k] < |symbols|
  {
    var p := polar(AngleAt(startAngle, addAngle, ad), RadiusAt(symbols, atoms, radius, ad));
    Vec(p.x + center.x, p.y + center.y)
  }

  /** atom_placer.js:480-498: the loop computing one point per atom. */
  method CornerPoints(symbols: seq<string>, atoms: seq<nat>, center: Vec,
                      startAngle: real, addAngle: real, radius: real, polar: (real, real) -> Vec)
    returns (points: seq<Vec>)
    requires forall k :: 0 <= k < |atoms| ==> atoms[k] < |symbols|
    ensures |points| == |atoms|
    ensures forall ad :: 0 <= ad < |atoms| ==>
      points[ad] == Corner(symbols, atoms, center, startAngle, addAngle, radius, polar, ad)
  {
    points := [];
    var angle := startAngle;
    var r := radius;
    for ad := 0 to |atoms|
      invariant |points| == ad
      invariant angle == AngleBefore(startAngle, addAngle, ad)
      invariant r == RadiusBefore(symbols, atoms, radius, ad)
      invariant forall k :: 0 <= k < ad ==>
        points[k] == Corner(symbols, atoms, center, startAngle, addAngle, radius, polar, k)
    {
      angle := angle + addAngle;
      if angle >= TwoPi {
        angle := angle - TwoPi;
      }
      var connectAtom := atoms[ad];
      if symbols[connectAtom] == "H" {
        r := r * 0.6;
      }
      RadiusStep(symbols, atoms, radius, ad);
      var p := polar(angle, r);
      points := points + [Vec(p.x + center.x, p.y + center.y)];
    }
  }

  /** The angle variable before position ad is handled. */
  function AngleBefore(startAngle: real, addAngle: real, ad: nat): real
    decreases ad, 0
  {
    if ad == 0 then startAngle else AngleAt(startAngle, addAngle, ad - 1)
  }

  /** The radius variable before position ad is handled. */
  function RadiusBefore(symbols: seq<string>, atoms: seq<nat>, radius: real, ad: nat): real
    requires ad <= |atoms| && forall k :: 0 <= k < |atoms| ==> atoms[k] < |symbols|
  {
    radius * Pow(0.6, CountH(symbols, atoms[..ad]))
  }

  /** One step of the shared radius variable. */
  lemma RadiusStep(symbols: seq<string>, atoms: seq<nat>, radius: real, ad: nat)
    requires ad < |atoms| && forall k :: 0 <= k < |atoms| ==> atoms[k] < |symbols|
    ensures RadiusAt(symbols, atoms, radius, ad) == RadiusBefore(symbols, atoms, radius, ad + 1)
    ensures RadiusAt(symbols, atoms, radius, ad) ==
      if symbols[atoms[ad]] == "H" then RadiusBefore(symbols, atoms, radius, ad) * 0.6
      else RadiusBefore(symbols, atoms, radius, ad)
  {
    assert atoms[..ad + 1][..ad] == atoms[..ad];
    var c := CountH(symbols, atoms[..ad]);
    if symbols[atoms[ad]] == "H" {
      assert Pow(0.6, c + 1) == 0.6 * Pow(0.6, c);
      assert radius * (0.6 * Pow(0.6, c)) == radius * Pow(0.6, c) * 0.6;
    }
  }

  /** atom_placer.js:499-503: each listed atom gets its point and ISPLACED. */
  method WriteCorners(st: Layout, atoms: seq<nat>, points: seq<Vec>)
    requires |atoms| == |points| && |st.coords| == |st.placed|
    requires forall k :: 0 <= k < |atoms| ==> atoms[k] < |st.coords|
    modifies st`coords, st`placed
    ensures st.placed == SetAll(old(st.placed), atoms, true)
    ensures |st.coords| == old(|st.coords|)
    ensures forall a :: 0 <= a < |st.coords| && a !in atoms ==> st.coords[a] == old(st.coords[a])
    ensures Distinct(atoms) ==> forall k :: 0 <= k < |atoms| ==> st.coords[atoms[k]] == points[k]
  {
    ghost var p0 := st.placed;
    ghost var c0 := st.coords;
    for ad := 0 to |atoms|
      invariant st.placed == SetAll(p0, atoms[..ad], true)
      invariant |st.coords| == |c0|
      invariant forall a :: 0 <= a < |c0| && a !in atoms[..ad] ==> st.coords[a] == c0[a]
      invariant Distinct(atoms) ==> forall k :: 0 <= k < ad ==> st.coords[atoms[k]] == points[k]
    {
      st.coords := st.coords[atoms[ad] := points[ad]];
      st.placed := st.placed[atoms[ad] := true];
      assert forall a :: a in atoms[..ad + 1] <==> a in atoms[..ad] || a == atoms[ad];
      if Distinct(atoms) {
        forall k | 0 <= k < ad
          ensures atoms[k] != atoms[ad]
        {
          DistinctAt(atoms, k, ad);
        }
      }
    }
    assert atoms[..|atoms|] == atoms;
  }

  lemma DistinctAt(s: seq<nat>, i: nat, j: nat)
    requires Distinct(s) && i < j < |s|
    ensures s[i] != s[j]
  {
  }

  /** The flag and coordinate effect of `placeLinearChain`
      (atom_placer.js:215-233).  `steps[f]` is the bond vector the source
      computes with trigonometry for the bond from chain[f] to chain[f + 1].
      Every chain atom after the first gains ISPLACED (the first is not
      touched), and when the chain has no repeats each atom sits one step
      from its predecessor. */
  method PlaceLinearChain(st: Layout, chain: seq<nat>, steps: seq<Vec>)
    requires |st.coords| == |st.placed|
    requires forall k :: 0 <= k < |chain| ==> chain[k] < |st.coords|
    requires |chain| > 0 ==> |steps| == |chain| - 1
    modifies st`coords, st`placed
    ensures |chain| > 0 ==> st.placed == SetAll(old(st.placed), chain[1..], true)
    ensures |chain| == 0 ==> st.placed == old(st.placed) && st.coords == old(st.coords)
    ensures |st.coords| == old(|st.coords|)
    ensures Distinct(chain) ==> forall f :: 0 <= f < |chain| - 1 ==>
      st.coords[chain[f + 1]] == Plus(st.coords[chain[f]], steps[f])
    ensures Distinct(chain) && |chain| > 0 ==> st.coords[chain[0]] == old(st.coords[chain[0]])
  {
    if |chain| == 0 {
      return;
    }
    ghost var p0 := st.placed;
    ghost var c0 := st.coords;
    for f := 0 to |chain| - 1
      invariant st.placed == SetAll(p0, chain[1..f + 1], true)
      invariant |st.coords| == |c0|
      invariant forall a :: 0 <= a < |c0| && a !in chain[1..f + 1] ==> st.coords[a] == c0[a]
      invariant Distinct(chain) ==> forall k :: 0 <= k < f ==> st.coords[chain[k + 1]] == Plus(st.coords[chain[k]], steps[k])
    {
      var atom := chain[f];
      var nextAtom := chain[f + 1];
      var atomPoint := Vec(st.coords[atom].x + steps[f].x, st.coords[atom].y + steps[f].y);
      if Distinct(chain) {
        forall k | 0 <= k < f + 1
          ensures chain[k] != nextAtom
        {
          DistinctAt(chain, k, f + 1);
        }
      }
      st.coords := st.coords[nextAtom := atomPoint];
      st.placed := st.placed[nextAtom := true];
      assert chain[1..f + 2] == chain[1..f + 1] + [nextAtom];
    }
    if Distinct(chain) {
      assert chain[0] !in chain[1..] by {
        forall k | 1 <= k < |chain|
          ensures chain[k] != chain[0]
        {
          DistinctAt(chain, 0, k);
        }
      }
    }
  }

  // ------------------------------------------------ the longest-chain search

  /** A chain the search may build from `start`: it begins at start,
      repeats no atom, joins consecutive atoms by a bond, has no ring atom
      except possibly its last, and adds only unplaced atoms after start. */
  predicate ChainFrom(g: Graph, placed: seq<bool>, inRing: seq<bool>, start: nat, p: seq<nat>)
    requires g.WellFormed() && |placed| == g.atomCount && |inRing| == g.atomCount
  {
    |p| > 0 && p[0] == start && Distinct(p) &&
    (forall i :: 0 <= i < |p| ==> p[i] < g.atomCount) &&
    (forall i :: 0 <= i < |p| - 1 ==> !inRing[p[i]] && p[i + 1] in Neighbors(g, p[i])) &&
    (forall i :: 1 <= i < |p| ==> !placed[p[i]])
  }

  /** The last atom of a path. */
  predicate EndsAt(p: seq<nat>, k: nat)
  {
    |p| > 0 && p[|p| - 1] == k
  }

  /** Path `p`, held for atom j, is a chain from start whose atoms other
      than j are VISITED. */
  predicate PathOk(g: Graph, placed: seq<bool>, inRing: seq<bool>, visited: seq<bool>, start: nat, j: nat, p: seq<nat>)
    requires g.WellFormed() && |placed| == g.atomCount && |inRing| == g.atomCount && |visited| == g.atomCount
  {
    ChainFrom(g, placed, inRing, start, p) &&
    forall i :: 0 <= i < |p| ==> p[i] == j || visited[p[i]]
  }

  /** Every atom's path is PathOk. */
  predicate PathsOk(g: Graph, placed: seq<bool>, inRing: seq<bool>, visited: seq<bool>, start: nat, paths: seq<seq<nat>>)
    requires g.WellFormed() && |placed| == g.atomCount && |inRing| == g.atomCount && |visited| == g.atomCount
  {
    |paths| == g.atomCount &&
    forall j :: 0 <= j < g.atomCount ==> PathOk(g, placed, inRing, visited, start, j, paths[j])
  }

  /** Extending a chain at its end, outside a ring, by an unplaced
      neighbour that it does not hold gives a chain. */
  lemma ChainExtend(g: Graph, placed: seq<bool>, inRing: seq<bool>, start: nat, p: seq<nat>, atom: nat, k: nat)
    requires g.WellFormed() && |placed| == g.atomCount && |inRing| == g.atomCount
    requires ChainFrom(g, placed, inRing, start, p) && EndsAt(p, atom) && atom < g.atomCount && !inRing[atom]
    requires k in Neighbors(g, atom) && k !in p && !placed[k]
    ensures ChainFrom(g, placed, inRing, start, p + [k])
  {
    var q := p + [k];
    forall i, j | 0 <= i < j < |q|
      ensures q[i] != q[j]
    {
      if j < |p| {
        assert q[i] == p[i] && q[j] == p[j];
      } else {
        assert q[i] == p[i];
      }
    }
  }

  /** The neighbours of `atom` the search moves to: neither VISITED nor
      ISPLACED. */
  predicate Reached(g: Graph, st: Layout, nb: seq<nat>, k: nat)
    reads st
    requires |st.placed| == g.atomCount && |st.visited| == g.atomCount
  {
    k in nb && k < g.atomCount && !st.visited[k] && !st.placed[k]
  }

  /** The paths after the bonds in `nb` of an atom with path P were
      followed: a reached atom has P plus itself, any other its old path. */
  ghost predicate Grown(g: Graph, st: Layout, nb: seq<nat>, P: seq<nat>, p0: seq<seq<nat>>, p: seq<seq<nat>>)
    reads st
    requires |st.placed| == g.atomCount && |st.visited| == g.atomCount
  {
    |p0| == g.atomCount && |p| == g.atomCount &&
    forall k :: 0 <= k < g.atomCount ==> p[k] == if Reached(g, st, nb, k) then P + [k] else p0[k]
  }

  /** Following bond i, to `next`, keeps the paths Grown and queues
      `next` exactly when it is reached and has more than one bond. */
  lemma GrownStep(g: Graph, st: Layout, nbrs: seq<nat>, i: nat, P: seq<nat>, p0: seq<seq<nat>>,
                  prev: seq<seq<nat>>, p: seq<seq<nat>>, sphere0: seq<nat>, s0: seq<nat>, s: seq<nat>)
    requires |st.placed| == g.atomCount && |st.visited| == g.atomCount && i < |nbrs| && nbrs[i] < g.atomCount
    requires Grown(g, st, nbrs[..i], P, p0, prev) && s0 == sphere0 + Queued(g, st, nbrs[..i])
    requires p == if !st.visited[nbrs[i]] && !st.placed[nbrs[i]] then prev[nbrs[i] := P + [nbrs[i]]] else prev
    requires s == if !st.visited[nbrs[i]] && !st.placed[nbrs[i]] && Degree(g, nbrs[i]) > 1 then s0 + [nbrs[i]] else s0
    ensures Grown(g, st, nbrs[..i + 1], P, p0, p) && s == sphere0 + Queued(g, st, nbrs[..i + 1])
  {
    assert nbrs[..i + 1] == nbrs[..i] + [nbrs[i]];
    GrownSnoc(g, st, nbrs[..i], nbrs[i], P, p0, prev, p);
    QueuedStep(g, st, nbrs, i, sphere0, s0, s);
  }

  /** Following bond i queues its end exactly when the end is reached and
      has more than one bond. */
  lemma QueuedStep(g: Graph, st: Layout, nbrs: seq<nat>, i: nat, sphere0: seq<nat>, s0: seq<nat>, s: seq<nat>)
    requires |st.placed| == g.atomCount && |st.visited| == g.atomCount && i < |nbrs| && nbrs[i] < g.atomCount
    requires s0 == sphere0 + Queued(g, st, nbrs[..i])
    requires s == if !st.visited[nbrs[i]] && !st.placed[nbrs[i]] && Degree(g, nbrs[i]) > 1 then s0 + [nbrs[i]] else s0
    ensures s == sphere0 + Queued(g, st, nbrs[..i + 1])
  {
    var next := nbrs[i];
    assert nbrs[..i + 1] == nbrs[..i] + [next];
    QueuedSnoc(g, st, nbrs[..i], next);
    var tail := if !st.visited[next] && !st.placed[next] && Degree(g, next) > 1 then [next] else [];
    assert s == s0 + tail;
    AppendAssoc(sphere0, Queued(g, st, nbrs[..i]), tail);
  }

  /** Following one more bond, to x, keeps the paths Grown. */
  lemma GrownSnoc(g: Graph, st: Layout, nb: seq<nat>, x: nat, P: seq<nat>, p0: seq<seq<nat>>,
                  prev: seq<seq<nat>>, p: seq<seq<nat>>)
    requires |st.placed| == g.atomCount && |st.visited| == g.atomCount && x < g.atomCount
    requires Grown(g, st, nb, P, p0, prev)
    requires p == if !st.visited[x] && !st.placed[x] then prev[x := P + [x]] else prev
    ensures Grown(g, st, nb + [x], P, p0, p)
  {
    forall k | 0 <= k < g.atomCount
      ensures p[k] == if Reached(g, st, nb + [x], k) then P + [k] else p0[k]
    {
      assert (k in nb + [x]) == (k in nb || k == x);
      if k != x {
        assert Reached(g, st, nb + [x], k) == Reached(g, st, nb, k);
        assert p[k] == prev[k];
      }
    }
  }

  lemma QueuedSnoc(g: Graph, st: Layout, nb: seq<nat>, x: nat)
    requires |st.placed| == g.atomCount && |st.visited| == g.atomCount
    ensures Queued(g, st, nb + [x]) == Queued(g, st, nb) +
      (if x < g.atomCount && !st.visited[x] && !st.placed[x] && Degree(g, x) > 1 then [x] else [])
  {
    assert (nb + [x])[..|nb|] == nb;
  }

  /** The atoms of `nb`, in order, that the search queues: reached and
      with more than one bond.  An atom met through two bonds is queued
      twice. */
  function Queued(g: Graph, st: Layout, nb: seq<nat>): (q: seq<nat>)
    reads st
    requires |st.placed| == g.atomCount && |st.visited| == g.atomCount
  {
    if nb == [] then []
    else
      var x := nb[|nb| - 1];
      Queued(g, st, nb[..|nb| - 1]) +
        (if x < g.atomCount && !st.visited[x] && !st.placed[x] && Degree(g, x) > 1 then [x] else [])
  }

  /** The queued atoms are exactly the reached ones with more than one
      bond. */
  lemma {:induction false} QueuedMembers(g: Graph, st: Layout, nb: seq<nat>)
    requires |st.placed| == g.atomCount && |st.visited| == g.atomCount
    ensures forall x :: x in Queued(g, st, nb) <==> Reached(g, st, nb, x) && Degree(g, x) > 1
  {
    if nb != [] {
      var init := nb[..|nb| - 1];
      QueuedMembers(g, st, init);
      assert nb == init + [nb[|nb| - 1]];
      forall x
        ensures x in nb <==> x in init || x == nb[|nb| - 1]
      {
      }
    }
  }

  /** Growing the paths from a VISITED atom outside a ring keeps them
      PathOk. */
  lemma GrownPathsOk(g: Graph, st: Layout, atom: nat, P: seq<nat>, p0: seq<seq<nat>>, p: seq<seq<nat>>, start: nat)
    requires g.WellFormed() && |st.placed| == g.atomCount && |st.inRing| == g.atomCount && |st.visited| == g.atomCount
    requires PathsOk(g, st.placed, st.inRing, st.visited, start, p0)
    requires atom < g.atomCount && st.visited[atom] && !st.inRing[atom] && P == p0[atom] && EndsAt(P, atom)
    requires Grown(g, st, Neighbors(g, atom), P, p0, p)
    ensures PathsOk(g, st.placed, st.inRing, st.visited, start, p)
  {
    assert PathOk(g, st.placed, st.inRing, st.visited, start, atom, P);
    forall j | 0 <= j < g.atomCount
      ensures PathOk(g, st.placed, st.inRing, st.visited, start, j, p[j])
    {
      if Reached(g, st, Neighbors(g, atom), j) {
        assert j !in P by {
          assert forall q :: 0 <= q < |P| ==> P[q] == atom || st.visited[P[q]];
        }
        ChainExtend(g, st.placed, st.inRing, start, P, atom, j);
        assert p[j] == P + [j];
      } else {
        assert p[j] == p0[j];
        assert PathOk(g, st.placed, st.inRing, st.visited, start, j, p0[j]);
      }
    }
  }

  /** atom_placer.js:180-188, one bond of the atom: a neighbour that is
      neither VISITED nor ISPLACED gets a copy of the atom's path with
      itself appended and, with more than one bond, joins the next sphere. */
  method VisitNeighbour(g: Graph, st: Layout, atom: nat, paths: array<seq<nat>>, sphere0: seq<nat>, next: nat)
    returns (sphere: seq<nat>)
    requires g.WellFormed() && |st.placed| == g.atomCount && |st.visited| == g.atomCount
    requires paths.Length == g.atomCount && atom < g.atomCount && next < g.atomCount
    requires forall q :: q in paths[atom] ==> q < g.atomCount && st.visited[q]
    modifies paths
    ensures paths[..] == if !st.visited[next] && !st.placed[next]
      then old(paths[..])[next := old(paths[atom]) + [next]] else old(paths[..])
    ensures sphere == if !st.visited[next] && !st.placed[next] && Degree(g, next) > 1
      then sphere0 + [next] else sphere0
  {
    sphere := sphere0;
    if !st.visited[next] && !st.placed[next] {
      var copy := paths[atom];
      paths[next] := AddAtom(copy, next);
      var c := GetConnectedBondsCount(g, next);
      if c > 1 {
        sphere := sphere + [next];
      }
    }
  }

  /** atom_placer.js:176-190, the bonds of one atom of the sphere: each
      neighbour that is neither VISITED nor ISPLACED gets the atom's path
      plus itself, and is queued when it has more than one bond. */
  method ExpandAtom(g: Graph, st: Layout, atom: nat, paths: array<seq<nat>>, sphere0: seq<nat>)
    returns (sphere: seq<nat>)
    requires g.WellFormed() && |st.placed| == g.atomCount && |st.visited| == g.atomCount
    requires paths.Length == g.atomCount && atom < g.atomCount && st.visited[atom]
    requires forall q :: q in paths[atom] ==> q < g.atomCount && st.visited[q]
    modifies paths
    ensures Grown(g, st, Neighbors(g, atom), old(paths[atom]), old(paths[..]), paths[..])
    ensures sphere == sphere0 + Queued(g, st, Neighbors(g, atom))
  {
    var bonds := IncidentBonds(g, atom);
    NeighborsFollowBonds(g, atom, |g.bonds|);
    ghost var nbrs := Neighbors(g, atom);
    ghost var p0 := paths[..];
    ghost var P := paths[atom];
    assert |nbrs| == |bonds|;
    sphere := sphere0;
    for i := 0 to |bonds|
      invariant paths[atom] == P
      invariant Grown(g, st, nbrs[..i], P, p0, paths[..])
      invariant sphere == sphere0 + Queued(g, st, nbrs[..i])
    {
      var next := OtherAtom(g.bonds[bonds[i]], atom).value;
      assert next == nbrs[i];
      ghost var prev := paths[..];
      ghost var s0 := sphere;
      sphere := VisitNeighbour(g, st, atom, paths, sphere, next);
      GrownStep(g, st, nbrs, i, P, p0, prev, paths[..], sphere0, s0, sphere);
    }
    assert nbrs[..|bonds|] == nbrs;
  }

  /** The path entries of `paths` changed only at atoms that were neither
      VISITED nor ISPLACED, and each changed entry ends at its atom. */
  predicate ChangedOnlyFresh(p0: seq<seq<nat>>, p1: seq<seq<nat>>, visited0: seq<bool>, placed: seq<bool>)
    requires |p0| == |p1| == |visited0| == |placed|
  {
    forall k :: 0 <= k < |p0| ==> p1[k] == p0[k] || (!visited0[k] && !placed[k] && EndsAt(p1[k], k))
  }

  /** The atoms of a VISITED atom's path are all VISITED. */
  lemma PathAtomsVisited(g: Graph, st: Layout, atom: nat, p: seq<seq<nat>>, start: nat)
    requires g.WellFormed() && |st.placed| == g.atomCount && |st.inRing| == g.atomCount && |st.visited| == g.atomCount
    requires PathsOk(g, st.placed, st.inRing, st.visited, start, p)
    requires atom < g.atomCount && st.visited[atom]
    ensures forall q :: q in p[atom] ==> q < g.atomCount && st.visited[q]
  {
    assert PathOk(g, st.placed, st.inRing, st.visited, start, atom, p[atom]);
    forall q | q in p[atom]
      ensures q < g.atomCount && st.visited[q]
    {
      var i :| 0 <= i < |p[atom]| && p[atom][i] == q;
    }
  }

  /** What expanding one atom of the sphere leaves: the paths are still
      PathOk, the queue holds unvisited atoms whose paths end at them, and
      only the paths of reached atoms changed. */
  lemma AfterExpand(g: Graph, st: Layout, atom: nat, pb: seq<seq<nat>>, p: seq<seq<nat>>, sb: seq<nat>, s: seq<nat>, start: nat)
    requires g.WellFormed() && |st.placed| == g.atomCount && |st.inRing| == g.atomCount && |st.visited| == g.atomCount
    requires PathsOk(g, st.placed, st.inRing, st.visited, start, pb)
    requires atom < g.atomCount && st.visited[atom] && !st.inRing[atom] && EndsAt(pb[atom], atom)
    requires Grown(g, st, Neighbors(g, atom), pb[atom], pb, p)
    requires s == sb + Queued(g, st, Neighbors(g, atom))
    requires forall x :: x in sb ==> x < g.atomCount && !st.visited[x] && EndsAt(pb[x], x)
    ensures PathsOk(g, st.placed, st.inRing, st.visited, start, p)
    ensures forall x :: x in s ==> x < g.atomCount && !st.visited[x] && EndsAt(p[x], x)
    ensures forall k :: 0 <= k < g.atomCount ==> p[k] == pb[k] || (!st.visited[k] && !st.placed[k] && EndsAt(p[k], k))
  {
    GrownPathsOk(g, st, atom, pb[atom], pb, p, start);
    QueuedMembers(g, st, Neighbors(g, atom));
    forall x | x in s
      ensures x < g.atomCount && !st.visited[x] && EndsAt(p[x], x)
    {
      if x !in sb {
        assert x in Queued(g, st, Neighbors(g, atom));
      }
    }
  }

  /** `breadthFirstSearch` (atom_placer.js:170-200).  Atoms flagged
      ISINRING are never expanded; a path changes only at an atom that was
      neither VISITED nor ISPLACED, and then to a chain from the start atom
      ending at that atom; VISITED flags are only ever added.  Each round
      marks at least one more atom VISITED, which bounds the recursion. */
  method BreadthFirstSearch(g: Graph, st: Layout, sphere: seq<nat>, paths: array<seq<nat>>, ghost start: nat)
    requires g.WellFormed() && |st.placed| == g.atomCount && |st.inRing| == g.atomCount && |st.visited| == g.atomCount
    requires PathsOk(g, st.placed, st.inRing, st.visited, start, paths[..])
    requires forall x :: x in sphere ==> x < g.atomCount && st.visited[x] && EndsAt(paths[x], x)
    modifies st`visited, paths
    decreases CountFalse(st.visited)
    ensures |st.visited| == g.atomCount
    ensures forall a :: 0 <= a < g.atomCount ==> old(st.visited[a]) ==> st.visited[a]
    ensures PathsOk(g, st.placed, st.inRing, st.visited, start, paths[..])
    ensures ChangedOnlyFresh(old(paths[..]), paths[..], old(st.visited), st.placed)
  {
    var newSphere: seq<nat> := [];
    ghost var p0 := paths[..];
    for f := 0 to |sphere|
      invariant st.visited == old(st.visited)
      invariant PathsOk(g, st.placed, st.inRing, st.visited, start, paths[..])
      invariant forall x :: x in newSphere ==> x < g.atomCount && !st.visited[x] && EndsAt(paths[x], x)
      invariant forall k :: 0 <= k < g.atomCount && st.visited[k] ==> paths[k] == p0[k]
      invariant ChangedOnlyFresh(p0, paths[..], st.visited, st.placed)
    {
      var atom := sphere[f];
      assert atom in sphere;
      if !st.inRing[atom] {
        ghost var pb := paths[..];
        ghost var sb := newSphere;
        PathAtomsVisited(g, st, atom, pb, start);
        newSphere := ExpandAtom(g, st, atom, paths, newSphere);
        AfterExpand(g, st, atom, pb, paths[..], sb, newSphere, start);
      }
    }
    if |newSphere| > 0 {
      ghost var v0 := st.visited;
      ghost var p1 := paths[..];
      assert newSphere[0] in newSphere;
      MarkVisited(st, newSphere);
      forall x | x in newSphere
        ensures x < g.atomCount && st.visited[x] && EndsAt(paths[x], x)
      {
      }
      BreadthFirstSearch(g, st, newSphere, paths, start);
      forall k | 0 <= k < g.atomCount
        ensures paths[k] == p0[k] || (!v0[k] && !st.placed[k] && EndsAt(paths[k], k))
      {
        if paths[k] != p1[k] {
          assert !v0[k];
        }
      }
    }
  }

  /** atom_placer.js:194-197: the queued atoms become VISITED.  The first of
      them was not, so the number of atoms left unvisited drops. */
  method MarkVisited(st: Layout, atoms: seq<nat>)
    requires |atoms| > 0 && forall x :: x in atoms ==> x < |st.visited|
    requires atoms[0] < |st.visited| && !st.visited[atoms[0]]
    modifies st`visited
    ensures st.visited == SetAll(old(st.visited), atoms, true)
    ensures CountFalse(st.visited) < CountFalse(old(st.visited))
  {
    ghost var v0 := st.visited;
    for k := 0 to |atoms|
      invariant st.visited == SetAll(v0, atoms[..k], true)
      invariant CountFalse(st.visited) <= CountFalse(v0)
      invariant k > 0 ==> CountFalse(st.visited) < CountFalse(v0)
    {
      assert atoms[k] in atoms;
      CountFalseSet(st.visited, atoms[k]);
      st.visited := st.visited[atoms[k] := true];
      assert atoms[..k + 1] == atoms[..k] + [atoms[k]];
    }
    assert atoms[..|atoms|] == atoms;
  }

  /** atom_placer.js:120-133, the choice among the paths: a path replaces
      the best so far when it is at least as long and its degree sum is
      strictly larger; index 0 is the default. */
  method SelectLongest(g: Graph, paths: seq<seq<nat>>) returns (longest: nat)
    ensures |paths| > 0 ==> longest < |paths|
    ensures |paths| == 0 ==> longest == 0
    ensures (forall ds :: 0 <= ds < |paths| ==> DegreeSum(g, paths[ds]) == 0) ==> longest == 0
    ensures longest < |paths| && DegreeSum(g, paths[longest]) > 0 ==> forall ds :: longest < ds < |paths| ==>
      !(|paths[ds]| >= |paths[longest]| && DegreeSum(g, paths[ds]) > DegreeSum(g, paths[longest]))
    ensures (exists ds :: 0 <= ds < |paths| && DegreeSum(g, paths[ds]) > 0) ==> DegreeSum(g, paths[longest]) > 0
  {
    longest := 0;
    var longestPathLength := 0;
    var maxDegreeSum := 0;
    for ds := 0 to |paths|
      invariant longest <= ds && (longest < ds || longest == 0)
      invariant maxDegreeSum == 0 ==> (longest == 0 && longestPathLength == 0 &&
        forall d :: 0 <= d < ds ==> DegreeSum(g, paths[d]) == 0)
      invariant maxDegreeSum > 0 ==> (longest < ds &&
        maxDegreeSum == DegreeSum(g, paths[longest]) && longestPathLength == |paths[longest]|)
      invariant forall d :: longest < d < ds ==>
        !(|paths[d]| >= longestPathLength && DegreeSum(g, paths[d]) > maxDegreeSum)
    {
      if |paths[ds]| >= longestPathLength {
        var degreeSum := GetDegreeSum(g, paths[ds]);
        if degreeSum > maxDegreeSum {
          maxDegreeSum := degreeSum;
          longest := ds;
          longestPathLength := |paths[ds]|;
        }
      }
    }
  }

  /** `getLongestUnplacedChain` (atom_placer.js:103-136).  Every atom's
      path starts as [startAtom]; the search grows them; a path is taken
      when it is at least as long as the best so far and its degree sum is
      strictly larger, and paths[0] is the default.  The result is a chain
      from startAtom: no repeated atom, consecutive atoms bonded, no ring atom
      before its last, and no atom after the first already placed. */
  method GetLongestUnplacedChain(g: Graph, st: Layout, startAtom: nat)
    returns (chain: seq<nat>, ghost paths: seq<seq<nat>>, longest: nat)
    requires g.WellFormed() && |st.placed| == g.atomCount && |st.inRing| == g.atomCount && |st.visited| == g.atomCount
    requires startAtom < g.atomCount
    modifies st`visited
    ensures |st.visited| == g.atomCount && st.visited[startAtom]
    ensures ChainFrom(g, st.placed, st.inRing, startAtom, chain)
    ensures |paths| == g.atomCount && longest < g.atomCount && chain == paths[longest]
    ensures forall ds :: 0 <= ds < g.atomCount ==> ChainFrom(g, st.placed, st.inRing, startAtom, paths[ds])
    ensures (forall ds :: 0 <= ds < g.atomCount ==> DegreeSum(g, paths[ds]) == 0) ==> longest == 0
    ensures (exists ds :: 0 <= ds < g.atomCount && DegreeSum(g, paths[ds]) > 0) ==> DegreeSum(g, chain) > 0
    ensures DegreeSum(g, chain) > 0 ==> forall ds :: longest < ds < g.atomCount ==>
      !(|paths[ds]| >= |chain| && DegreeSum(g, paths[ds]) > DegreeSum(g, chain))
  {
    var n := g.atomCount;
    var pathArr := new seq<nat>[n](_ => [startAtom]);
    st.visited := seq(n, _ => false);
    st.visited := st.visited[startAtom := true];
    assert PathsOk(g, st.placed, st.inRing, st.visited, startAtom, pathArr[..]);
    BreadthFirstSearch(g, st, [startAtom], pathArr, startAtom);
    paths := pathArr[..];
    longest := SelectLongest(g, pathArr[..]);
    chain := pathArr[longest];
    forall ds | 0 <= ds < n
      ensures ChainFrom(g, st.placed, st.inRing, startAtom, paths[ds])
    {
      assert PathOk(g, st.placed, st.inRing, st.visited, startAtom, ds, paths[ds]);
    }
  }

  /** The TypeError of `molecule.addAtom(undefined)` on the first path
      (molecule.js sets `atom.molecule`). */
  const SetMoleculeError := "TypeError: Cannot set properties of undefined (setting 'molecule')"

  /** The TypeError of `startAtom.flags[...]` with no start atom. */
  const ReadFlagsError := "TypeError: Cannot read properties of undefined (reading 'flags')"

  /** `getInitialLongestChain` (atom_placer.js:21-58): the distances are
      computed from the connection matrix, the search starts from the first
      atom with exactly one bond at the largest distance from another atom,
      and the longest unplaced chain from there is returned.  When no atom
      with one bond reaches another, `getAtom(-1)` is undefined and the search
      fails with a TypeError: in `addAtom` on the first path, or on the start
      atom's flags when there are no atoms. */
  method GetInitialLongestChain(g: Graph, st: Layout) returns (r: Result<seq<nat>>, ghost apsp: Matrix, ghost end: int)
    requires g.WellFormed() && |st.placed| == g.atomCount && |st.inRing| == g.atomCount && |st.visited| == g.atomCount
    modifies st`visited
    ensures Square(apsp, g.atomCount) && ZeroDiagonal(apsp, g.atomCount) && NonNegative(apsp, g.atomCount)
    ensures TriangleBelow(apsp, g.atomCount, g.atomCount)
    ensures r.Ok? <==> exists f :: 0 <= f < g.atomCount && ChainEnd(g, apsp, f)
    ensures r.Ok? ==> (|r.value| > 0 && r.value[0] < g.atomCount && ChainEnd(g, apsp, r.value[0]) &&
      FirstLongest(g, apsp, r.value[0], end) && ChainFrom(g, st.placed, st.inRing, r.value[0], r.value))
    ensures r.Err? ==> r.error == if g.atomCount == 0 then ReadFlagsError else SetMoleculeError
    ensures |st.visited| == g.atomCount
  {
    var connectionMatrix := ConnectionMatrix.GetMatrix(g);
    var d := ComputeFloydAPSP(connectionMatrix);
    apsp := Rows(d);
    var start, last := LongestChainStart(g, Rows(d));
    end := last;
    if start == -1 {
      if g.atomCount == 0 {
        return Err(ReadFlagsError), apsp, end;
      }
      return Err(SetMoleculeError), apsp, end;
    }
    assert ChainEnd(g, apsp, start);
    var chain, paths, longest := GetLongestUnplacedChain(g, st, start);
    r := Ok(chain);
  }

  // ------------------------------------------------------------- sorting

  /** The (squared) distance of every atom from `point`. */
  function Distances(coords: seq<Vec>, point: Vec): (key: seq<real>)
    ensures |key| == |coords|
    ensures forall a :: 0 <= a < |coords| ==> key[a] == SqDist(point, coords[a])
  {
    seq(|coords|, a requires 0 <= a < |coords| => SqDist(point, coords[a]))
  }

  /** Atoms in order of their key, smallest first. */
  predicate SortedBy(atoms: seq<nat>, key: seq<real>)
    requires forall i :: 0 <= i < |atoms| ==> atoms[i] < |key|
  {
    forall i, j :: 0 <= i < j < |atoms| ==> key[atoms[i]] <= key[atoms[j]]
  }

  /** The last k places hold the k atoms with the largest keys, in order. */
  predicate SettledSuffix(atoms: seq<nat>, key: seq<real>, k: nat)
    requires forall i :: 0 <= i < |atoms| ==> atoms[i] < |key|
  {
    forall i, j :: 0 <= i < j < |atoms| && |atoms| - k <= j ==> key[atoms[i]] <= key[atoms[j]]
  }

  /** What a bubble pass has established after its first i comparisons:
      the settled suffix is kept, place i holds the largest key seen so
      far, the place before the suffix is settled once reached, nothing
      swapped means the first i + 1 places are in order, and a swap means
      at least two places were not settled. */
  ghost predicate PassSoFar(s: seq<nat>, key: seq<real>, k: nat, i: nat, swapped: bool)
    requires forall j :: 0 <= j < |s| ==> s[j] < |key|
  {
    var n := |s|;
    k <= n && (n == 0 || i <= n - 1) &&
    SettledSuffix(s, key, k) &&
    (i < n ==> forall j :: 0 <= j < i ==> key[s[j]] <= key[s[i]]) &&
    (k < n && i >= n - k - 1 ==> forall j :: 0 <= j < n - k - 1 ==> key[s[j]] <= key[s[n - k - 1]]) &&
    (!swapped ==> forall j1, j2 :: 0 <= j1 < j2 <= i && j2 < n ==> key[s[j1]] <= key[s[j2]]) &&
    (swapped ==> k + 2 <= n)
  }

  /** One comparison of the pass keeps PassSoFar. */
  lemma PassStep(s: seq<nat>, t: seq<nat>, key: seq<real>, k: nat, i: nat, swapped: bool)
    requires forall j :: 0 <= j < |s| ==> s[j] < |key|
    requires PassSoFar(s, key, k, i, swapped) && i + 1 < |s|
    requires t == if key[s[i + 1]] < key[s[i]] then s[i := s[i + 1]][i + 1 := s[i]] else s
    ensures forall j :: 0 <= j < |t| ==> t[j] < |key|
    ensures PassSoFar(t, key, k, i + 1, swapped || key[s[i + 1]] < key[s[i]])
  {
    if key[s[i + 1]] < key[s[i]] {
      PassSwap(s, key, k, i, swapped);
    } else {
      PassKeep(s, key, k, i, swapped);
    }
  }

  /** A comparison that swaps keeps PassSoFar. */
  lemma PassSwap(s: seq<nat>, key: seq<real>, k: nat, i: nat, swapped: bool)
    requires forall j :: 0 <= j < |s| ==> s[j] < |key|
    requires PassSoFar(s, key, k, i, swapped) && i + 1 < |s| && key[s[i + 1]] < key[s[i]]
    ensures PassSoFar(s[i := s[i + 1]][i + 1 := s[i]], key, k, i + 1, true)
  {
    var n := |s|;
    var t := s[i := s[i + 1]][i + 1 := s[i]];
    assert i + 1 < n - k;
    forall j | 0 <= j < i + 1
      ensures key[t[j]] <= key[t[i + 1]]
    {
      if j < i {
        assert key[s[j]] <= key[s[i]];
      }
    }
    assert SettledSuffix(t, key, k) by {
      forall i1, j1 | 0 <= i1 < j1 < n && n - k <= j1
        ensures key[t[i1]] <= key[t[j1]]
      {
        assert t[j1] == s[j1];
        if i1 == i {
          assert key[s[i + 1]] <= key[s[j1]];
        } else if i1 == i + 1 {
          assert key[s[i]] <= key[s[j1]];
        } else {
          assert t[i1] == s[i1];
        }
      }
    }
  }

  /** A comparison that keeps the order keeps PassSoFar. */
  lemma PassKeep(s: seq<nat>, key: seq<real>, k: nat, i: nat, swapped: bool)
    requires forall j :: 0 <= j < |s| ==> s[j] < |key|
    requires PassSoFar(s, key, k, i, swapped) && i + 1 < |s| && key[s[i]] <= key[s[i + 1]]
    ensures PassSoFar(s, key, k, i + 1, swapped)
  {
  }

  /** A finished pass settles one more place and, without a swap, leaves
      everything in order. */
  lemma PassDone(s: seq<nat>, key: seq<real>, k: nat, swapped: bool)
    requires forall j :: 0 <= j < |s| ==> s[j] < |key|
    requires PassSoFar(s, key, k, if |s| == 0 then 0 else |s| - 1, swapped)
    ensures SettledSuffix(s, key, if k < |s| then k + 1 else k)
    ensures swapped ==> k + 2 <= |s|
    ensures !swapped ==> SortedBy(s, key)
  {
  }

  /** atom_placer.js:457-463, one comparison: the atoms at i and i + 1
      change places when the second is nearer to `point`. */
  method CompareAndSwap(atoms: array<nat>, coords: seq<Vec>, point: Vec, i: nat, ghost k: nat, ghost swapped0: bool)
    returns (swapped: bool)
    requires forall j :: 0 <= j < atoms.Length ==> atoms[j] < |coords|
    requires i + 1 < atoms.Length && PassSoFar(atoms[..], Distances(coords, point), k, i, swapped0)
    modifies atoms
    ensures multiset(atoms[..]) == multiset(old(atoms[..]))
    ensures forall j :: 0 <= j < atoms.Length ==> atoms[j] < |coords|
    ensures PassSoFar(atoms[..], Distances(coords, point), k, i + 1, swapped0 || swapped)
  {
    ghost var s := atoms[..];
    var atom1 := atoms[i];
    var atom2 := atoms[i + 1];
    var distance1 := SqDist(point, coords[atom1]);
    var distance2 := SqDist(point, coords[atom2]);
    swapped := false;
    if distance2 < distance1 {
      atoms[i], atoms[i + 1] := atom2, atom1;
      swapped := true;
    }
    PassStep(s, atoms[..], Distances(coords, point), k, i, swapped0);
  }

  /** One pass of the bubble sort in `sortBy2DDistance`
      (atom_placer.js:455-464): each neighbouring pair out of order is
      swapped.  Afterwards one more atom is settled at the end; a pass that
      swapped nothing leaves the atoms sorted, and a pass that swapped
      something found at least two atoms not yet settled. */
  method BubblePass(atoms: array<nat>, coords: seq<Vec>, point: Vec, ghost k: nat) returns (swapped: bool)
    requires forall i :: 0 <= i < atoms.Length ==> atoms[i] < |coords|
    requires k <= atoms.Length && SettledSuffix(atoms[..], Distances(coords, point), k)
    modifies atoms
    ensures multiset(atoms[..]) == multiset(old(atoms[..]))
    ensures forall i :: 0 <= i < atoms.Length ==> atoms[i] < |coords|
    ensures SettledSuffix(atoms[..], Distances(coords, point), if k < atoms.Length then k + 1 else k)
    ensures swapped ==> k + 2 <= atoms.Length
    ensures !swapped ==> SortedBy(atoms[..], Distances(coords, point))
  {
    var n := atoms.Length;
    swapped := false;
    var i := 0;
    while i < n - 1
      invariant 0 <= i && (n == 0 || i <= n - 1)
      invariant multiset(atoms[..]) == multiset(old(atoms[..]))
      invariant forall j :: 0 <= j < n ==> atoms[j] < |coords|
      invariant PassSoFar(atoms[..], Distances(coords, point), k, i, swapped)
    {
      var did := CompareAndSwap(atoms, coords, point, i, k, swapped);
      swapped := swapped || did;
      i := i + 1;
    }
    PassDone(atoms[..], Distances(coords, point), k, swapped);
  }

  /** `sortBy2DDistance` (atom_placer.js:450-467): passes repeat until one
      swaps nothing.  The result is a permutation of the atoms ordered by
      distance from `point`, nearest first. */
  method SortBy2DDistance(atoms: array<nat>, coords: seq<Vec>, point: Vec)
    requires forall i :: 0 <= i < atoms.Length ==> atoms[i] < |coords|
    modifies atoms
    ensures multiset(atoms[..]) == multiset(old(atoms[..]))
    ensures forall i :: 0 <= i < atoms.Length ==> atoms[i] < |coords|
    ensures SortedBy(atoms[..], Distances(coords, point))
  {
    var n := atoms.Length;
    var doneSomething := true;
    ghost var k: nat := 0;
    while doneSomething
      invariant multiset(atoms[..]) == multiset(old(atoms[..]))
      invariant forall i :: 0 <= i < n ==> atoms[i] < |coords|
      invariant k <= n && SettledSuffix(atoms[..], Distances(coords, point), k)
      invariant !doneSomething ==> SortedBy(atoms[..], Distances(coords, point))
      decreases if doneSomething then n + 1 - k else 0
    {
      doneSomething := BubblePass(atoms, coords, point, k);
      k := if k < n then k + 1 else k;
    }
  }
}
