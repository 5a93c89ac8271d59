// src/layout/coordinate_generator.js: the driver of the 2D layout.
// `generate` clears the layout flags, handles the one-atom and the
// disconnected molecule, and would then lay out the largest ring set (or
// the longest chain), grow the aliphatic parts from what is placed, and
// place the remaining ring systems; its helpers pick the most complex ring
// of a ring set, place the first bond, and cycle over a ring set until
// every ring is placed.
//
// The state is the LayoutState.Layout object the other layout modules
// use; the trigonometry is kept uninterpreted (the Geometry record).

module CoordinateGenerator {
  import opened Wrappers
  import opened Seqs
  import opened Vec2
  import opened MolGraph
  import opened RingFinder
  import opened LayoutState
  import opened AtomPlacer
  import opened RingPlacer
  import LayoutVector2D
  import opened JsNumber
  import OverlapResolver

  /** The error `generate` throws for a molecule in several pieces. */
  const NotConnectedError := "Molecule not connected."
  /** `new ringPartitioner.GetPartitionedRings(sssr)`: the partitioner
      module exports no such member. */
  const NotConstructorError := "TypeError: ringPartitioner.GetPartitionedRings is not a constructor"
  /** `modelFlags.ISPLACED(false)`: the flag is a number, not a function. */
  const IsPlacedCallError := "TypeError: modelFlags.ISPLACED is not a function"
  /** `undefined.source`: a ring without bonds. */
  const UndefinedSourceError := "TypeError: Cannot read properties of undefined (reading 'source')"
  /** `undefined.length`: the last of an empty list of ring sets. */
  const UndefinedLengthError := "TypeError: Cannot read properties of undefined (reading 'length')"
  /** What `getMostComplexRing` throws when `goog.array.find` found no ring
      set and so handed it null. */
  const NullLengthError := "TypeError: Cannot read properties of null (reading 'length')"

  /** The floating-point computations the driver delegates. */
  datatype Geometry = Geometry(
    /** The functions the ring placer uses. */
    tr: Trig,
    /** `getRingCenterOfFirstRing(ring, bondVector, bondLength)`, from the
        ring's size, the bond vector and the bond length. */
    firstRingCenter: (nat, Vec, real) -> Vec,
    /** The k-th bond vector `placeLinearChain` derives, by
        `getNextBondVector`, for a chain. */
    chainStep: (seq<nat>, nat) -> Vec)

  /** How a loop that the source does not bound ends here: normally, by a
      throw, or by running out of the fuel the model gives it. */
  datatype Run = Finished | Threw(error: string) | OutOfFuel

  // ----------------------------------------------------------- flag reset

  /** The loop at coordinate_generator.js:40-47: every atom loses
      ISPLACED, VISITED, ISINRING and ISALIPHATIC. */
  method ResetAtomFlags(st: Layout, atCount: nat)
    requires |st.placed| == atCount && |st.visited| == atCount && |st.inRing| == atCount && |st.aliphatic| == atCount
    modifies st`placed, st`visited, st`inRing, st`aliphatic
    ensures |st.placed| == atCount && |st.visited| == atCount && |st.inRing| == atCount && |st.aliphatic| == atCount
    ensures forall a :: 0 <= a < atCount ==> !st.placed[a] && !st.visited[a] && !st.inRing[a] && !st.aliphatic[a]
  {
    for f := 0 to atCount
      invariant |st.placed| == atCount && |st.visited| == atCount && |st.inRing| == atCount && |st.aliphatic| == atCount
      invariant forall a :: 0 <= a < f ==> !st.placed[a] && !st.visited[a] && !st.inRing[a] && !st.aliphatic[a]
    {
      st.placed := st.placed[f := false];
      st.visited := st.visited[f := false];
      st.inRing := st.inRing[f := false];
      st.aliphatic := st.aliphatic[f := false];
    }
  }

  /** `generate(molecule)` up to line 70 (coordinate_generator.js:35-70).
      After the flags are cleared, a one-atom molecule returns at once:
      it writes a `coords` property, which nothing reads, so the atom's
      `coord` is untouched.  A molecule in several fragments throws.
      Otherwise `getRings()` runs (`found` is its result, a throw of the
      ring finder included) and line 70 throws, because the partitioner
      module has no `GetPartitionedRings` member to construct. */
  method Generate(g: Graph, st: Layout, fragmentCount: int, found: Result<seq<RingRecord>>) returns (r: Outcome)
    requires |st.placed| == g.atomCount && |st.visited| == g.atomCount && |st.inRing| == g.atomCount
    requires |st.aliphatic| == g.atomCount
    modifies st`placed, st`visited, st`inRing, st`aliphatic
    ensures |st.placed| == g.atomCount && |st.visited| == g.atomCount && |st.inRing| == g.atomCount
    ensures |st.aliphatic| == g.atomCount
    ensures forall a :: 0 <= a < g.atomCount ==> !st.placed[a] && !st.visited[a] && !st.inRing[a] && !st.aliphatic[a]
    ensures st.coords == old(st.coords)
    ensures r.Pass? <==> g.atomCount == 1
    ensures g.atomCount != 1 && fragmentCount > 1 ==> r == Fail(NotConnectedError)
    ensures g.atomCount != 1 && fragmentCount <= 1 ==>
      r == Fail(if found.Err? then found.error else NotConstructorError)
  {
    var atCount := g.atomCount;
    ResetAtomFlags(st, atCount);
    if atCount == 1 {
      return Pass;
    }
    if fragmentCount > 1 {
      return Fail(NotConnectedError);
    }
    if found.Err? {
      return Fail(found.error);
    }
    return Fail(NotConstructorError);
  }

  // ---------------------------------------------------- small helpers

  /** `placeFirstBond(bond, vector)` (coordinate_generator.js:151-159):
      the vector is normalised and scaled to the bond length in place, the
      source goes to the origin and the target to the vector, both gain
      ISPLACED, and the two ends are returned, source first. */
  method PlaceFirstBond(g: Graph, st: Layout, b: nat, vector: LayoutVector2D.Vector2D, bondLength: real, geo: Geometry)
    returns (atoms: seq<nat>)
    requires g.WellFormed() && b < |g.bonds| && |st.placed| == g.atomCount && |st.coords| == g.atomCount
    requires vector.IsFinite()
    modifies st`coords, st`placed, vector
    ensures vector.IsFinite()
    ensures vector.RealValue() == Scaled(geo.tr.normalized(old(vector.RealValue())), bondLength)
    ensures atoms == [g.bonds[b].0, g.bonds[b].1]
    ensures st.placed == old(st.placed)[g.bonds[b].0 := true][g.bonds[b].1 := true]
    ensures st.coords == old(st.coords)[g.bonds[b].0 := Vec(0.0, 0.0)][g.bonds[b].1 := vector.RealValue()]
  {
    var unit := geo.tr.normalized(vector.RealValue());
    vector.x, vector.y := Fin(unit.x), Fin(unit.y);
    vector.Scale(Fin(bondLength));
    var (source, target) := g.bonds[b];
    st.coords := st.coords[source := Vec(0.0, 0.0)];
    st.placed := st.placed[source := true];
    st.coords := st.coords[target := vector.RealValue()];
    st.placed := st.placed[target := true];
    atoms := [source, target];
  }

  /** `allPlaced(rings)` (coordinate_generator.js:161-168): every ring of
      the list has its ISPLACED flag. */
  method AllRingsPlaced(st: Layout, ringset: seq<nat>) returns (r: bool)
    requires forall k :: 0 <= k < |ringset| ==> ringset[k] < |st.ringPlaced|
    ensures r <==> forall k :: 0 <= k < |ringset| ==> st.ringPlaced[ringset[k]]
  {
    for f1 := 0 to |ringset|
      invariant forall k :: 0 <= k < f1 ==> st.ringPlaced[ringset[k]]
    {
      if !st.ringPlaced[ringset[f1]] {
        return false;
      }
    }
    return true;
  }

  /** Exactly one end of bond b is ISPLACED. */
  predicate OnePlacedEnd(g: Graph, placed: seq<bool>, b: nat)
    requires g.WellFormed() && b < |g.bonds| && |placed| == g.atomCount
  {
    placed[g.bonds[b].0] != placed[g.bonds[b].1]
  }

  /** The ISPLACED end of a bond with exactly one. */
  function PlacedEnd(g: Graph, placed: seq<bool>, b: nat): (a: nat)
    requires g.WellFormed() && b < |g.bonds| && |placed| == g.atomCount
    requires OnePlacedEnd(g, placed, b)
    ensures (a == g.bonds[b].0 || a == g.bonds[b].1) && placed[a]
    ensures !placed[OtherAtom(g.bonds[b], a).value]
  {
    if placed[g.bonds[b].0] then g.bonds[b].0 else g.bonds[b].1
  }

  /** `getNextAtomWithAliphaticUnplacedNeigbors(molecule, bondCount)`
      (coordinate_generator.js:173-185): the placed end of the first bond,
      among the first bondCount, with exactly one placed end; None (null)
      when there is no such bond. */
  method GetNextAtomWithAliphaticUnplacedNeigbors(g: Graph, st: Layout, bondCount: nat) returns (r: Option<nat>)
    requires g.WellFormed() && bondCount <= |g.bonds| && |st.placed| == g.atomCount
    ensures r.None? <==> forall b :: 0 <= b < bondCount ==> !OnePlacedEnd(g, st.placed, b)
    ensures r.Some? ==>
      exists bc :: 0 <= bc < bondCount && OnePlacedEnd(g, st.placed, bc) &&
        r.value == PlacedEnd(g, st.placed, bc) && forall b :: 0 <= b < bc ==> !OnePlacedEnd(g, st.placed, b)
    ensures r.Some? ==> r.value < g.atomCount && st.placed[r.value]
  {
    for bc := 0 to bondCount
      invariant forall b :: 0 <= b < bc ==> !OnePlacedEnd(g, st.placed, b)
    {
      var (source, target) := g.bonds[bc];
      if st.placed[source] && !st.placed[target] {
        assert OnePlacedEnd(g, st.placed, bc);
        return Some(source);
      }
      if !st.placed[source] && st.placed[target] {
        assert OnePlacedEnd(g, st.placed, bc);
        return Some(target);
      }
    }
    return None;
  }

  /** `getAtoms(atom, molecule, bondCount, placed)`
      (coordinate_generator.js:187-198): the neighbours whose ISPLACED
      flag equals `placed`, each once (`addAtom` skips an atom already
      held), in bond order. */
  method GetAtoms(g: Graph, st: Layout, atom: nat, placed: bool) returns (atoms: seq<nat>)
    requires g.WellFormed() && |st.placed| == g.atomCount
    ensures forall x :: x in atoms <==> x in Neighbors(g, atom) && st.placed[x] == placed
    ensures Distinct(atoms)
    ensures forall k :: 0 <= k < |atoms| ==> atoms[k] < g.atomCount
  {
    var bonds := IncidentBonds(g, atom);
    ghost var nbrs := Neighbors(g, atom);
    NeighborAt(g, atom, 0);
    atoms := [];
    for ga := 0 to |bonds|
      invariant forall x :: x in atoms <==> x in nbrs[..ga] && st.placed[x] == placed
      invariant Distinct(atoms)
    {
      NeighborAt(g, atom, ga);
      var connectedAtom := OtherAtom(g.bonds[bonds[ga]], atom).value;
      GetAtomsStep(atoms, nbrs, ga, st.placed, placed);
      if placed && st.placed[connectedAtom] {
        atoms := AddAtom(atoms, connectedAtom);
      } else if !placed && !st.placed[connectedAtom] {
        atoms := AddAtom(atoms, connectedAtom);
      }
    }
    assert nbrs[..|bonds|] == nbrs;
    forall k | 0 <= k < |atoms|
      ensures atoms[k] < g.atomCount
    {
      assert atoms[k] in atoms;
    }
  }

  /** One neighbour more: it joins the list when its flag is the one
      wanted and the list does not hold it yet. */
  lemma GetAtomsStep(atoms: seq<nat>, nbrs: seq<nat>, i: nat, flags: seq<bool>, want: bool)
    requires i < |nbrs| && forall k :: 0 <= k < |nbrs| ==> nbrs[k] < |flags|
    requires forall x :: x in atoms <==> x in nbrs[..i] && flags[x] == want
    requires Distinct(atoms)
    ensures var next := if flags[nbrs[i]] == want then AddAtom(atoms, nbrs[i]) else atoms;
      && (forall x :: x in next <==> x in nbrs[..i + 1] && flags[x] == want)
      && Distinct(next)
  {
    assert nbrs[..i + 1] == nbrs[..i] + [nbrs[i]];
  }

  // ------------------------------------------------- the most complex ring

  // `getMostComplexRing` (coordinate_generator.js:245-278) means to count,
  // for every ring, the atoms it shares with the other rings of the set.
  // Lines 255 and 260 read `ring1[j]` and `ring2[l]`, indices of the Ring
  // object rather than of its atom list; both are undefined, so the test
  // at 261 holds for every pair and the innermost loop always stops at its
  // first round.  The counts therefore depend only on the sizes of the
  // rings and on which entries of the set are the same ring.

  /** The atom count of the ring at position x of the set. */
  function Size(rings: seq<RingRecord>, ringset: seq<nat>, x: nat): nat
    requires x < |ringset| && ringset[x] < |rings|
  {
    |rings[ringset[x]].atoms|
  }

  /** Does position k, a different ring than position i with at least one
      atom, take part in the count of position i? */
  predicate Partner(rings: seq<RingRecord>, ringset: seq<nat>, i: nat, k: nat)
    requires i < |ringset| && k < |ringset| && forall q :: 0 <= q < |ringset| ==> ringset[q] < |rings|
  {
    ringset[k] != ringset[i] && Size(rings, ringset, k) > 0
  }

  /** The partners of position i from position lo on. */
  function PartnersFrom(rings: seq<RingRecord>, ringset: seq<nat>, i: nat, lo: nat): nat
    requires i < |ringset| && forall q :: 0 <= q < |ringset| ==> ringset[q] < |rings|
    decreases |ringset| - lo
  {
    if lo >= |ringset| then 0
    else (if Partner(rings, ringset, i, lo) then 1 else 0) + PartnersFrom(rings, ringset, i, lo + 1)
  }

  /** The atoms of the positions before m holding a ring other than
      position x's. */
  function SizesBefore(rings: seq<RingRecord>, ringset: seq<nat>, x: nat, m: nat): nat
    requires x < |ringset| && m <= |ringset| && forall q :: 0 <= q < |ringset| ==> ringset[q] < |rings|
  {
    if m == 0 then 0
    else
      SizesBefore(rings, ringset, x, m - 1) +
      (if ringset[m - 1] != ringset[x] then Size(rings, ringset, m - 1) else 0)
  }

  /** The count of position x once rows 0..i-1 of the outer loop are done:
      its own row adds its size once per later partner, and every earlier
      row of another ring adds that row's size, provided x's ring has atoms. */
  function CountAfter(rings: seq<RingRecord>, ringset: seq<nat>, x: nat, i: nat): nat
    requires x < |ringset| && i <= |ringset| && forall q :: 0 <= q < |ringset| ==> ringset[q] < |rings|
  {
    (if x < i then Size(rings, ringset, x) * PartnersFrom(rings, ringset, x, x + 1) else 0) +
    (if Size(rings, ringset, x) > 0 then SizesBefore(rings, ringset, x, if x < i then x else i) else 0)
  }

  /** The final count of position x. */
  function Tally(rings: seq<RingRecord>, ringset: seq<nat>, x: nat): nat
    requires x < |ringset| && forall q :: 0 <= q < |ringset| ==> ringset[q] < |rings|
  {
    CountAfter(rings, ringset, x, |ringset|)
  }

  /** One round of the j loop (coordinate_generator.js:256-268): every
      later partner position k adds one to its own count and to i's. */
  method CountRound(rings: seq<RingRecord>, ringset: seq<nat>, i: nat, neighbors: seq<int>) returns (r: seq<int>)
    requires i < |ringset| && |neighbors| == |ringset| && forall q :: 0 <= q < |ringset| ==> ringset[q] < |rings|
    ensures |r| == |neighbors|
    ensures r[i] == neighbors[i] + PartnersFrom(rings, ringset, i, i + 1)
    ensures forall x :: 0 <= x < |r| && x != i ==>
      r[x] == neighbors[x] + if i < x && Partner(rings, ringset, i, x) then 1 else 0
  {
    r := neighbors;
    for k := i + 1 to |ringset|
      invariant |r| == |neighbors|
      invariant r[i] + PartnersFrom(rings, ringset, i, k) == neighbors[i] + PartnersFrom(rings, ringset, i, i + 1)
      invariant forall x :: 0 <= x < |r| && x != i ==>
        r[x] == neighbors[x] + if i < x < k && Partner(rings, ringset, i, x) then 1 else 0
    {
      var ring1, ring2 := ringset[i], ringset[k];
      // The l loop compares undefined with undefined, so it counts and
      // breaks in its first round whenever ring2 has an atom.
      if ring1 != ring2 && |rings[ring2].atoms| > 0 {
        r := r[i := r[i] + 1][k := r[k] + 1];
      }
    }
  }

  /** Row i of the outer loop (coordinate_generator.js:253-269): one
      round per atom of ring i. */
  method CountRow(rings: seq<RingRecord>, ringset: seq<nat>, i: nat, neighbors: seq<int>) returns (r: seq<int>)
    requires i < |ringset| && |neighbors| == |ringset| && forall q :: 0 <= q < |ringset| ==> ringset[q] < |rings|
    ensures |r| == |neighbors|
    ensures r[i] == neighbors[i] + Size(rings, ringset, i) * PartnersFrom(rings, ringset, i, i + 1)
    ensures forall x :: 0 <= x < |r| && x != i ==>
      r[x] == neighbors[x] + if i < x && Partner(rings, ringset, i, x) then Size(rings, ringset, i) else 0
  {
    r := neighbors;
    var p := PartnersFrom(rings, ringset, i, i + 1);
    for j := 0 to |rings[ringset[i]].atoms|
      invariant |r| == |neighbors|
      invariant r[i] == neighbors[i] + j * p
      invariant forall x :: 0 <= x < |r| && x != i ==>
        r[x] == neighbors[x] + if i < x && Partner(rings, ringset, i, x) then j else 0
    {
      r := CountRound(rings, ringset, i, r);
    }
  }

  /** The counter array of `getMostComplexRing` after its nested loops
      (coordinate_generator.js:246-270). */
  method Tallies(rings: seq<RingRecord>, ringset: seq<nat>) returns (neighbors: seq<int>)
    requires forall q :: 0 <= q < |ringset| ==> ringset[q] < |rings|
    ensures |neighbors| == |ringset|
    ensures forall x :: 0 <= x < |ringset| ==> neighbors[x] == Tally(rings, ringset, x)
  {
    neighbors := seq(|ringset|, _ => 0);
    for i := 0 to |ringset|
      invariant |neighbors| == |ringset|
      invariant forall x :: 0 <= x < |ringset| ==> neighbors[x] == CountAfter(rings, ringset, x, i)
    {
      neighbors := CountRow(rings, ringset, i, neighbors);
    }
  }

  /** Position pos is where the final loop (coordinate_generator.js:271-276)
      stops: 0 when no count is positive, otherwise the first position of
      the largest count. */
  predicate FirstLargest(t: seq<int>, pos: nat)
  {
    pos < |t| &&
    ((forall x :: 0 <= x < |t| ==> t[x] <= 0) ==> pos == 0) &&
    ((exists x :: 0 <= x < |t| && t[x] > 0) ==>
      t[pos] > 0 && (forall x :: 0 <= x < |t| ==> t[x] <= t[pos]) && forall x :: 0 <= x < pos ==> t[x] < t[pos])
  }

  /** `getMostComplexRing(ringSet)` (coordinate_generator.js:245-278): the
      ring at the first position with the largest count, or the first ring
      when no count is positive; None (undefined) for an empty set. */
  method GetMostComplexRing(rings: seq<RingRecord>, ringset: seq<nat>) returns (r: Option<nat>, ghost pos: nat)
    requires forall q :: 0 <= q < |ringset| ==> ringset[q] < |rings|
    ensures r.None? <==> ringset == []
    ensures r.Some? ==> pos < |ringset| && r.value == ringset[pos]
    ensures r.Some? ==> FirstLargest(seq(|ringset|, x requires 0 <= x < |ringset| => Tally(rings, ringset, x) as int), pos)
  {
    var neighbors := Tallies(rings, ringset);
    var mostComplex := 0;
    var mostComplexPosition := 0;
    for i := 0 to |neighbors|
      invariant mostComplexPosition <= i && (i > 0 ==> mostComplexPosition < i)
      invariant mostComplex > 0 ==> mostComplexPosition < i
      invariant mostComplex >= 0
      invariant mostComplex == 0 ==> mostComplexPosition == 0 && forall x :: 0 <= x < i ==> neighbors[x] <= 0
      invariant mostComplex > 0 ==> neighbors[mostComplexPosition] == mostComplex
      invariant forall x :: 0 <= x < i ==> neighbors[x] <= mostComplex
      invariant forall x :: 0 <= x < mostComplexPosition ==> neighbors[x] < mostComplex
    {
      if neighbors[i] > mostComplex {
        mostComplex := neighbors[i];
        mostComplexPosition := i;
      }
    }
    pos := mostComplexPosition;
    if ringset == [] {
      return None, pos;
    }
    assert neighbors == seq(|ringset|, x requires 0 <= x < |ringset| => Tally(rings, ringset, x) as int);
    r := Some(ringset[mostComplexPosition]);
  }

  /** The counts see only the ring sizes: two ring tables whose rings have
      the same sizes give every position the same count, whatever atoms
      the rings share. */
  lemma TallyIgnoresSharing(rings1: seq<RingRecord>, rings2: seq<RingRecord>, ringset: seq<nat>, x: nat)
    requires |rings1| == |rings2| && forall q :: 0 <= q < |rings1| ==> |rings1[q].atoms| == |rings2[q].atoms|
    requires x < |ringset| && forall q :: 0 <= q < |ringset| ==> ringset[q] < |rings1|
    ensures Tally(rings1, ringset, x) == Tally(rings2, ringset, x)
  {
    PartnersSameSizes(rings1, rings2, ringset, x, x + 1);
    SizesBeforeSameSizes(rings1, rings2, ringset, x, x);
  }

  lemma {:induction false} PartnersSameSizes(rings1: seq<RingRecord>, rings2: seq<RingRecord>, ringset: seq<nat>,
                                             i: nat, lo: nat)
    requires |rings1| == |rings2| && forall q :: 0 <= q < |rings1| ==> |rings1[q].atoms| == |rings2[q].atoms|
    requires i < |ringset| && forall q :: 0 <= q < |ringset| ==> ringset[q] < |rings1|
    ensures PartnersFrom(rings1, ringset, i, lo) == PartnersFrom(rings2, ringset, i, lo)
    decreases |ringset| - lo
  {
    if lo < |ringset| {
      PartnersSameSizes(rings1, rings2, ringset, i, lo + 1);
    }
  }

  lemma {:induction false} SizesBeforeSameSizes(rings1: seq<RingRecord>, rings2: seq<RingRecord>, ringset: seq<nat>,
                                                x: nat, m: nat)
    requires |rings1| == |rings2| && forall q :: 0 <= q < |rings1| ==> |rings1[q].atoms| == |rings2[q].atoms|
    requires x < |ringset| && m <= |ringset| && forall q :: 0 <= q < |ringset| ==> ringset[q] < |rings1|
    ensures SizesBefore(rings1, ringset, x, m) == SizesBefore(rings2, ringset, x, m)
  {
    if m > 0 {
      SizesBeforeSameSizes(rings1, rings2, ringset, x, m - 1);
    }
  }

  /** Three rings where the first, of five atoms, shares nothing and the
      other two, of three atoms, share an atom: the counts are 10, 8 and 8,
      so the ring sharing nothing is taken as the most complex. */
  lemma UnsharedRingCountsMost()
    ensures var rings := [RingRecord([0, 1, 2, 3, 4], []), RingRecord([5, 6, 7], []), RingRecord([7, 8, 9], [])];
      Tally(rings, [0, 1, 2], 0) == 10 && Tally(rings, [0, 1, 2], 1) == 8 && Tally(rings, [0, 1, 2], 2) == 8
  {
    var rings := [RingRecord([0, 1, 2, 3, 4], []), RingRecord([5, 6, 7], []), RingRecord([7, 8, 9], [])];
    var rs := [0, 1, 2];
    assert PartnersFrom(rings, rs, 0, 1) == 2 by {
      assert PartnersFrom(rings, rs, 0, 3) == 0;
      assert PartnersFrom(rings, rs, 0, 2) == 1;
    }
    assert PartnersFrom(rings, rs, 1, 2) == 1 by {
      assert PartnersFrom(rings, rs, 1, 3) == 0;
    }
    assert PartnersFrom(rings, rs, 2, 3) == 0;
    assert SizesBefore(rings, rs, 1, 1) == 5 by {
      assert SizesBefore(rings, rs, 1, 0) == 0;
    }
    assert SizesBefore(rings, rs, 2, 2) == 8 by {
      assert SizesBefore(rings, rs, 2, 1) == 5 by {
        assert SizesBefore(rings, rs, 2, 0) == 0;
      }
    }
  }

  // ------------------------------------------------------ the ring cursor

  /** The cursor after one pass of the `ringSet` loop
      (coordinate_generator.js:320-321): one on, and back to 0 at the end. */
  function Advance(thisRing: nat, n: nat): nat
  {
    if thisRing + 1 == n then 0 else thisRing + 1
  }

  /** The cursor after p passes. */
  function Cursor(p: nat, n: nat): nat
  {
    if p == 0 then 0 else Advance(Cursor(p - 1, n), n)
  }

  /** The first n passes visit positions 0, 1, ..., n - 1 in turn. */
  lemma {:induction false} CursorCounts(p: nat, n: nat)
    requires p < n
    ensures Cursor(p, n) == p
  {
    if p > 0 {
      CursorCounts(p - 1, n);
    }
  }

  /** After n passes the cursor is back where it was. */
  lemma {:induction false} CursorPeriodic(p: nat, n: nat)
    requires n > 0
    ensures Cursor(p + n, n) == Cursor(p, n)
  {
    if p == 0 {
      CursorCounts(n - 1, n);
    } else {
      CursorPeriodic(p - 1, n);
    }
  }

  /** The cursor stays inside the set. */
  lemma {:induction false} CursorInside(p: nat, n: nat)
    requires n > 0
    ensures Cursor(p, n) < n
  {
    if p > 0 {
      CursorInside(p - 1, n);
    }
  }

  // ------------------------------------------------------------ ring sets

  /** The first-ring placement of `ringSet` (coordinate_generator.js:295-312,
      ring_set.js:18-35): only a ring not yet ISPLACED is drawn.  Its first
      bond is placed from the origin, the shared fragment is that bond with
      its two ends, the ring is drawn against it and flagged ISPLACED.  A
      ring without bonds throws once the bond vector has been rescaled. */
  method PlaceFirstRing(g: Graph, st: Layout, symbols: seq<string>, rings: seq<RingRecord>, ring: nat,
                        bondVector: LayoutVector2D.Vector2D, bondLength: real, geo: Geometry)
    returns (r: Outcome)
    requires Fits(g, st, symbols) && |st.ringPlaced| == |rings| && ring < |rings| && RingIn(g, rings[ring])
    requires bondVector.IsFinite()
    modifies st`coords, st`placed, st`ringPlaced, bondVector
    ensures bondVector.IsFinite()
    ensures Fits(g, st, symbols) && |st.ringPlaced| == |rings|
    ensures OnlySet(old(st.placed), st.placed)
    ensures old(st.ringPlaced[ring]) ==>
      r == Pass && st.placed == old(st.placed) && st.coords == old(st.coords) && st.ringPlaced == old(st.ringPlaced)
    ensures !old(st.ringPlaced[ring]) && rings[ring].bonds == [] ==> r == Fail(UndefinedSourceError)
    ensures r.Pass? && !old(st.ringPlaced[ring]) ==>
      st.ringPlaced == old(st.ringPlaced)[ring := true] &&
      st.placed[g.bonds[rings[ring].bonds[0]].0] && st.placed[g.bonds[rings[ring].bonds[0]].1]
    ensures r.Fail? ==> st.ringPlaced == old(st.ringPlaced)
  {
    if st.ringPlaced[ring] {
      return Pass;
    }
    var bonds := rings[ring].bonds;
    if bonds == [] {
      var unit := geo.tr.normalized(bondVector.RealValue());
      bondVector.x, bondVector.y := Fin(unit.x), Fin(unit.y);
      bondVector.Scale(Fin(bondLength));
      return Fail(UndefinedSourceError);
    }
    var atoms := PlaceFirstBond(g, st, bonds[0], bondVector, bondLength, geo);
    var frag := Fragment(atoms, [bonds[0]]);
    var c0, c1 := st.coords[atoms[0]], st.coords[atoms[1]];
    var fragCenter := Vec((0.0 + c0.x + c1.x) / 2.0, (0.0 + c0.y + c1.y) / 2.0);
    var ringCenter := geo.firstRingCenter(|rings[ring].atoms|, bondVector.RealValue(), bondLength);
    ghost var mid := st.placed;
    ghost var drawn;
    r, drawn := PlaceRing(g, st, symbols, rings[ring], frag, fragCenter, ringCenter, bondLength, geo.tr);
    if r.Fail? {
      return;
    }
    assert st.placed[atoms[0]] && st.placed[atoms[1]] by {
      assert mid[atoms[0]] && mid[atoms[1]];
    }
    st.ringPlaced := st.ringPlaced[ring := true];
  }

  /** One pass of the `ringSet` loop (coordinate_generator.js:315-319,
      ring_set.js:38-42): for a ring flagged ISPLACED, the fused, bridged
      and spiro connections are placed in that order; for any other ring
      nothing happens. */
  method RingSetPass(g: Graph, st: Layout, symbols: seq<string>, rings: seq<RingRecord>, ringset: seq<nat>,
                     ring: nat, bondLength: real, tr: Trig)
    returns (r: Outcome)
    requires Fits(g, st, symbols) && |st.ringPlaced| == |rings| && ring < |rings|
    requires forall k :: 0 <= k < |ringset| ==> ringset[k] < |rings|
    requires forall q :: 0 <= q < |rings| ==> RingIn(g, rings[q])
    modifies st`coords, st`placed, st`ringPlaced
    ensures Fits(g, st, symbols) && |st.ringPlaced| == |rings|
    ensures OnlySet(old(st.placed), st.placed) && OnlySet(old(st.ringPlaced), st.ringPlaced)
    ensures NewOnlyIn(old(st.ringPlaced), st.ringPlaced, ringset)
    ensures !old(st.ringPlaced[ring]) ==>
      r == Pass && st.placed == old(st.placed) && st.coords == old(st.coords) && st.ringPlaced == old(st.ringPlaced)
    ensures r.Pass? && old(st.ringPlaced[ring]) ==>
      forall h, c :: 0 <= c < |rings| && Handled(rings, ringset, ring, h, c) ==> st.ringPlaced[c]
  {
    if !st.ringPlaced[ring] {
      return Pass;
    }
    ghost var p0, q0 := st.placed, st.ringPlaced;
    r := PlaceConnectedRings(g, st, symbols, rings, ringset, ring, Fused, bondLength, tr);
    if r.Fail? {
      return;
    }
    ghost var q1 := st.ringPlaced;
    r := PlaceConnectedRings(g, st, symbols, rings, ringset, ring, Bridged, bondLength, tr);
    if r.Fail? {
      return;
    }
    ghost var q2 := st.ringPlaced;
    r := PlaceConnectedRings(g, st, symbols, rings, ringset, ring, Spiro, bondLength, tr);
    if r.Fail? {
      return;
    }
    forall h, c | 0 <= c < |rings| && Handled(rings, ringset, ring, h, c)
      ensures st.ringPlaced[c]
    {
      match h
      case Fused => assert q1[c];
      case Bridged => assert q2[c];
      case Spiro =>
    }
  }

  /** `ringSet(bondVector, ringset)` (coordinate_generator.js:288-325; the
      same loop as ring_set.js:10-48).  The most complex ring is placed
      first if it is not yet ISPLACED; then the loop makes passes, the
      first from the most complex ring and the later ones from the ring
      under a cursor that starts at position 0 and advances by one,
      wrapping at the end of the set, until every ring of the set is
      ISPLACED.  The source does not bound the loop; here it makes at most
      fuel + 1 passes.  Atom and ring flags are only ever set, only rings
      of the set gain the flag, and a normal end means every ring of the
      set is flagged.  An empty set throws when the undefined most complex
      ring's flags are read. */
  method RingSet(g: Graph, st: Layout, symbols: seq<string>, rings: seq<RingRecord>, ringset: seq<nat>,
                 bondVector: LayoutVector2D.Vector2D, bondLength: real, geo: Geometry, fuel: nat)
    returns (r: Run, ghost passes: nat)
    requires Fits(g, st, symbols) && |st.ringPlaced| == |rings|
    requires forall k :: 0 <= k < |ringset| ==> ringset[k] < |rings|
    requires forall q :: 0 <= q < |rings| ==> RingIn(g, rings[q])
    requires bondVector.IsFinite()
    modifies st`coords, st`placed, st`ringPlaced, bondVector
    ensures bondVector.IsFinite()
    ensures Fits(g, st, symbols) && |st.ringPlaced| == |rings|
    ensures OnlySet(old(st.placed), st.placed) && OnlySet(old(st.ringPlaced), st.ringPlaced)
    ensures NewOnlyIn(old(st.ringPlaced), st.ringPlaced, ringset)
    ensures ringset == [] ==> r == Threw(ReadFlagsError) && st.placed == old(st.placed)
    ensures r.Finished? ==> forall k :: 0 <= k < |ringset| ==> st.ringPlaced[ringset[k]]
    ensures r.Finished? ==> 1 <= passes <= fuel + 1
  {
    passes := 0;
    var mc, _ := GetMostComplexRing(rings, ringset);
    if mc.None? {
      return Threw(ReadFlagsError), passes;
    }
    var mostComplexRing: nat := mc.value;
    assert mostComplexRing in ringset;
    var first := PlaceFirstRing(g, st, symbols, rings, mostComplexRing, bondVector, bondLength, geo);
    if first.Fail? {
      return Threw(first.error), passes;
    }
    var n := |ringset|;
    var thisRing: nat := 0;
    var fuelLeft: nat := fuel;
    while true
      invariant Fits(g, st, symbols) && |st.ringPlaced| == |rings|
      invariant OnlySet(old(st.placed), st.placed) && OnlySet(old(st.ringPlaced), st.ringPlaced)
      invariant NewOnlyIn(old(st.ringPlaced), st.ringPlaced, ringset)
      invariant mostComplexRing < |rings|
      invariant thisRing == Cursor(passes, n) && thisRing < n
      invariant passes > 0 ==> mostComplexRing == ringset[thisRing]
      invariant passes + fuelLeft == fuel
      invariant bondVector.IsFinite()
      decreases fuelLeft
    {
      var pass := RingSetPass(g, st, symbols, rings, ringset, mostComplexRing, bondLength, geo.tr);
      if pass.Fail? {
        return Threw(pass.error), passes;
      }
      thisRing := thisRing + 1;
      if thisRing == n {
        thisRing := 0;
      }
      mostComplexRing := ringset[thisRing];
      passes := passes + 1;
      var done := AllRingsPlaced(st, ringset);
      if done {
        return Finished, passes;
      }
      if fuelLeft == 0 {
        return OutOfFuel, passes;
      }
      fuelLeft := fuelLeft - 1;
    }
  }

  // ------------------------------------------------------------ aliphatics

  /** Setting flags never adds a false entry. */
  lemma {:induction false} CountFalseOnlySet(before: seq<bool>, after: seq<bool>)
    requires OnlySet(before, after)
    ensures CountFalse(after) <= CountFalse(before)
  {
    if before != [] {
      CountFalseOnlySet(before[1..], after[1..]);
    }
  }

  /** Setting flags that include one that was unset removes a false
      entry. */
  lemma {:induction false} CountFalseDrops(before: seq<bool>, after: seq<bool>, i: nat)
    requires OnlySet(before, after) && i < |before| && !before[i] && after[i]
    ensures CountFalse(after) < CountFalse(before)
  {
    if i == 0 {
      CountFalseOnlySet(before[1..], after[1..]);
    } else {
      CountFalseDrops(before[1..], after[1..], i - 1);
    }
  }

  /** One round of the `handleAliphatics` loop
      (coordinate_generator.js:210-241).  The round is idle (done) when no
      bond has exactly one placed end, or when the longest unplaced chain
      from the placed end has a single atom; an idle round changes no
      ISPLACED flag.  Otherwise the placed end's unplaced neighbours are
      placed around it when it has several placed neighbours (the flag
      effect of `distributePartners`), and the chain is laid out from it;
      with no placed neighbour, `placedAtoms.getAtom(0)` is undefined and
      `getNextBondVector` throws.  A round that is not idle places at
      least one atom that was not placed. */
  method AliphaticRound(g: Graph, st: Layout, bondCount: nat, geo: Geometry) returns (r: Outcome, done: bool)
    requires g.WellFormed() && bondCount <= |g.bonds|
    requires |st.placed| == g.atomCount && |st.inRing| == g.atomCount && |st.visited| == g.atomCount
    requires |st.coords| == g.atomCount
    modifies st`placed, st`visited, st`coords
    ensures |st.placed| == g.atomCount && |st.visited| == g.atomCount && |st.coords| == g.atomCount
    ensures OnlySet(old(st.placed), st.placed)
    ensures done ==> r == Pass && st.placed == old(st.placed)
    ensures (forall b :: 0 <= b < bondCount ==> !OnePlacedEnd(g, old(st.placed), b)) ==> done
    ensures r.Fail? ==> r.error == UndefinedCoordError && st.placed == old(st.placed)
    ensures r.Pass? && !done ==> CountFalse(st.placed) < old(CountFalse(st.placed))
  {
    var at := GetNextAtomWithAliphaticUnplacedNeigbors(g, st, bondCount);
    if at.None? {
      return Pass, true;
    }
    var a := at.value;
    var unplacedAtoms := GetAtoms(g, st, a, false);
    var placedAtoms := GetAtoms(g, st, a, true);
    var chain := UnplacedChain(g, st, a);
    if |chain| <= 1 {
      return Pass, true;
    }
    ghost var p0 := st.placed;
    if |placedAtoms| > 1 {
      MarkPlaced(st, unplacedAtoms);
    } else if |placedAtoms| == 0 {
      return Fail(UndefinedCoordError), false;
    }
    ghost var p1 := st.placed;
    assert OnlySet(p0, p1);
    MarkNotPlaced(st, chain[1..]);
    var steps := seq(|chain| - 1, k requires 0 <= k < |chain| - 1 => geo.chainStep(chain, k));
    PlaceLinearChain(st, chain, steps);
    assert st.placed == SetAll(p1, chain[1..], true) by {
      forall x | 0 <= x < |st.placed|
        ensures st.placed[x] == SetAll(p1, chain[1..], true)[x]
      {
      }
    }
    assert chain[1] in chain[1..];
    CountFalseDrops(p0, st.placed, chain[1]);
    done := false;
    r := Pass;
  }

  /** The facts about `getLongestUnplacedChain` a round relies on: the
      chain lies in the molecule, and an atom after the start is an
      unplaced neighbour of it. */
  method UnplacedChain(g: Graph, st: Layout, a: nat) returns (chain: seq<nat>)
    requires g.WellFormed() && a < g.atomCount
    requires |st.placed| == g.atomCount && |st.inRing| == g.atomCount && |st.visited| == g.atomCount
    modifies st`visited
    ensures |st.visited| == g.atomCount
    ensures forall k :: 0 <= k < |chain| ==> chain[k] < g.atomCount
    ensures |chain| > 0 ==> forall k :: 0 <= k < |chain[1..]| ==> chain[1..][k] < g.atomCount
    ensures |chain| > 1 ==> chain[1] in Neighbors(g, a) && !st.placed[chain[1]]
  {
    ghost var paths; var longest;
    chain, paths, longest := GetLongestUnplacedChain(g, st, a);
    assert |chain| > 0 ==> forall k :: 0 <= k < |chain[1..]| ==> chain[1..][k] == chain[k + 1];
  }

  /** `handleAliphatics(molecule, bondCount, bondLength)`
      (coordinate_generator.js:205-243): rounds are repeated until one is
      idle or the counter passes the atom count.  No flag is cleared, every
      round but the last places an atom that was not placed, so the counter
      never ends the loop: it always stops at an idle round (`stalled`),
      after at most (unplaced atoms + 1) rounds. */
  method HandleAliphatics(g: Graph, st: Layout, bondCount: nat, geo: Geometry)
    returns (r: Outcome, rounds: nat, ghost stalled: bool)
    requires g.WellFormed() && bondCount <= |g.bonds|
    requires |st.placed| == g.atomCount && |st.inRing| == g.atomCount && |st.visited| == g.atomCount
    requires |st.coords| == g.atomCount
    modifies st`placed, st`visited, st`coords
    ensures |st.placed| == g.atomCount && |st.visited| == g.atomCount && |st.coords| == g.atomCount
    ensures OnlySet(old(st.placed), st.placed)
    ensures 1 <= rounds <= g.atomCount + 1
    ensures r.Fail? ==> r.error == UndefinedCoordError
    ensures r.Pass? ==> stalled && rounds - 1 <= old(CountFalse(st.placed)) - CountFalse(st.placed)
  {
    var cntr: nat := 0;
    var done := false;
    stalled := false;
    ghost var cf0 := CountFalse(st.placed);
    assert CountFalse(st.placed) <= g.atomCount by {
      CountFalseBound(st.placed);
    }
    while cntr == 0 || (!done && cntr <= g.atomCount)
      invariant |st.placed| == g.atomCount && |st.visited| == g.atomCount && |st.coords| == g.atomCount
      invariant OnlySet(old(st.placed), st.placed)
      invariant cntr > 0 && done ==> cntr + CountFalse(st.placed) <= cf0 + 1
      invariant cntr > 0 && !done ==> cntr + CountFalse(st.placed) <= cf0
      invariant cf0 <= g.atomCount
      invariant stalled == done
      decreases g.atomCount + 1 - cntr
    {
      cntr := cntr + 1;
      ghost var before := st.placed;
      CountFalseOnlySet(old(st.placed), before);
      r, done := AliphaticRound(g, st, bondCount, geo);
      stalled := done;
      OnlySetTrans(old(st.placed), before, st.placed);
      if r.Fail? {
        return r, cntr, stalled;
      }
    }
    CountFalseOnlySet(old(st.placed), st.placed);
    rounds := cntr;
    r := Pass;
  }

  /** Flags set in two steps are set. */
  lemma OnlySetTrans(a: seq<bool>, b: seq<bool>, c: seq<bool>)
    requires OnlySet(a, b) && OnlySet(b, c)
    ensures OnlySet(a, c)
  {
  }

  /** There are no more false entries than entries. */
  lemma {:induction false} CountFalseBound(s: seq<bool>)
    ensures CountFalse(s) <= |s|
  {
    if s != [] {
      CountFalseBound(s[1..]);
    }
  }

  // ------------------------------------------------ the next ring system

  /** The numbers 0, 1, ..., n - 1: the molecule's bonds, or its rings, in
      their order. */
  function Indices(n: nat): (r: seq<nat>)
    ensures |r| == n && forall k :: 0 <= k < n ==> r[k] == k
  {
    seq(n, k requires 0 <= k < n => k)
  }

  /** Does a ring of the set, with `isPlaced` unset, have an atom? */
  predicate UnplacedRingWithAtoms(rings: seq<RingRecord>, ringset: seq<nat>, isPlaced: seq<bool>)
    requires forall k :: 0 <= k < |ringset| ==> ringset[k] < |rings| && ringset[k] < |isPlaced|
  {
    exists k :: 0 <= k < |ringset| && !isPlaced[ringset[k]] && |rings[ringset[k]].atoms| > 0
  }

  /** `resetUnplacedRingAtoms(ringset)` as coordinate_generator.js:766-772
      writes it: `modelFlags.ISPLACED(false)` calls a number, so the call
      throws on the first atom of the first ring whose `isPlaced` is
      unset; it throws exactly when such a ring has an atom, and no flag
      changes either way. */
  method ResetUnplacedRingAtoms(st: Layout, rings: seq<RingRecord>, ringset: seq<nat>) returns (r: Outcome)
    requires forall k :: 0 <= k < |ringset| ==> ringset[k] < |rings| && ringset[k] < |st.ringIsPlaced|
    ensures r.Fail? <==> UnplacedRingWithAtoms(rings, ringset, st.ringIsPlaced)
    ensures r.Fail? ==> r.error == IsPlacedCallError
  {
    for i := 0 to |ringset|
      invariant forall k :: 0 <= k < i ==> st.ringIsPlaced[ringset[k]] || |rings[ringset[k]].atoms| == 0
    {
      var ring := ringset[i];
      if !st.ringIsPlaced[ring] {
        var atoms := rings[ring].atoms;
        if |atoms| > 0 {
          return Fail(IsPlacedCallError);
        }
      }
    }
    return Pass;
  }

  /** With no atom flagged ISINRING, `findNextRingBondWithUnplacedRingAtom`
      finds no bond, whatever is placed: this is the state `generate`
      leaves, since the comma expression at coordinate_generator.js:75
      never flags a ring atom. */
  lemma NoRingFlagNoNextRingBond(g: Graph, inRing: seq<bool>, placed: seq<bool>, bonds: seq<nat>)
    requires g.WellFormed() && |inRing| == g.atomCount && |placed| == g.atomCount
    requires forall k :: 0 <= k < |bonds| ==> bonds[k] < |g.bonds|
    requires forall a :: 0 <= a < g.atomCount ==> !inRing[a]
    ensures FindNextRingBondWithUnplacedRingAtom(g, inRing, placed, bonds) == None
  {
    forall k | 0 <= k < |bonds|
      ensures !EntersRing(g, inRing, placed, bonds[k])
    {
      var (s, t) := g.bonds[bonds[k]];
      assert !inRing[s] && !inRing[t];
    }
  }

  /** The ring end of a bond that enters a ring: the first of source and
      target that is ISINRING and unplaced (coordinate_generator.js:790-792). */
  function RingEnd(g: Graph, inRing: seq<bool>, placed: seq<bool>, b: nat): (a: nat)
    requires g.WellFormed() && b < |g.bonds| && |inRing| == g.atomCount && |placed| == g.atomCount
    requires EntersRing(g, inRing, placed, b)
    ensures (a == g.bonds[b].0 || a == g.bonds[b].1) && a < g.atomCount
    ensures RingEntry(g, inRing, placed, b, a)
  {
    var (s, t) := g.bonds[b];
    if inRing[s] && !placed[s] then s else t
  }

  /** Does a ring of the set hold atom a? */
  predicate HoldsAtom(rings: seq<RingRecord>, ringset: seq<nat>, a: nat)
    requires forall k :: 0 <= k < |ringset| ==> ringset[k] < |rings|
  {
    exists k :: 0 <= k < |ringset| && a in rings[ringset[k]].atoms
  }

  /** Every ring set names rings of the table. */
  predicate RingSetsIn(ringsets: seq<seq<nat>>, m: nat)
  {
    forall i :: 0 <= i < |ringsets| ==> forall k :: 0 <= k < |ringsets[i]| ==> ringsets[i][k] < m
  }

  /** The `goog.array.find` over the ring sets at
      coordinate_generator.js:797-800: the position of the first set with
      a ring holding atom a; None (undefined) when no set has one. */
  function FindRingSet(rings: seq<RingRecord>, ringsets: seq<seq<nat>>, a: nat): (r: Option<nat>)
    requires RingSetsIn(ringsets, |rings|)
    ensures r.None? <==> forall i :: 0 <= i < |ringsets| ==> !HoldsAtom(rings, ringsets[i], a)
    ensures r.Some? ==>
      r.value < |ringsets| && HoldsAtom(rings, ringsets[r.value], a) &&
      forall i :: 0 <= i < r.value ==> !HoldsAtom(rings, ringsets[i], a)
  {
    if ringsets == [] then None
    else if HoldsAtom(rings, ringsets[0], a) then Some(0)
    else
      assert forall i :: 1 <= i < |ringsets| ==> ringsets[i] == ringsets[1..][i - 1];
      match FindRingSet(rings, ringsets[1..], a)
      case None => None
      case Some(i) => Some(i + 1)
  }

  /** The `goog.array.filter` at coordinate_generator.js:786-787: the
      placed atoms, in their order. */
  function PlacedAtoms(placed: seq<bool>): (r: seq<nat>)
    ensures forall a: nat :: a in r <==> a < |placed| && placed[a]
    ensures forall k :: 0 <= k < |r| ==> r[k] < |placed|
  {
    if placed == [] then []
    else
      var last := |placed| - 1;
      var rest := PlacedAtoms(placed[..last]);
      assert forall a: nat :: a < last ==> placed[..last][a] == placed[a];
      rest + (if placed[last] then [last] else [])
  }

  /** `ring.isPlaced = true` for every ring of the set. */
  method MarkRingsPlaced(st: Layout, ringset: seq<nat>)
    requires forall k :: 0 <= k < |ringset| ==> ringset[k] < |st.ringIsPlaced|
    modifies st`ringIsPlaced
    ensures st.ringIsPlaced == SetAll(old(st.ringIsPlaced), ringset, true)
  {
    for i := 0 to |ringset|
      invariant st.ringIsPlaced == SetAll(old(st.ringIsPlaced), ringset[..i], true)
    {
      assert forall x :: x in ringset[..i + 1] <==> x in ringset[..i] || x == ringset[i];
      st.ringIsPlaced := st.ringIsPlaced[ringset[i] := true];
    }
    assert ringset[..|ringset|] == ringset;
  }

  /** `layoutNextRingSystem(firstBondVector, molecule, sssr, ringsets)`
      (coordinate_generator.js:783-848).  The reset throws when a ring of
      `sssr` with `isPlaced` unset has atoms.  Otherwise, with no bond from
      a placed atom into an unplaced ring atom, nothing changes.  With one,
      the first ring set holding its ring end is laid out by `ringSet`, its
      substituents are placed while the atoms placed before are
      temporarily unflagged, and every ring of the set gains `isPlaced`;
      no ring set holding it makes `ringSet` read the length of undefined.
      No flag is ever cleared. */
  method LayoutNextRingSystem(g: Graph, st: Layout, symbols: seq<string>, rings: seq<RingRecord>,
                              sssr: seq<nat>, ringsets: seq<seq<nat>>,
                              bondVector: LayoutVector2D.Vector2D, bondLength: real, geo: Geometry, fuel: nat)
    returns (r: Run, ghost laidOut: Option<nat>)
    requires Fits(g, st, symbols) && |st.ringPlaced| == |rings| && |st.ringIsPlaced| == |rings|
    requires |st.inRing| == g.atomCount
    requires forall k :: 0 <= k < |sssr| ==> sssr[k] < |rings|
    requires RingSetsIn(ringsets, |rings|)
    requires forall q :: 0 <= q < |rings| ==> RingIn(g, rings[q])
    requires bondVector.IsFinite()
    modifies st`coords, st`placed, st`ringPlaced, st`ringIsPlaced, bondVector
    ensures bondVector.IsFinite()
    ensures Fits(g, st, symbols) && |st.ringPlaced| == |rings| && |st.ringIsPlaced| == |rings|
    ensures OnlySet(old(st.placed), st.placed) && OnlySet(old(st.ringIsPlaced), st.ringIsPlaced)
    ensures UnplacedRingWithAtoms(rings, sssr, old(st.ringIsPlaced)) ==>
      r == Threw(IsPlacedCallError) && laidOut.None? && st.placed == old(st.placed)
    ensures FindNextRingBondWithUnplacedRingAtom(g, st.inRing, old(st.placed), Indices(|g.bonds|)).None? ==>
      laidOut.None? && st.placed == old(st.placed) && st.ringIsPlaced == old(st.ringIsPlaced) &&
      (r.Finished? <==> !UnplacedRingWithAtoms(rings, sssr, old(st.ringIsPlaced)))
    ensures laidOut.Some? ==>
      var next := FindNextRingBondWithUnplacedRingAtom(g, st.inRing, old(st.placed), Indices(|g.bonds|));
      r.Finished? && next.Some? && laidOut.value < |ringsets| &&
      laidOut == FindRingSet(rings, ringsets, RingEnd(g, st.inRing, old(st.placed), next.value)) &&
      forall k :: 0 <= k < |ringsets[laidOut.value]| ==>
        st.ringIsPlaced[ringsets[laidOut.value][k]] && st.ringPlaced[ringsets[laidOut.value][k]]
  {
    laidOut := None;
    var reset := ResetUnplacedRingAtoms(st, rings, sssr);
    if reset.Fail? {
      return Threw(reset.error), laidOut;
    }
    var placedAtoms := PlacedAtoms(st.placed);
    var nextBond := FindNextRingBondWithUnplacedRingAtom(g, st.inRing, st.placed, Indices(|g.bonds|));
    if nextBond.None? {
      return Finished, laidOut;
    }
    var ringAtom := RingEnd(g, st.inRing, st.placed, nextBond.value);
    var nextRingSet := FindRingSet(rings, ringsets, ringAtom);
    if nextRingSet.None? {
      return Threw(NullLengthError), laidOut;
    }
    var ringset := ringsets[nextRingSet.value];
    r := PlaceRingSystem(g, st, symbols, rings, ringset, placedAtoms, bondVector, bondLength, geo, fuel);
    if r.Finished? {
      laidOut := nextRingSet;
    }
  }

  /** Lines 823-846 of `layoutNextRingSystem`, for the ring set found: lay
      it out, place its substituents with the atoms placed before
      (`placedAtoms`) temporarily unflagged, then flag every ring of the
      set `isPlaced`.  No flag is cleared, and when the layout finishes
      every ring of the set carries both flags. */
  method PlaceRingSystem(g: Graph, st: Layout, symbols: seq<string>, rings: seq<RingRecord>, ringset: seq<nat>,
                         placedAtoms: seq<nat>, bondVector: LayoutVector2D.Vector2D, bondLength: real,
                         geo: Geometry, fuel: nat)
    returns (r: Run)
    requires Fits(g, st, symbols) && |st.ringPlaced| == |rings| && |st.ringIsPlaced| == |rings|
    requires forall k :: 0 <= k < |ringset| ==> ringset[k] < |rings|
    requires forall q :: 0 <= q < |rings| ==> RingIn(g, rings[q])
    requires placedAtoms == PlacedAtoms(st.placed)
    requires bondVector.IsFinite()
    modifies st`coords, st`placed, st`ringPlaced, st`ringIsPlaced, bondVector
    ensures bondVector.IsFinite()
    ensures Fits(g, st, symbols) && |st.ringPlaced| == |rings| && |st.ringIsPlaced| == |rings|
    ensures OnlySet(old(st.placed), st.placed) && OnlySet(old(st.ringIsPlaced), st.ringIsPlaced)
    ensures r.Finished? ==> forall k :: 0 <= k < |ringset| ==>
      st.ringIsPlaced[ringset[k]] && st.ringPlaced[ringset[k]]
  {
    ghost var p0 := st.placed;
    var run, _ := RingSet(g, st, symbols, rings, ringset, bondVector, bondLength, geo, fuel);
    if !run.Finished? {
      return run;
    }
    MarkNotPlaced(st, placedAtoms);
    var substituents := PlaceRingSubstituents(g, st, rings, ringset);
    MarkPlaced(st, placedAtoms);
    assert OnlySet(p0, st.placed) by {
      forall a | 0 <= a < |p0| && p0[a]
        ensures st.placed[a]
      {
        assert a in placedAtoms;
      }
    }
    ghost var isPlaced0 := st.ringIsPlaced;
    MarkRingsPlaced(st, ringset);
    SetAllTrue(isPlaced0, ringset);
    r := Finished;
  }

  /** Setting flags only sets them, and sets every listed one. */
  lemma SetAllTrue(flags: seq<bool>, atoms: seq<nat>)
    requires forall k :: 0 <= k < |atoms| ==> atoms[k] < |flags|
    ensures OnlySet(flags, SetAll(flags, atoms, true))
    ensures forall k :: 0 <= k < |atoms| ==> SetAll(flags, atoms, true)[atoms[k]]
  {
  }

  // ---------------------------------------------------- sorting ring sets

  /** Sizes never decrease along the list. */
  predicate SortedBySize(s: seq<seq<nat>>)
  {
    forall i, j :: 0 <= i < j < |s| ==> |s[i]| <= |s[j]|
  }

  /** x inserted after every set no larger than it. */
  function InsertBySize(x: seq<nat>, s: seq<seq<nat>>): (r: seq<seq<nat>>)
    ensures |r| == |s| + 1
  {
    if s == [] then [x]
    else if |x| < |s[0]| then [x] + s
    else [s[0]] + InsertBySize(x, s[1..])
  }

  /** `ringsets.sort` by size with `goog.array.defaultCompare`
      (coordinate_generator.js:78), as an insertion sort that, like the
      built-in sort, keeps sets of equal size in their order. */
  function SortBySize(s: seq<seq<nat>>): (r: seq<seq<nat>>)
    ensures |r| == |s|
  {
    if s == [] then []
    else InsertBySize(s[|s| - 1], SortBySize(s[..|s| - 1]))
  }

  lemma {:induction false} InsertPermutes(x: seq<nat>, s: seq<seq<nat>>)
    ensures multiset(InsertBySize(x, s)) == multiset(s) + multiset{x}
  {
    if s != [] && |x| >= |s[0]| {
      InsertPermutes(x, s[1..]);
      assert s == [s[0]] + s[1..];
    }
  }

  lemma {:induction false} InsertSorted(x: seq<nat>, s: seq<seq<nat>>)
    requires SortedBySize(s)
    ensures SortedBySize(InsertBySize(x, s))
    ensures s != [] ==> InsertBySize(x, s)[0] == x || InsertBySize(x, s)[0] == s[0]
  {
    if s != [] && |x| >= |s[0]| {
      var rest := InsertBySize(x, s[1..]);
      InsertSorted(x, s[1..]);
      assert |s[0]| <= |rest[0]|;
      assert InsertBySize(x, s) == [s[0]] + rest;
    }
  }

  /** The sort only reorders the ring sets. */
  lemma {:induction false} SortPermutes(s: seq<seq<nat>>)
    ensures multiset(SortBySize(s)) == multiset(s)
  {
    if s != [] {
      var init := s[..|s| - 1];
      SortPermutes(init);
      InsertPermutes(s[|s| - 1], SortBySize(init));
      assert s == init + [s[|s| - 1]];
    }
  }

  /** The sort leaves the sizes in increasing order. */
  lemma {:induction false} SortSorted(s: seq<seq<nat>>)
    ensures SortedBySize(SortBySize(s))
  {
    if s != [] {
      SortSorted(s[..|s| - 1]);
      InsertSorted(s[|s| - 1], SortBySize(s[..|s| - 1]));
    }
  }

  /** `goog.array.peek` of the sorted ring sets (coordinate_generator.js:79)
      is a ring set of the input, and no ring set of the input is larger. */
  lemma PeekIsLargest(s: seq<seq<nat>>)
    requires s != []
    ensures |SortBySize(s)| == |s|
    ensures SortBySize(s)[|s| - 1] in s
    ensures forall x :: x in s ==> |x| <= |SortBySize(s)[|s| - 1]|
  {
    var sorted := SortBySize(s);
    SortPermutes(s);
    SortSorted(s);
    assert |sorted| == |multiset(sorted)| == |multiset(s)| == |s|;
    assert sorted[|s| - 1] in multiset(sorted);
    forall x | x in s
      ensures |x| <= |sorted[|s| - 1]|
    {
      assert x in multiset(sorted);
      var j :| 0 <= j < |sorted| && sorted[j] == x;
    }
  }

  /** Sorting keeps every ring set within the ring table. */
  lemma SortedIn(s: seq<seq<nat>>, m: nat)
    requires RingSetsIn(s, m)
    ensures RingSetsIn(SortBySize(s), m) && |SortBySize(s)| == |s|
  {
    var sorted := SortBySize(s);
    SortPermutes(s);
    assert |sorted| == |multiset(sorted)| == |multiset(s)| == |s|;
    forall i | 0 <= i < |sorted|
      ensures forall k :: 0 <= k < |sorted[i]| ==> sorted[i][k] < m
    {
      assert sorted[i] in multiset(s);
      var j :| 0 <= j < |s| && s[j] == sorted[i];
    }
  }

  // ------------------------------------------------------------ the layout

  /** The first bond of the chain laid out when there is no ring
      (coordinate_generator.js:95-101, atom_placer.js:215-232): the start
      goes to the origin and gains ISPLACED, and when the chain has a
      second atom `placeLinearChain` first normalises and scales the given
      vector in place and steps along it; the later steps are the
      Geometry's. */
  method PlaceInitialChain(st: Layout, chain: seq<nat>, vector: LayoutVector2D.Vector2D, bondLength: real,
                           geo: Geometry)
    requires |st.coords| == |st.placed| && |chain| > 0
    requires forall k :: 0 <= k < |chain| ==> chain[k] < |st.coords|
    requires vector.IsFinite()
    modifies st`coords, st`placed, vector
    ensures vector.IsFinite()
    ensures |st.coords| == old(|st.coords|) && |st.placed| == old(|st.placed|)
    ensures forall a :: 0 <= a < |st.placed| ==> st.placed[a] == (a in chain || old(st.placed[a]))
    ensures |chain| == 1 ==> vector.RealValue() == old(vector.RealValue())
    ensures |chain| > 1 ==> vector.RealValue() == Scaled(geo.tr.normalized(old(vector.RealValue())), bondLength)
    ensures Distinct(chain) ==> st.coords[chain[0]] == Zero
    ensures Distinct(chain) && |chain| > 1 ==> st.coords[chain[1]] == vector.RealValue()
  {
    st.coords := st.coords[chain[0] := Vec(0.0, 0.0)];
    st.placed := st.placed[chain[0] := true];
    var steps: seq<Vec> := [];
    if |chain| > 1 {
      var unit := geo.tr.normalized(vector.RealValue());
      vector.x, vector.y := Fin(unit.x), Fin(unit.y);
      vector.Scale(Fin(bondLength));
      steps := [vector.RealValue()] + seq(|chain| - 2, k requires 0 <= k < |chain| - 2 => geo.chainStep(chain, k + 1));
    }
    ghost var p0 := st.placed;
    PlaceLinearChain(st, chain, steps);
    forall a | 0 <= a < |st.placed|
      ensures st.placed[a] == (a in chain || old(st.placed[a]))
    {
      assert a in chain <==> a == chain[0] || a in chain[1..];
    }
  }

  /** The part of `generate` after the ring partition
      (coordinate_generator.js:64-127), for a molecule whose ring sets the
      partition is given as (the call at line 70 never returns one).  When
      the bond count allows a ring, no atom gains ISINRING (the comma
      expression at line 75), the ring sets are sorted by size, the last
      (largest) is laid out by `ringSet`, its substituents are placed, and
      its rings gain `isPlaced`; an empty list makes `ringSet` read the
      length of undefined.  Otherwise the longest chain is laid out from
      the origin.  Then aliphatic growth and the next ring system alternate
      until every atom is placed or the counter passes the atom count, and
      the overlap pass runs with `BOND_LENGTH` undefined.  The bond vector
      these steps rescale in place is the (0, 1) that `generate` creates
      at line 38.  A normal end
      makes between 1 and atom count + 1 rounds, ends early only with every
      atom placed, and leaves `isPlaced` on exactly the rings that had it
      and the rings of the largest set: no later ring system is ever laid
      out. */
  method LayoutMolecule(g: Graph, st: Layout, symbols: seq<string>, rings: seq<RingRecord>,
                        ringsets: seq<seq<nat>>, bondLength: real,
                        geo: Geometry, fuel: nat)
    returns (r: Run, rounds: nat)
    requires Fits(g, st, symbols) && |st.ringPlaced| == |rings| && |st.ringIsPlaced| == |rings|
    requires |st.inRing| == g.atomCount && |st.visited| == g.atomCount
    requires forall a :: 0 <= a < g.atomCount ==> !st.inRing[a]
    requires RingSetsIn(ringsets, |rings|)
    requires forall q :: 0 <= q < |rings| ==> RingIn(g, rings[q])
    modifies st`coords, st`placed, st`visited, st`ringPlaced, st`ringIsPlaced
    ensures Fits(g, st, symbols)
    ensures forall a :: 0 <= a < g.atomCount ==> !st.inRing[a]
    ensures r.Finished? ==> 1 <= rounds <= g.atomCount + 1
    ensures r.Finished? && rounds <= g.atomCount ==> forall a :: 0 <= a < g.atomCount ==> st.placed[a]
    ensures r.Finished? && |g.bonds| + 1 > g.atomCount ==>
      ringsets != [] &&
      st.ringIsPlaced == SetAll(old(st.ringIsPlaced), SortBySize(ringsets)[|ringsets| - 1], true)
    ensures r.Finished? && |g.bonds| + 1 <= g.atomCount ==> st.ringIsPlaced == old(st.ringIsPlaced)
    ensures ringsets == [] && |g.bonds| + 1 > g.atomCount ==> r == Threw(UndefinedLengthError)
  {
    var bondVector := new LayoutVector2D.Vector2D(Fin(0.0), Fin(1.0));
    rounds := 0;
    var expectedRingCount := |g.bonds| - g.atomCount + 1;
    var sets := ringsets;
    if expectedRingCount > 0 {
      // line 75 passes the callback to nothing: no atom gains ISINRING
      SortedIn(ringsets, |rings|);
      sets := SortBySize(ringsets);
      if sets == [] {
        return Threw(UndefinedLengthError), rounds;
      }
      var largest := sets[|sets| - 1];
      var run, _ := RingSet(g, st, symbols, rings, largest, bondVector, bondLength, geo, fuel);
      if !run.Finished? {
        return run, rounds;
      }
      var _ := PlaceRingSubstituents(g, st, rings, largest);
      MarkRingsPlaced(st, largest);
    } else {
      ghost var apsp, end;
      var longest;
      longest, apsp, end := GetInitialLongestChain(g, st);
      if longest.Err? {
        return Threw(longest.error), rounds;
      }
      PlaceInitialChain(st, longest.value, bondVector, bondLength, geo);
    }
    r, rounds := LayoutRounds(g, st, symbols, rings, sets, bondVector, bondLength, geo, fuel);
  }

  /** The main loop and the overlap pass of `generate`
      (coordinate_generator.js:103-127): each round grows the aliphatic
      parts and then lays out the next ring system, until every atom is
      placed or the counter passes the atom count.  With no atom flagged
      ISINRING no round finds a next ring system, so no ring gains
      `isPlaced`; placed atoms stay placed, and the overlap pass, whose
      cutoff is NaN, moves nothing. */
  method LayoutRounds(g: Graph, st: Layout, symbols: seq<string>, rings: seq<RingRecord>,
                      ringsets: seq<seq<nat>>, bondVector: LayoutVector2D.Vector2D, bondLength: real,
                      geo: Geometry, fuel: nat)
    returns (r: Run, rounds: nat)
    requires Fits(g, st, symbols) && |st.ringPlaced| == |rings| && |st.ringIsPlaced| == |rings|
    requires |st.inRing| == g.atomCount && |st.visited| == g.atomCount
    requires forall a :: 0 <= a < g.atomCount ==> !st.inRing[a]
    requires RingSetsIn(ringsets, |rings|)
    requires forall q :: 0 <= q < |rings| ==> RingIn(g, rings[q])
    requires bondVector.IsFinite()
    modifies st`coords, st`placed, st`visited, st`ringPlaced, st`ringIsPlaced, bondVector
    ensures bondVector.IsFinite()
    ensures Fits(g, st, symbols)
    ensures OnlySet(old(st.placed), st.placed)
    ensures r.Finished? ==> 1 <= rounds <= g.atomCount + 1
    ensures r.Finished? && rounds <= g.atomCount ==> forall a :: 0 <= a < g.atomCount ==> st.placed[a]
    ensures r.Finished? ==> st.ringIsPlaced == old(st.ringIsPlaced)
  {
    var safetyCounter: nat := 0;
    var all := false;
    while safetyCounter == 0 || (!all && safetyCounter <= g.atomCount)
      invariant Fits(g, st, symbols) && |st.ringPlaced| == |rings| && |st.ringIsPlaced| == |rings|
      invariant bondVector.IsFinite()
      invariant |st.visited| == g.atomCount
      invariant OnlySet(old(st.placed), st.placed)
      invariant st.ringIsPlaced == old(st.ringIsPlaced)
      invariant safetyCounter <= g.atomCount + 1
      invariant safetyCounter > 0 ==> (all <==> forall a :: 0 <= a < g.atomCount ==> st.placed[a])
      decreases g.atomCount + 1 - safetyCounter
    {
      safetyCounter := safetyCounter + 1;
      ghost var before := st.placed;
      var grown, grownRounds;
      ghost var stalled;
      grown, grownRounds, stalled := HandleAliphatics(g, st, |g.bonds|, geo);
      if grown.Fail? {
        return Threw(grown.error), safetyCounter;
      }
      ghost var mid := st.placed;
      NoRingFlagNoNextRingBond(g, st.inRing, st.placed, Indices(|g.bonds|));
      var next;
      ghost var laidOut;
      next, laidOut := LayoutNextRingSystem(g, st, symbols, rings, Indices(|rings|), ringsets,
                                            bondVector, bondLength, geo, fuel);
      if !next.Finished? {
        return next, safetyCounter;
      }
      OnlySetTrans(old(st.placed), before, mid);
      OnlySetTrans(old(st.placed), mid, st.placed);
      all := AtomPlacer.AllPlaced(st, g.atomCount);
    }
    rounds := safetyCounter;
    var score := OverlapResolver.ResolveOverlap(st, None, geo.tr.sqrt, geo.tr.normalized);
    r := Finished;
  }
}
