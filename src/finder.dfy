// src/ring/finder.js: the ring finder the molecule calls.  It marks the
// atoms that lie on a ring closure of a breadth-first spanning tree
// (`detectRingAtoms`), gathers the marked atoms into ring systems, runs the
// Hanser finder (rings of up to six atoms) on each system, keeps its rings
// when `verifySSSR` accepts enough of them and otherwise runs the full SSSR
// search, and turns each ring of atom indices into a ring of atoms and
// bonds.  Atoms and bonds are indices into the molecule's lists, which is
// what the `index` fields finder.js:443-452 assigns make them.

module RingFinder {
  import opened Wrappers
  import opened Seqs
  import opened MolGraph
  import RingHanser
  import RingSSSR
  import RingDetect

  /** A ring as `new ringRing(atoms, bonds)` (src/ring/ring.js:31-49)
      receives it from the finder: atom indices and bond indices. */
  datatype RingRecord = RingRecord(atoms: seq<nat>, bonds: seq<nat>)

  const NoAtomError := "TypeError: Cannot read properties of undefined (reading 'bonds')"

  /** The bonds `createRing` collects: the bond of each consecutive pair,
      then the bond between the first and the last atom, skipping pairs
      without a bond. */
  function RingBonds(g: Graph, atoms: seq<nat>): seq<nat>
    requires |atoms| > 0
  {
    var closing := FindBond(g, atoms[0], atoms[|atoms| - 1]);
    RingHanser.PairBonds(g, atoms) + (if closing.Some? then [closing.value] else [])
  }

  /** `createRing(atomIndexes, molecule)` (finder.js:34-58).  An empty
      list fails: `findBond(atoms[0], ...)` reads the bonds of undefined. */
  method CreateRing(atomIndexes: seq<nat>, g: Graph) returns (r: Result<RingRecord>)
    requires forall k :: 0 <= k < |atomIndexes| ==> atomIndexes[k] < g.atomCount
    ensures atomIndexes == [] ==> r == Err(NoAtomError)
    ensures atomIndexes != [] ==> r == Ok(RingRecord(atomIndexes, RingBonds(g, atomIndexes)))
  {
    var atoms: seq<nat> := [];
    for i := 0 to |atomIndexes|
      invariant atoms == atomIndexes[..i]
    {
      atoms := atoms + [atomIndexes[i]];
    }
    assert atoms == atomIndexes;
    var bonds := RingHanser.CollectBonds(atoms, g);
    if atoms == [] {
      return Err(NoAtomError);
    }
    var bond := FindBond(g, atoms[0], atoms[|atoms| - 1]);
    if bond.Some? {
      bonds := bonds + [bond.value];
    }
    assert bonds == RingBonds(g, atomIndexes);
    return Ok(RingRecord(atoms, bonds));
  }

  /** Every bond of a created ring links two of its atoms: a consecutive
      pair, or the first and the last atom. */
  lemma RingBondsLinkRingAtoms(g: Graph, atoms: seq<nat>)
    requires |atoms| > 0
    ensures forall k :: 0 <= k < |RingBonds(g, atoms)| ==>
      var b := RingBonds(g, atoms)[k];
      b < |g.bonds| && exists p :: 0 <= p < |atoms| && Touches(g, b, atoms[p])
  {
    var pairs := RingHanser.PairBonds(g, atoms);
    PairBondsTouch(g, atoms);
    var closing := FindBond(g, atoms[0], atoms[|atoms| - 1]);
    forall k | 0 <= k < |RingBonds(g, atoms)|
      ensures var b := RingBonds(g, atoms)[k];
        b < |g.bonds| && exists p :: 0 <= p < |atoms| && Touches(g, b, atoms[p])
    {
      if k == |pairs| {
        assert Links(g, closing.value, atoms[0], atoms[|atoms| - 1]);
        assert Touches(g, closing.value, atoms[0]);
      } else {
        assert RingBonds(g, atoms)[k] == pairs[k];
      }
    }
  }

  lemma {:induction false} PairBondsTouch(g: Graph, atoms: seq<nat>)
    ensures forall k :: 0 <= k < |RingHanser.PairBonds(g, atoms)| ==>
      exists p :: 0 <= p < |atoms| && Touches(g, RingHanser.PairBonds(g, atoms)[k], atoms[p])
  {
    if |atoms| >= 2 {
      var init := atoms[..|atoms| - 1];
      PairBondsTouch(g, init);
      var rest := RingHanser.PairBonds(g, init);
      var b := FindBond(g, atoms[|atoms| - 2], atoms[|atoms| - 1]);
      assert RingHanser.PairBonds(g, atoms) == rest + (if b.Some? then [b.value] else []);
      forall k | 0 <= k < |RingHanser.PairBonds(g, atoms)|
        ensures exists p :: 0 <= p < |atoms| && Touches(g, RingHanser.PairBonds(g, atoms)[k], atoms[p])
      {
        if k < |rest| {
          var p :| 0 <= p < |init| && Touches(g, rest[k], init[p]);
          assert atoms[p] == init[p];
          assert Touches(g, RingHanser.PairBonds(g, atoms)[k], atoms[p]);
        } else {
          var p := |atoms| - 2;
          assert Links(g, b.value, atoms[p], atoms[|atoms| - 1]);
          assert Touches(g, RingHanser.PairBonds(g, atoms)[k], atoms[p]);
        }
      }
    } else {
      assert RingHanser.PairBonds(g, atoms) == [];
    }
  }

  /** A ring whose consecutive atoms, and whose first and last atom, are
      all bonded gets one bond per atom. */
  lemma RingBondsOfBondedRing(g: Graph, atoms: seq<nat>)
    requires |atoms| > 0
    requires forall k :: 0 <= k < |atoms| - 1 ==> FindBond(g, atoms[k], atoms[k + 1]).Some?
    requires FindBond(g, atoms[0], atoms[|atoms| - 1]).Some?
    ensures |RingBonds(g, atoms)| == |atoms|
  {
    RingHanser.PairBondsOfBondedWalk(g, atoms);
  }

  /** What `verifySSSR` (finder.js:119-140) accepts from `rings` on, given
      the rings accepted so far and the ring counts: each ring in turn is
      tested with the SSSR module's `isCandidateInSet`, kept when it is
      not in the set, and the scan stops once nsssr rings are kept. */
  function Verify(rings: seq<seq<nat>>, nsssr: int, valences: seq<int>, rc: seq<int>, acc: seq<seq<nat>>): seq<seq<nat>>
    requires forall r :: r in rings ==> forall y :: y in r ==> y < |rc| && y < |valences|
  {
    if rings == [] then acc
    else
      var ring := rings[0];
      assert ring in rings;
      assert forall j :: 0 <= j < |ring| ==> ring[j] in ring;
      assert forall r :: r in rings[1..] ==> r in rings;
      var (inSet, counts) := RingSSSR.CandidateInSet(ring, acc, valences, rc);
      if inSet then Verify(rings[1..], nsssr, valences, counts, acc)
      else if |acc| + 1 == nsssr then acc + [ring]
      else Verify(rings[1..], nsssr, valences, counts, acc + [ring])
  }

  /** a is a subsequence of b: b with some elements left out. */
  predicate Subsequence<T(==)>(a: seq<T>, b: seq<T>)
  {
    a == [] || (b != [] && ((a[0] == b[0] && Subsequence(a[1..], b[1..])) || Subsequence(a, b[1..])))
  }

  /** The kept rings extend the accepted ones by a subsequence of the
      input (input order is kept); for nsssr >= 1 they never number more
      than nsssr; and no kept ring contains all atoms of one kept before
      it. */
  lemma VerifyMeaning(rings: seq<seq<nat>>, nsssr: int, valences: seq<int>, rc: seq<int>, acc: seq<seq<nat>>)
    requires forall r :: r in rings ==> forall y :: y in r ==> y < |rc| && y < |valences|
    requires nsssr >= 1 ==> |acc| < nsssr
    requires forall i, j :: 0 <= i < j < |acc| ==> !RingSSSR.ContainsRing(acc[j], acc[i])
    ensures var r := Verify(rings, nsssr, valences, rc, acc);
      |acc| <= |r| && r[..|acc|] == acc && Subsequence(r[|acc|..], rings) &&
      (nsssr >= 1 ==> |r| <= nsssr) &&
      forall i, j :: 0 <= i < j < |r| ==> !RingSSSR.ContainsRing(r[j], r[i])
  {
    VerifyExtends(rings, nsssr, valences, rc, acc);
    VerifyBounded(rings, nsssr, valences, rc, acc);
    VerifyUncontained(rings, nsssr, valences, rc, acc);
    assert Uncontained(Verify(rings, nsssr, valences, rc, acc));
  }

  /** No ring contains all atoms of a ring before it. */
  predicate Uncontained(rs: seq<seq<nat>>)
  {
    forall i, j :: 0 <= i < j < |rs| ==> !RingSSSR.ContainsRing(rs[j], rs[i])
  }

  /** The first ring of a non-empty input, and what the SSSR test says of
      it; shared by the three lemmas below. */
  lemma VerifyStep(rings: seq<seq<nat>>, valences: seq<int>, rc: seq<int>)
    requires rings != []
    requires forall r :: r in rings ==> forall y :: y in r ==> y < |rc| && y < |valences|
    ensures forall j :: 0 <= j < |rings[0]| ==> rings[0][j] < |rc| && rings[0][j] < |valences|
    ensures forall r :: r in rings[1..] ==> forall y :: y in r ==> y < |rc| && y < |valences|
  {
    assert rings[0] in rings;
    assert forall j :: 0 <= j < |rings[0]| ==> rings[0][j] in rings[0];
    assert forall r :: r in rings[1..] ==> r in rings;
  }

  lemma {:induction false} VerifyExtends(rings: seq<seq<nat>>, nsssr: int, valences: seq<int>, rc: seq<int>, acc: seq<seq<nat>>)
    requires forall r :: r in rings ==> forall y :: y in r ==> y < |rc| && y < |valences|
    ensures var r := Verify(rings, nsssr, valences, rc, acc);
      |acc| <= |r| && r[..|acc|] == acc && Subsequence(r[|acc|..], rings)
  {
    if rings != [] {
      VerifyStep(rings, valences, rc);
      var ring := rings[0];
      var (inSet, counts) := RingSSSR.CandidateInSet(ring, acc, valences, rc);
      var r := Verify(rings, nsssr, valences, rc, acc);
      if inSet {
        VerifyExtends(rings[1..], nsssr, valences, counts, acc);
      } else {
        var acc' := acc + [ring];
        if |acc| + 1 == nsssr {
          assert r == acc';
          assert r[|acc|..] == [ring];
          assert Subsequence([ring][1..], rings[1..]);
        } else {
          VerifyExtends(rings[1..], nsssr, valences, counts, acc');
          assert r[..|acc'|][..|acc|] == acc;
          assert r[|acc|..][1..] == r[|acc'|..];
        }
      }
    }
  }

  lemma {:induction false} VerifyBounded(rings: seq<seq<nat>>, nsssr: int, valences: seq<int>, rc: seq<int>, acc: seq<seq<nat>>)
    requires forall r :: r in rings ==> forall y :: y in r ==> y < |rc| && y < |valences|
    requires nsssr >= 1 ==> |acc| < nsssr
    ensures nsssr >= 1 ==> |Verify(rings, nsssr, valences, rc, acc)| <= nsssr
  {
    if rings != [] {
      VerifyStep(rings, valences, rc);
      var ring := rings[0];
      var (inSet, counts) := RingSSSR.CandidateInSet(ring, acc, valences, rc);
      if inSet {
        VerifyBounded(rings[1..], nsssr, valences, counts, acc);
      } else if |acc| + 1 != nsssr {
        VerifyBounded(rings[1..], nsssr, valences, counts, acc + [ring]);
      }
    }
  }

  lemma {:induction false} VerifyUncontained(rings: seq<seq<nat>>, nsssr: int, valences: seq<int>, rc: seq<int>, acc: seq<seq<nat>>)
    requires forall r :: r in rings ==> forall y :: y in r ==> y < |rc| && y < |valences|
    requires Uncontained(acc)
    ensures Uncontained(Verify(rings, nsssr, valences, rc, acc))
  {
    if rings != [] {
      VerifyStep(rings, valences, rc);
      var ring := rings[0];
      var (inSet, counts) := RingSSSR.CandidateInSet(ring, acc, valences, rc);
      RingSSSR.CandidateInSetMeaning(ring, acc, valences, rc);
      if inSet {
        assert Verify(rings, nsssr, valences, rc, acc) == Verify(rings[1..], nsssr, valences, counts, acc);
        VerifyUncontained(rings[1..], nsssr, valences, counts, acc);
      } else {
        var acc' := acc + [ring];
        forall i, j | 0 <= i < j < |acc'|
          ensures !RingSSSR.ContainsRing(acc'[j], acc'[i])
        {
          assert acc'[i] == acc[i] && acc[i] in acc;
          if j < |acc| {
            assert acc'[j] == acc[j];
          }
        }
        assert Uncontained(acc');
        if |acc| + 1 == nsssr {
          assert Verify(rings, nsssr, valences, rc, acc) == acc';
        } else {
          assert Verify(rings, nsssr, valences, rc, acc) == Verify(rings[1..], nsssr, valences, counts, acc');
          VerifyUncontained(rings[1..], nsssr, valences, counts, acc');
        }
      }
    }
  }

  /** `verifySSSR(sssr, nsssr, molecule)` (finder.js:119-140).  It calls
      `ringSSSR.isCandidateInSet` (line 131); finder.js:69-107 holds a
      line-for-line copy of that function which nothing calls. */
  method VerifySSSR(sssr: seq<seq<nat>>, nsssr: int, g: Graph) returns (accepted: seq<seq<nat>>)
    requires forall r :: r in sssr ==> forall y :: y in r ==> y < g.atomCount
    ensures accepted == Verify(sssr, nsssr, RingSSSR.Valences(g), RingSSSR.NoRingCounts(g), [])
  {
    var valences: seq<int> := [];
    for i := 0 to g.atomCount
      invariant valences == RingSSSR.Valences(g)[..i]
    {
      valences := valences + [Degree(g, i)];
    }
    assert valences == RingSSSR.Valences(g);
    var ringCount := new int[g.atomCount](_ => 0);
    accepted := [];
    ghost var zeros := ringCount[..];
    assert zeros == RingSSSR.NoRingCounts(g);
    for i := 0 to |sssr|
      invariant forall r :: r in sssr[i..] ==> r in sssr
      invariant Verify(sssr, nsssr, valences, zeros, []) == Verify(sssr[i..], nsssr, valences, ringCount[..], accepted)
    {
      assert sssr[i..] == [sssr[i]] + sssr[i + 1..];
      var ring := sssr[i];
      assert ring in sssr;
      assert forall j :: 0 <= j < |ring| ==> ring[j] in ring;
      var inSet := RingSSSR.IsCandidateInSet(ring, accepted, valences, ringCount);
      if !inSet {
        accepted := accepted + [ring];
        if |accepted| == nsssr {
          return;
        }
      }
    }
    assert sssr[|sssr|..] == [];
  }

  /** For nsssr >= 1 `verifySSSR` keeps at most nsssr rings, in input
      order, none containing an earlier kept one. */
  lemma VerifySSSRMeaning(sssr: seq<seq<nat>>, nsssr: int, g: Graph)
    requires forall r :: r in sssr ==> forall y :: y in r ==> y < g.atomCount
    ensures var r := Verify(sssr, nsssr, RingSSSR.Valences(g), RingSSSR.NoRingCounts(g), []);
      Subsequence(r, sssr) && (nsssr >= 1 ==> |r| <= nsssr) &&
      forall i, j :: 0 <= i < j < |r| ==> !RingSSSR.ContainsRing(r[j], r[i])
  {
    var r := Verify(sssr, nsssr, RingSSSR.Valences(g), RingSSSR.NoRingCounts(g), []);
    VerifyMeaning(sssr, nsssr, RingSSSR.Valences(g), RingSSSR.NoRingCounts(g), []);
    assert r[0..] == r;
  }
  /** What `createRingSystems` keeps from one ring system to the next
      (finder.js:303-306): a visited flag per atom and per bond and the
      map from a molecule atom to its ring-system atom, -1 before it has
      one.  `visitedBonds` is created with one entry per atom and indexed
      by bond; an entry past its end reads as undefined and is written
      when set, so one entry per bond behaves the same. */
  datatype Marks = Marks(visitedAtoms: seq<bool>, visitedBonds: seq<bool>, indexMap: seq<int>)

  /** A ring system under construction (finder.js:320-382): atom j of the
      system stands for molecule atom `index2[j]`; system bond j joins the
      system atoms `bonds[j]` and stands for molecule bond `bondIndex2[j]`. */
  datatype System = System(index2: seq<nat>, bonds: seq<(nat, nat)>, bondIndex2: seq<nat>)

  /** The ring system as a molecule of its own. */
  function AsGraph(sys: System): Graph
  {
    Graph(|sys.index2|, sys.bonds)
  }

  predicate MarksSized(g: Graph, m: Marks)
  {
    |m.visitedAtoms| == g.atomCount && |m.visitedBonds| == |g.bonds| && |m.indexMap| == g.atomCount
  }

  /** indexMap sends molecule atom a to a system atom standing for a. */
  predicate Placed(m: Marks, sys: System, a: nat)
    requires a < |m.indexMap|
  {
    0 <= m.indexMap[a] < |sys.index2| && sys.index2[m.indexMap[a]] == a
  }

  /** Every bond of molecule atom a has been visited. */
  predicate Finished(g: Graph, m: Marks, a: nat)
    requires |m.visitedBonds| == |g.bonds|
  {
    forall k :: 0 <= k < |IncidentBonds(g, a)| ==> m.visitedBonds[IncidentBonds(g, a)[k]]
  }

  /** Every system atom stands for a ring atom of the molecule, and every
      system bond for a molecule bond joining the two atoms its ends stand
      for. */
  predicate SystemOk(g: Graph, inCycle: seq<bool>, sys: System)
  {
    (forall j :: 0 <= j < |sys.index2| ==>
      sys.index2[j] < g.atomCount && sys.index2[j] < |inCycle| && inCycle[sys.index2[j]]) &&
    |sys.bonds| == |sys.bondIndex2| &&
    forall j :: 0 <= j < |sys.bonds| ==>
      sys.bonds[j].0 < |sys.index2| && sys.bonds[j].1 < |sys.index2| && sys.bondIndex2[j] < |g.bonds| &&
      Links(g, sys.bondIndex2[j], sys.index2[sys.bonds[j].0], sys.index2[sys.bonds[j].1])
  }

  /** indexMap finds every atom of the system. */
  predicate AllPlaced(m: Marks, sys: System)
  {
    forall j :: 0 <= j < |sys.index2| ==> sys.index2[j] < |m.indexMap| && Placed(m, sys, sys.index2[j])
  }

  /** A visited ring atom is either in the system being built or has had
      all its bonds visited: an earlier system is closed off. */
  predicate Consistent(g: Graph, inCycle: seq<bool>, m: Marks, sys: System)
    requires MarksSized(g, m) && |inCycle| == g.atomCount
  {
    forall a :: 0 <= a < g.atomCount && m.visitedAtoms[a] && inCycle[a] ==> Placed(m, sys, a) || Finished(g, m, a)
  }

  lemma FinishedGrows(g: Graph, m: Marks, m': Marks, a: nat)
    requires |m.visitedBonds| == |g.bonds| == |m'.visitedBonds|
    requires forall c :: 0 <= c < |g.bonds| && m.visitedBonds[c] ==> m'.visitedBonds[c]
    requires Finished(g, m, a)
    ensures Finished(g, m', a)
  {
  }

  /** One bond of `atom` (finder.js:341-380): a visited bond is skipped;
      otherwise it is marked, and its other atom, when a ring atom, either
      closes a ring (already visited: a system bond to its system atom) or
      joins the system and the queue with a system bond to it.  The
      closure's system atom always exists: the other atom's bond is still
      unvisited, so it was reached in this system. */
  method SystemBond(g: Graph, inCycle: seq<bool>, atom: nat, b: nat, m: Marks, sys: System, queue: seq<nat>)
    returns (m': Marks, sys': System, queue': seq<nat>, ghost added: seq<nat>)
    requires g.WellFormed() && |inCycle| == g.atomCount && MarksSized(g, m)
    requires atom < g.atomCount && b < |g.bonds| && Touches(g, b, atom)
    requires SystemOk(g, inCycle, sys) && AllPlaced(m, sys) && Consistent(g, inCycle, m, sys)
    requires Placed(m, sys, atom)
    ensures MarksSized(g, m') && SystemOk(g, inCycle, sys') && AllPlaced(m', sys') && Consistent(g, inCycle, m', sys')
    ensures Placed(m', sys', atom)
    ensures sys'.index2 == sys.index2 + added && queue' == queue + added
    ensures CountFalse(m'.visitedAtoms) + |added| == CountFalse(m.visitedAtoms)
    ensures m'.visitedBonds[b]
    ensures forall c :: 0 <= c < |g.bonds| && m.visitedBonds[c] ==> m'.visitedBonds[c]
    ensures forall a :: 0 <= a < g.atomCount && m.visitedAtoms[a] ==> m'.visitedAtoms[a]
  {
    m', sys', queue', added := m, sys, queue, [];
    if m.visitedBonds[b] {
      return;
    }
    var nb := OtherAtom(g.bonds[b], atom).value;
    m' := m.(visitedBonds := m.visitedBonds[b := true]);
    MarkBondKeeps(g, inCycle, atom, b, nb, m, sys);
    if !inCycle[nb] {
    } else if m.visitedAtoms[nb] {
      sys' := SystemClosure(g, inCycle, atom, nb, m', sys);
    } else {
      m', sys' := SystemJoin(g, inCycle, atom, nb, m', sys);
      CountFalseSet(m.visitedAtoms, nb);
      queue' := queue + [nb];
      added := [nb];
    }
  }

  /** Marking an unvisited bond of a system atom keeps the system
      consistent, and its other end, when a visited ring atom, is in the
      system: that bond is not yet visited, so its atoms are not
      finished. */
  lemma MarkBondKeeps(g: Graph, inCycle: seq<bool>, atom: nat, b: nat, nb: nat, m: Marks, sys: System)
    requires g.WellFormed() && |inCycle| == g.atomCount && MarksSized(g, m)
    requires atom < g.atomCount && b < |g.bonds| && !m.visitedBonds[b] && OtherAtom(g.bonds[b], atom) == Some(nb)
    requires Consistent(g, inCycle, m, sys)
    ensures Consistent(g, inCycle, m.(visitedBonds := m.visitedBonds[b := true]), sys)
    ensures inCycle[nb] && m.visitedAtoms[nb] ==> Placed(m, sys, nb)
    ensures Links(g, b, atom, nb)
  {
    var m' := m.(visitedBonds := m.visitedBonds[b := true]);
    assert Links(g, b, atom, nb);
    if inCycle[nb] && m.visitedAtoms[nb] {
      assert !Finished(g, m, nb) by {
        assert Touches(g, b, nb);
        assert b in IncidentBonds(g, nb);
        var k :| 0 <= k < |IncidentBonds(g, nb)| && IncidentBonds(g, nb)[k] == b;
      }
    }
    forall a | 0 <= a < g.atomCount && m'.visitedAtoms[a] && inCycle[a] && Finished(g, m, a)
      ensures Finished(g, m', a)
    {
      FinishedGrows(g, m, m', a);
    }
  }

  /** A ring closure (finder.js:358-365): a system bond between the system
      atoms of `atom` and of its visited neighbour `nb`, standing for the
      molecule bond `findBond(atom, nb)`. */
  method SystemClosure(g: Graph, inCycle: seq<bool>, atom: nat, nb: nat, m: Marks, sys: System) returns (sys': System)
    requires g.WellFormed() && |inCycle| == g.atomCount && MarksSized(g, m)
    requires atom < g.atomCount && nb < g.atomCount && FindBond(g, atom, nb).Some?
    requires SystemOk(g, inCycle, sys) && Placed(m, sys, atom) && Placed(m, sys, nb)
    ensures SystemOk(g, inCycle, sys') && sys'.index2 == sys.index2
    ensures sys'.bonds == sys.bonds + [(m.indexMap[atom], m.indexMap[nb])]
    ensures sys'.bondIndex2 == sys.bondIndex2 + [FindBond(g, atom, nb).value]
  {
    var closure := FindBond(g, atom, nb).value;
    var src := m.indexMap[atom];
    var dst := m.indexMap[nb];
    sys' := sys.(bonds := sys.bonds + [(src, dst)], bondIndex2 := sys.bondIndex2 + [closure]);
  }

  /** A new ring atom (finder.js:366-380): visited, given the next system
      atom, and bonded to the system atom of `atom` by a system bond
      standing for `findBond(atom, nb)`.  `indexMap[atom]` is read after
      `indexMap[nb]` is written. */
  method SystemJoin(g: Graph, inCycle: seq<bool>, atom: nat, nb: nat, m: Marks, sys: System) returns (m': Marks, sys': System)
    requires g.WellFormed() && |inCycle| == g.atomCount && MarksSized(g, m)
    requires atom < g.atomCount && nb < g.atomCount && inCycle[nb] && !m.visitedAtoms[nb] && FindBond(g, atom, nb).Some?
    requires SystemOk(g, inCycle, sys) && AllPlaced(m, sys) && Placed(m, sys, atom)
    requires forall a :: 0 <= a < g.atomCount && m.visitedAtoms[a] && inCycle[a] ==> Placed(m, sys, a) || Finished(g, m, a)
    ensures m' == Marks(m.visitedAtoms[nb := true], m.visitedBonds, m.indexMap[nb := |sys.index2|])
    ensures sys'.index2 == sys.index2 + [nb]
    ensures MarksSized(g, m') && SystemOk(g, inCycle, sys') && AllPlaced(m', sys') && Consistent(g, inCycle, m', sys')
    ensures Placed(m', sys', atom)
  {
    var pos := |sys.index2|;
    m' := Marks(m.visitedAtoms[nb := true], m.visitedBonds, m.indexMap[nb := pos]);
    var bond := FindBond(g, atom, nb).value;
    var index2 := sys.index2 + [nb];
    sys' := System(index2, sys.bonds + [(m'.indexMap[atom], pos)], sys.bondIndex2 + [bond]);
    assert Placed(m', sys', nb);
    assert AllPlaced(m', sys') by {
      forall j | 0 <= j < |index2|
        ensures index2[j] < |m'.indexMap| && Placed(m', sys', index2[j])
      {
        if j < pos && index2[j] != nb {
          assert Placed(m, sys, sys.index2[j]);
        }
      }
    }
    assert Placed(m', sys', atom) by {
      if atom != nb {
        assert Placed(m, sys, atom);
      }
    }
    forall a | 0 <= a < g.atomCount && m'.visitedAtoms[a] && inCycle[a]
      ensures Placed(m', sys', a) || Finished(g, m', a)
    {
      if a != nb {
        assert Placed(m, sys, a) || Finished(g, m, a);
      }
    }
  }

  /** All bonds of one dequeued atom (finder.js:337-381), in bond-set
      order. */
  method SystemAtom(g: Graph, inCycle: seq<bool>, atom: nat, m: Marks, sys: System, queue: seq<nat>)
    returns (m': Marks, sys': System, queue': seq<nat>, ghost added: seq<nat>)
    requires g.WellFormed() && |inCycle| == g.atomCount && MarksSized(g, m) && atom < g.atomCount
    requires SystemOk(g, inCycle, sys) && AllPlaced(m, sys) && Consistent(g, inCycle, m, sys)
    requires Placed(m, sys, atom)
    ensures MarksSized(g, m') && SystemOk(g, inCycle, sys') && AllPlaced(m', sys') && Consistent(g, inCycle, m', sys')
    ensures sys'.index2 == sys.index2 + added && queue' == queue + added
    ensures CountFalse(m'.visitedAtoms) + |added| == CountFalse(m.visitedAtoms)
    ensures Finished(g, m', atom)
    ensures forall c :: 0 <= c < |g.bonds| && m.visitedBonds[c] ==> m'.visitedBonds[c]
    ensures forall a :: 0 <= a < g.atomCount && m.visitedAtoms[a] ==> m'.visitedAtoms[a]
  {
    var bonds := IncidentBonds(g, atom);
    m', sys', queue', added := m, sys, queue, [];
    for i := 0 to |bonds|
      invariant AtomLoop(g, inCycle, atom, m, sys, queue, m', sys', queue', added, i)
    {
      m', sys', queue', added := SystemAtomStep(g, inCycle, atom, i, m, sys, queue, m', sys', queue', added);
    }
  }

  /** The invariant of the loop over the bonds of `atom` after its first
      i bonds, from marks m0, system sys0 and queue queue0. */
  ghost predicate AtomLoop(g: Graph, inCycle: seq<bool>, atom: nat, m0: Marks, sys0: System, queue0: seq<nat>,
                           m: Marks, sys: System, queue: seq<nat>, added: seq<nat>, i: nat)
    requires g.WellFormed() && |inCycle| == g.atomCount && MarksSized(g, m0) && atom < g.atomCount
  {
    i <= |IncidentBonds(g, atom)| &&
    MarksSized(g, m) && SystemOk(g, inCycle, sys) && AllPlaced(m, sys) && Consistent(g, inCycle, m, sys) &&
    Placed(m, sys, atom) &&
    sys.index2 == sys0.index2 + added && queue == queue0 + added &&
    CountFalse(m.visitedAtoms) + |added| == CountFalse(m0.visitedAtoms) &&
    (forall k :: 0 <= k < i ==> m.visitedBonds[IncidentBonds(g, atom)[k]]) &&
    (forall c :: 0 <= c < |g.bonds| && m0.visitedBonds[c] ==> m.visitedBonds[c]) &&
    (forall a :: 0 <= a < g.atomCount && m0.visitedAtoms[a] ==> m.visitedAtoms[a])
  }

  /** One turn of the loop in SystemAtom: bond i of `atom`. */
  method SystemAtomStep(g: Graph, inCycle: seq<bool>, atom: nat, i: nat, ghost m0: Marks, ghost sys0: System, ghost queue0: seq<nat>,
                        m: Marks, sys: System, queue: seq<nat>, ghost added: seq<nat>)
    returns (m': Marks, sys': System, queue': seq<nat>, ghost added': seq<nat>)
    requires g.WellFormed() && |inCycle| == g.atomCount && MarksSized(g, m0) && atom < g.atomCount
    requires i < |IncidentBonds(g, atom)|
    requires AtomLoop(g, inCycle, atom, m0, sys0, queue0, m, sys, queue, added, i)
    ensures AtomLoop(g, inCycle, atom, m0, sys0, queue0, m', sys', queue', added', i + 1)
  {
    var bonds := IncidentBonds(g, atom);
    ghost var more: seq<nat>;
    m', sys', queue', more := SystemBond(g, inCycle, atom, bonds[i], m, sys, queue);
    added' := added + more;
  }

  /** One ring system (finder.js:320-382): starting from ring atom k, a
      breadth-first walk over ring atoms.  Line 326 marks atom 0 visited,
      not the start atom. */
  method BuildSystem(g: Graph, inCycle: seq<bool>, k: nat, m: Marks) returns (sys: System, m': Marks)
    requires g.WellFormed() && |inCycle| == g.atomCount && MarksSized(g, m)
    requires k < g.atomCount && inCycle[k]
    requires Consistent(g, inCycle, m, System([], [], []))
    requires k > 0 && inCycle[0] ==> m.visitedAtoms[0]
    ensures MarksSized(g, m') && Consistent(g, inCycle, m', System([], [], []))
    ensures SystemOk(g, inCycle, sys) && |sys.index2| > 0 && sys.index2[0] == k
    ensures m'.visitedAtoms[0]
    ensures forall a :: 0 <= a < g.atomCount && m.visitedAtoms[a] ==> m'.visitedAtoms[a]
  {
    m' := m.(visitedAtoms := m.visitedAtoms[0 := true], indexMap := m.indexMap[k := 0]);
    sys := System([k], [], []);
    var queue: seq<nat> := [k];
    ghost var head: nat := 0;
    assert Consistent(g, inCycle, m', sys) by {
      forall a | 0 <= a < g.atomCount && m'.visitedAtoms[a] && inCycle[a]
        ensures Placed(m', sys, a) || Finished(g, m', a)
      {
        if m.visitedAtoms[a] {
          assert Finished(g, m, a);
        }
      }
    }
    while queue != []
      invariant SystemLoop(g, inCycle, k, m, m', sys, queue, head)
      decreases CountFalse(m'.visitedAtoms), |queue|
    {
      m', sys, queue := BuildSystemStep(g, inCycle, k, m, m', sys, queue, head);
      head := head + 1;
    }
    forall a | 0 <= a < g.atomCount && m'.visitedAtoms[a] && inCycle[a]
      ensures Finished(g, m', a)
    {
      if Placed(m', sys, a) {
        assert a == sys.index2[m'.indexMap[a]];
      }
    }
  }

  /** The invariant of the walk in BuildSystem, started from marks m0:
      the first `head` system atoms are finished and the rest are queued. */
  ghost predicate SystemLoop(g: Graph, inCycle: seq<bool>, k: nat, m0: Marks, m: Marks, sys: System, queue: seq<nat>, head: nat)
    requires g.WellFormed() && |inCycle| == g.atomCount && MarksSized(g, m0)
  {
    MarksSized(g, m) && SystemOk(g, inCycle, sys) && AllPlaced(m, sys) && Consistent(g, inCycle, m, sys) &&
    |sys.index2| > 0 && sys.index2[0] == k &&
    head <= |sys.index2| && queue == sys.index2[head..] &&
    (forall j :: 0 <= j < head ==> Finished(g, m, sys.index2[j])) &&
    m.visitedAtoms[0] &&
    forall a :: 0 <= a < g.atomCount && m0.visitedAtoms[a] ==> m.visitedAtoms[a]
  }

  /** One turn of the walk in BuildSystem: dequeue the system atom at
      `head` and walk its bonds. */
  method BuildSystemStep(g: Graph, inCycle: seq<bool>, k: nat, ghost m0: Marks, m: Marks, sys: System, queue: seq<nat>, ghost head: nat)
    returns (m': Marks, sys': System, queue': seq<nat>)
    requires g.WellFormed() && |inCycle| == g.atomCount && MarksSized(g, m0)
    requires SystemLoop(g, inCycle, k, m0, m, sys, queue, head) && queue != []
    ensures SystemLoop(g, inCycle, k, m0, m', sys', queue', head + 1)
    ensures CountFalse(m'.visitedAtoms) < CountFalse(m.visitedAtoms) ||
      (CountFalse(m'.visitedAtoms) == CountFalse(m.visitedAtoms) && |queue'| < |queue|)
  {
    var atom := queue[0];
    assert atom == sys.index2[head];
    ghost var added;
    m', sys', queue', added := SystemAtom(g, inCycle, atom, m, sys, queue[1..]);
    forall j | 0 <= j < head + 1
      ensures Finished(g, m', sys'.index2[j])
    {
      assert sys'.index2[j] == sys.index2[j];
      if j < head {
        FinishedGrows(g, m, m', sys.index2[j]);
      }
    }
  }

  /** The rings of one ring system in its own atom numbering
      (finder.js:392-411): with nsssr its cyclomatic number, the Hanser
      rings of up to six atoms when there are at least nsssr of them and
      `verifySSSR` keeps nsssr of them, and the SSSR search otherwise. */
  function SystemRingsOf(sys: Graph): Result<seq<seq<nat>>>
    requires sys.WellFormed()
  {
    var nsssr := CyclomaticNumber(sys);
    var hanser := RingHanser.HanserRings(sys, 6);
    if |hanser| >= nsssr then
      var verified := Verify(hanser, nsssr, RingSSSR.Valences(sys), RingSSSR.NoRingCounts(sys), []);
      if |verified| < nsssr then RingSSSR.SSSRRings(sys) else Ok(verified)
    else RingSSSR.SSSRRings(sys)
  }

  /** The two ways `SystemRingsOf` can go: the verified Hanser rings, or
      the SSSR search. */
  lemma SystemRingsOfCases(sys: Graph, hanser: seq<seq<nat>>, verified: seq<seq<nat>>)
    requires sys.WellFormed() && hanser == RingHanser.HanserRings(sys, 6)
    requires |hanser| >= CyclomaticNumber(sys) ==>
      verified == Verify(hanser, CyclomaticNumber(sys), RingSSSR.Valences(sys), RingSSSR.NoRingCounts(sys), [])
    ensures SystemRingsOf(sys) ==
      if |hanser| >= CyclomaticNumber(sys) && |verified| >= CyclomaticNumber(sys)
      then Ok(verified) else RingSSSR.SSSRRings(sys)
  {
  }

  /** Every ring is non-empty and over atoms below n. */
  predicate RingsWithin(rings: seq<seq<nat>>, n: nat)
  {
    forall i :: 0 <= i < |rings| ==>
      rings[i] != [] && forall j :: 0 <= j < |rings[i]| ==> rings[i][j] < n
  }

  /** Either way a system gives non-empty rings over its own atoms, at
      most nsssr of them: the Hanser rings `verifySSSR` keeps are some of
      the Hanser rings, and those have two atoms or more. */
  lemma SystemRingsOfOk(sys: Graph)
    requires sys.WellFormed()
    ensures SystemRingsOf(sys).Ok? ==>
      RingsWithin(SystemRingsOf(sys).value, sys.atomCount) &&
      (CyclomaticNumber(sys) >= 1 ==> |SystemRingsOf(sys).value| <= CyclomaticNumber(sys))
  {
    var nsssr := CyclomaticNumber(sys);
    var hanser := RingHanser.HanserRings(sys, 6);
    if |hanser| >= nsssr {
      var verified := Verify(hanser, nsssr, RingSSSR.Valences(sys), RingSSSR.NoRingCounts(sys), []);
      SystemRingsOfCases(sys, hanser, verified);
      if |verified| >= nsssr {
        VerifiedHanserOk(sys, hanser, nsssr);
        MembersWithin(verified, sys.atomCount);
      } else {
        SSSRRingsWithin(sys);
      }
    } else {
      SystemRingsOfCases(sys, hanser, []);
      SSSRRingsWithin(sys);
    }
  }

  lemma SSSRRingsWithin(sys: Graph)
    requires sys.WellFormed()
    ensures RingSSSR.SSSRRings(sys).Ok? ==>
      RingsWithin(RingSSSR.SSSRRings(sys).value, sys.atomCount) &&
      (CyclomaticNumber(sys) >= 1 ==> |RingSSSR.SSSRRings(sys).value| <= CyclomaticNumber(sys))
  {
    if RingSSSR.SSSRRings(sys).Ok? {
      MembersWithin(RingSSSR.SSSRRings(sys).value, sys.atomCount);
    }
  }

  /** Rings whose every member is a non-empty ring below n, by index. */
  lemma MembersWithin(rings: seq<seq<nat>>, n: nat)
    requires forall r :: r in rings ==> r != [] && forall y :: y in r ==> y < n
    ensures RingsWithin(rings, n)
  {
    forall i | 0 <= i < |rings|
      ensures rings[i] != [] && forall j :: 0 <= j < |rings[i]| ==> rings[i][j] < n
    {
      assert rings[i] in rings;
      assert forall j :: 0 <= j < |rings[i]| ==> rings[i][j] in rings[i];
    }
  }

  lemma VerifiedHanserOk(sys: Graph, hanser: seq<seq<nat>>, nsssr: int)
    requires sys.WellFormed() && hanser == RingHanser.HanserRings(sys, 6)
    ensures var verified := Verify(hanser, nsssr, RingSSSR.Valences(sys), RingSSSR.NoRingCounts(sys), []);
      (forall r :: r in verified ==> r != [] && forall y :: y in r ==> y < sys.atomCount) &&
      (nsssr >= 1 ==> |verified| <= nsssr)
  {
    var verified := Verify(hanser, nsssr, RingSSSR.Valences(sys), RingSSSR.NoRingCounts(sys), []);
    VerifySSSRMeaning(hanser, nsssr, sys);
    SubsequenceMembers(verified, hanser);
  }

  /** `SystemRingsOf` as the finder computes it. */
  method SystemRings(sys: Graph) returns (sssr: seq<seq<nat>>)
    requires sys.WellFormed()
    ensures SystemRingsOf(sys) == Ok(sssr)
    ensures RingsWithin(sssr, sys.atomCount)
    ensures CyclomaticNumber(sys) >= 1 ==> |sssr| <= CyclomaticNumber(sys)
  {
    var nsssr := CyclomaticNumber(sys);
    var hanser, _ := RingHanser.FindRings(sys, 6);
    if |hanser| >= nsssr {
      sssr := VerifySSSR(hanser, nsssr, sys);
      SystemRingsOfCases(sys, hanser, sssr);
      if |sssr| < nsssr {
        sssr := RingSSSR.FindRings(sys);
      }
    } else {
      SystemRingsOfCases(sys, hanser, []);
      sssr := RingSSSR.FindRings(sys);
    }
    SystemRingsOfOk(sys);
  }

  lemma {:induction false} SubsequenceMembers<T>(a: seq<T>, b: seq<T>)
    requires Subsequence(a, b)
    ensures forall x :: x in a ==> x in b
  {
    if a != [] {
      if a[0] == b[0] && Subsequence(a[1..], b[1..]) {
        SubsequenceMembers(a[1..], b[1..]);
        assert forall x :: x in a ==> x == a[0] || x in a[1..];
      } else {
        SubsequenceMembers(a, b[1..]);
      }
      assert forall x :: x in b[1..] ==> x in b;
    }
  }

  /** A ring in system numbering translated back to molecule atoms
      (finder.js:415-420). */
  function Translate(ring: seq<nat>, index2: seq<nat>): (r: seq<nat>)
    requires forall j :: 0 <= j < |ring| ==> ring[j] < |index2|
    ensures |r| == |ring|
    ensures forall j :: 0 <= j < |r| ==> r[j] == index2[ring[j]]
  {
    seq(|ring|, j requires 0 <= j < |ring| => index2[ring[j]])
  }

  /** A ring the finder reports: non-empty, over ring atoms of the
      molecule, with the bonds `createRing` collects. */
  predicate CycleRing(g: Graph, inCycle: seq<bool>, r: RingRecord)
  {
    |r.atoms| > 0 &&
    (forall j :: 0 <= j < |r.atoms| ==> r.atoms[j] < g.atomCount && r.atoms[j] < |inCycle| && inCycle[r.atoms[j]]) &&
    r.bonds == RingBonds(g, r.atoms)
  }

  /** Every ring of the system is non-empty and over the system's atoms. */
  predicate FitsSystem(sys: System, sssr: seq<seq<nat>>)
  {
    RingsWithin(sssr, |sys.index2|)
  }

  /** The rings one ring system contributes (finder.js:413-422): each of
      its rings translated back to molecule atoms and created. */
  function SystemRecords(g: Graph, sys: System, sssr: seq<seq<nat>>): seq<RingRecord>
    requires FitsSystem(sys, sssr)
  {
    seq(|sssr|, i requires 0 <= i < |sssr| => SystemRecord(g, sys, sssr[i]))
  }

  /** The record created for one ring of a system. */
  function SystemRecord(g: Graph, sys: System, ring: seq<nat>): RingRecord
    requires ring != [] && forall j :: 0 <= j < |ring| ==> ring[j] < |sys.index2|
  {
    var atoms := Translate(ring, sys.index2);
    RingRecord(atoms, RingBonds(g, atoms))
  }

  /** A system's ring, translated back, lies on ring atoms of the molecule. */
  lemma SystemRecordCycle(g: Graph, inCycle: seq<bool>, sys: System, ring: seq<nat>)
    requires SystemOk(g, inCycle, sys)
    requires ring != [] && forall j :: 0 <= j < |ring| ==> ring[j] < |sys.index2|
    ensures CycleRing(g, inCycle, SystemRecord(g, sys, ring))
  {
    var atoms := Translate(ring, sys.index2);
    forall j | 0 <= j < |atoms|
      ensures atoms[j] < g.atomCount && atoms[j] < |inCycle| && inCycle[atoms[j]]
    {
      assert atoms[j] == sys.index2[ring[j]];
    }
  }

  /** The rings of the systems in order, each system's rings together. */
  function AllRecords(g: Graph, systems: seq<System>, sssrs: seq<seq<seq<nat>>>): seq<RingRecord>
    requires SystemsFit(systems, sssrs)
  {
    if systems == [] then []
    else
      var n := |systems| - 1;
      AllRecords(g, systems[..n], sssrs[..n]) + SystemRecords(g, systems[n], sssrs[n])
  }

  /** sssr is what the ring search finds in sys, a ring system of the
      molecule. */
  ghost predicate Searched(g: Graph, inCycle: seq<bool>, sys: System, sssr: seq<seq<nat>>)
  {
    SystemOk(g, inCycle, sys) && AsGraph(sys).WellFormed() &&
    SystemRingsOf(AsGraph(sys)) == Ok(sssr) && FitsSystem(sys, sssr)
  }

  /** sssrs[s] is what the ring search finds in systems[s], for each s. */
  ghost predicate SystemsSearched(g: Graph, inCycle: seq<bool>, systems: seq<System>, sssrs: seq<seq<seq<nat>>>)
  {
    |systems| == |sssrs| &&
    forall s {:trigger Searched(g, inCycle, systems[s], sssrs[s])} ::
      0 <= s < |systems| ==> Searched(g, inCycle, systems[s], sssrs[s])
  }

  /** Every system's rings fit it. */
  predicate SystemsFit(systems: seq<System>, sssrs: seq<seq<seq<nat>>>)
  {
    |systems| == |sssrs| && forall s :: 0 <= s < |systems| ==> FitsSystem(systems[s], sssrs[s])
  }

  /** The translate-and-create loop of `createRingSystems` for one ring
      system (finder.js:413-422).  Every ring of a system is a non-empty
      ring of ring atoms, so `createRing` never fails here. */
  method CreateSystemRings(g: Graph, inCycle: seq<bool>, sys: System, sssr: seq<seq<nat>>) returns (created: seq<RingRecord>)
    requires g.WellFormed() && |inCycle| == g.atomCount
    requires SystemOk(g, inCycle, sys) && FitsSystem(sys, sssr)
    ensures created == SystemRecords(g, sys, sssr)
    ensures forall i :: 0 <= i < |created| ==> CycleRing(g, inCycle, created[i])
  {
    created := [];
    for i := 0 to |sssr|
      invariant |created| == i
      invariant forall k :: 0 <= k < i ==> created[k] == SystemRecord(g, sys, sssr[k])
      invariant forall k :: 0 <= k < i ==> CycleRing(g, inCycle, created[k])
    {
      var ring := Translate(sssr[i], sys.index2);
      var r := CreateRing(ring, g);
      SystemRecordCycle(g, inCycle, sys, sssr[i]);
      AppendRecord(g, inCycle, sys, sssr, created, r.value, i);
      created := created + [r.value];
    }
  }

  lemma AppendRecord(g: Graph, inCycle: seq<bool>, sys: System, sssr: seq<seq<nat>>, created: seq<RingRecord>,
                     r: RingRecord, i: nat)
    requires FitsSystem(sys, sssr) && i < |sssr| && |created| == i
    requires forall k :: 0 <= k < i ==> created[k] == SystemRecord(g, sys, sssr[k])
    requires forall k :: 0 <= k < i ==> CycleRing(g, inCycle, created[k])
    requires r == SystemRecord(g, sys, sssr[i]) && CycleRing(g, inCycle, r)
    ensures forall k :: 0 <= k < i + 1 ==> (created + [r])[k] == SystemRecord(g, sys, sssr[k])
    ensures forall k :: 0 <= k < i + 1 ==> CycleRing(g, inCycle, (created + [r])[k])
  {
  }

  /** The rings of one ring system (finder.js:392-422): found in the
      system's own numbering, then translated back and created. */
  method SearchSystem(g: Graph, inCycle: seq<bool>, sys: System, ghost systems: seq<System>, ghost sssrs: seq<seq<seq<nat>>>)
    returns (sssr: seq<seq<nat>>, created: seq<RingRecord>)
    requires g.WellFormed() && |inCycle| == g.atomCount && SystemOk(g, inCycle, sys)
    requires SystemsSearched(g, inCycle, systems, sssrs)
    ensures SystemsSearched(g, inCycle, systems + [sys], sssrs + [sssr]) && FitsSystem(sys, sssr)
    ensures created == SystemRecords(g, sys, sssr)
    ensures forall i :: 0 <= i < |created| ==> CycleRing(g, inCycle, created[i])
  {
    sssr := SystemRings(AsGraph(sys));
    created := CreateSystemRings(g, inCycle, sys, sssr);
    SearchedStep(g, inCycle, systems, sssrs, sys, sssr);
  }

  /** `createRingSystems(molecule)` (finder.js:299-427): every unvisited
      ring atom, in index order, starts a ring system; the system's rings
      are found, translated back and created.  `systems` and `sssrs` list
      the systems and the rings found in each: the result is their rings
      in order. */
  method CreateRingSystems(g: Graph, inCycle: seq<bool>)
    returns (rings: seq<RingRecord>, ghost systems: seq<System>, ghost sssrs: seq<seq<seq<nat>>>)
    requires g.WellFormed() && |inCycle| == g.atomCount
    ensures SystemsSearched(g, inCycle, systems, sssrs) && SystemsFit(systems, sssrs)
    ensures rings == AllRecords(g, systems, sssrs)
    ensures forall i :: 0 <= i < |rings| ==> CycleRing(g, inCycle, rings[i])
  {
    var m := Marks(seq(g.atomCount, _ => false), seq(|g.bonds|, _ => false), seq(g.atomCount, _ => -1));
    rings, systems, sssrs := [], [], [];
    for k := 0 to g.atomCount
      invariant MarksSized(g, m) && Consistent(g, inCycle, m, System([], [], []))
      invariant k > 0 && inCycle[0] ==> m.visitedAtoms[0]
      invariant SystemsSearched(g, inCycle, systems, sssrs) && SystemsFit(systems, sssrs)
      invariant rings == AllRecords(g, systems, sssrs)
      invariant forall i :: 0 <= i < |rings| ==> CycleRing(g, inCycle, rings[i])
    {
      if m.visitedAtoms[k] || !inCycle[k] {
        continue;
      }
      var sys;
      sys, m := BuildSystem(g, inCycle, k, m);
      var sssr, created := SearchSystem(g, inCycle, sys, systems, sssrs);
      RecordsStep(g, systems, sssrs, sys, sssr);
      rings := rings + created;
      systems, sssrs := systems + [sys], sssrs + [sssr];
    }
  }

  const KemiaModelUndefined := "TypeError: kemia.model is undefined"

  /** `createRingSystems` as written (finder.js:299-427): the first atom
      that is in a cycle (none is visited yet) reaches
      `new kemia.model.Molecule()` at line 321.  No module of the code base
      defines `kemia.model` (path_graph.js's `goog.provide` creates only
      `kemia.ring`), so that line throws; a molecule without ring atoms
      gives no ring systems.  `CreateRingSystems` models the search the
      function evidently means to run. */
  method CreateRingSystemsAsWritten(g: Graph, inCycle: seq<bool>) returns (r: Result<seq<RingRecord>>)
    requires |inCycle| == g.atomCount
    ensures r.Err? <==> exists k :: 0 <= k < g.atomCount && inCycle[k]
    ensures r.Err? ==> r.error == KemiaModelUndefined
    ensures r.Ok? ==> r.value == []
  {
    var visitedAtoms := seq(g.atomCount, _ => false);
    for k := 0 to g.atomCount
      invariant forall j :: 0 <= j < k ==> !inCycle[j]
    {
      if visitedAtoms[k] || !inCycle[k] {
        continue;
      }
      return Err(KemiaModelUndefined);
    }
    return Ok([]);
  }

  /** One more searched system extends the list. */
  lemma SearchedStep(g: Graph, inCycle: seq<bool>, systems: seq<System>, sssrs: seq<seq<seq<nat>>>, sys: System, sssr: seq<seq<nat>>)
    requires SystemsSearched(g, inCycle, systems, sssrs)
    requires Searched(g, inCycle, sys, sssr)
    ensures SystemsSearched(g, inCycle, systems + [sys], sssrs + [sssr])
  {
    var systems', sssrs' := systems + [sys], sssrs + [sssr];
    forall s | 0 <= s < |systems'|
      ensures Searched(g, inCycle, systems'[s], sssrs'[s])
    {
      if s < |systems| {
        assert systems'[s] == systems[s] && sssrs'[s] == sssrs[s];
        assert Searched(g, inCycle, systems[s], sssrs[s]);
      }
    }
  }

  /** One more system's rings follow the rings of the systems before. */
  lemma RecordsStep(g: Graph, systems: seq<System>, sssrs: seq<seq<seq<nat>>>, sys: System, sssr: seq<seq<nat>>)
    requires SystemsFit(systems, sssrs) && FitsSystem(sys, sssr)
    ensures SystemsFit(systems + [sys], sssrs + [sssr])
    ensures AllRecords(g, systems + [sys], sssrs + [sssr]) == AllRecords(g, systems, sssrs) + SystemRecords(g, sys, sssr)
  {
    assert (systems + [sys])[..|systems|] == systems;
    assert (sssrs + [sssr])[..|sssrs|] == sssrs;
  }

  /** `findRings(molecule)` (finder.js:434-458): with nsssr, the number of
      bonds less atoms plus fragments, equal to 0 there is nothing to do;
      otherwise every atom's depth and ring flag is cleared, ring atoms are
      detected and the ring systems are searched.  `depth` and `inCycle`
      are the atoms' `depth` and `isInCycle` fields. */
  method FindRings(g: Graph, fragmentCount: int, depth: array<Option<int>>, inCycle: array<bool>)
    returns (r: Result<seq<RingRecord>>, ghost systems: seq<System>, ghost sssrs: seq<seq<seq<nat>>>)
    requires g.WellFormed() && depth.Length == g.atomCount && inCycle.Length == g.atomCount
    modifies depth, inCycle
    ensures |g.bonds| - g.atomCount + fragmentCount == 0 ==>
      r == Ok([]) && systems == [] && unchanged(depth) && unchanged(inCycle)
    ensures r.Ok? ==>
      SystemsSearched(g, inCycle[..], systems, sssrs) && SystemsFit(systems, sssrs) &&
      r.value == AllRecords(g, systems, sssrs)
    ensures r.Ok? ==> forall i :: 0 <= i < |r.value| ==> CycleRing(g, inCycle[..], r.value[i])
    ensures r.Err? ==> r.error == RingDetect.PreviousError || r.error == RingDetect.LoopsForever
  {
    systems, sssrs := [], [];
    var nsssr := |g.bonds| - g.atomCount + fragmentCount;
    if nsssr == 0 {
      return Ok([]), systems, sssrs;
    }
    for i := 0 to g.atomCount
      invariant forall j :: 0 <= j < i ==> depth[j] == None && !inCycle[j]
    {
      depth[i] := None;
      inCycle[i] := false;
    }
    var detected, _ := RingDetect.DetectRingAtoms(g, depth, inCycle);
    if detected.Err? {
      return Err(detected.error), systems, sssrs;
    }
    var rings;
    rings, systems, sssrs := CreateRingSystems(g, inCycle[..]);
    return Ok(rings), systems, sssrs;
  }
}
