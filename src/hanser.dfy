// src/ring/hanser.js: the Hanser ring finder (Hanser, Jauffret and
// Kaufmann, J. Chem. Inf. Comput. Sci. 1996, 36, 1146-1152).  Every atom in
// turn is removed from the path graph; each cycle edge the removal returns
// becomes a ring, listed by atom index.  Atoms here are already indices,
// so the `indexOfAtom` mapping at hanser.js:61-63 is the identity.

module RingHanser {
  import opened Wrappers
  import opened MolGraph
  import opened RingPathEdge
  import opened RingPathGraph
  import opened JsString
  import Seqs

  /** Sorted as JavaScript's `Array.prototype.sort` with no comparator
      sorts a list of atom-index lists: by their string forms ("3,4,5"),
      compared character by character. */
  predicate SortedAsStrings(rs: seq<seq<nat>>)
  {
    forall i, j :: 0 <= i < j < |rs| ==> !StrLt(JoinComma(rs[j]), JoinComma(rs[i]))
  }

  /** Insert x after every element whose string form is not greater. */
  function InsertAsString(s: seq<seq<nat>>, x: seq<nat>): (r: seq<seq<nat>>)
    ensures multiset(r) == multiset(s) + multiset{x}
    ensures SortedAsStrings(s) ==> SortedAsStrings(r)
  {
    if s == [] then [x]
    else if StrLt(JoinComma(x), JoinComma(s[0])) then
      InsertBeforeAll(s, x);
      [x] + s
    else
      var rest := InsertAsString(s[1..], x);
      assert s == [s[0]] + s[1..];
      InsertAfterHead(s, x, rest);
      [s[0]] + rest
  }

  lemma InsertBeforeAll(s: seq<seq<nat>>, x: seq<nat>)
    requires s != [] && StrLt(JoinComma(x), JoinComma(s[0]))
    ensures SortedAsStrings(s) ==> SortedAsStrings([x] + s)
  {
    if SortedAsStrings(s) {
      var r := [x] + s;
      forall i, j | 0 <= i < j < |r|
        ensures !StrLt(JoinComma(r[j]), JoinComma(r[i]))
      {
        if i == 0 {
          if StrLt(JoinComma(r[j]), JoinComma(x)) {
            StrLtTransitive(JoinComma(r[j]), JoinComma(x), JoinComma(s[0]));
            if j == 1 {
              StrLtIrreflexive(JoinComma(s[0]));
            }
          }
        }
      }
    }
  }

  lemma InsertAfterHead(s: seq<seq<nat>>, x: seq<nat>, rest: seq<seq<nat>>)
    requires s != [] && !StrLt(JoinComma(x), JoinComma(s[0]))
    requires multiset(rest) == multiset(s[1..]) + multiset{x}
    requires SortedAsStrings(s[1..]) ==> SortedAsStrings(rest)
    ensures SortedAsStrings(s) ==> SortedAsStrings([s[0]] + rest)
  {
    if SortedAsStrings(s) {
      assert SortedAsStrings(s[1..]);
      var r := [s[0]] + rest;
      forall i, j | 0 <= i < j < |r|
        ensures !StrLt(JoinComma(r[j]), JoinComma(r[i]))
      {
        if i == 0 {
          assert r[j] in multiset(rest);
          assert r[j] in multiset(s[1..]) || r[j] == x;
        }
      }
    }
  }

  /** `Array.prototype.sort()` on a list of rings: a stable sort by string
      form.  The result is ordered, and holds the same rings. */
  function SortAsStrings(s: seq<seq<nat>>): (r: seq<seq<nat>>)
    ensures SortedAsStrings(r)
    ensures multiset(r) == multiset(s)
  {
    if s == [] then []
    else
      var init := s[..|s| - 1];
      assert s == init + [s[|s| - 1]];
      InsertAsString(SortAsStrings(init), s[|s| - 1])
  }

  /** A cycle edge as a ring: its repeated closing atom popped. */
  function Popped(e: PathEdge): seq<nat>
  {
    if |e.atoms| > 0 then e.atoms[..|e.atoms| - 1] else []
  }

  function PoppedAll(es: seq<PathEdge>): (r: seq<seq<nat>>)
    ensures |r| == |es|
    ensures forall k :: 0 <= k < |es| ==> r[k] == Popped(es[k])
  {
    if es == [] then [] else PoppedAll(es[..|es| - 1]) + [Popped(es[|es| - 1])]
  }

  /** The loop at hanser.js:54-65: each returned edge loses its closing
      atom and is listed as a ring. */
  method PopEach(edges: seq<PathEdge>) returns (rings: seq<seq<nat>>)
    ensures rings == PoppedAll(edges)
  {
    rings := [];
    var j := 0;
    while j < |edges|
      invariant 0 <= j <= |edges|
      invariant rings == PoppedAll(edges[..j])
    {
      assert edges[..j + 1][..j] == edges[..j];
      var atomRing := edges[j].atoms;
      if |atomRing| > 0 {
        atomRing := atomRing[..|atomRing| - 1];
      }
      rings := rings + [atomRing];
      j := j + 1;
    }
    assert edges[..j] == edges;
  }

  lemma {:induction false} PoppedAllAppend(a: seq<PathEdge>, b: seq<PathEdge>)
    ensures PoppedAll(a + b) == PoppedAll(a) + PoppedAll(b)
  {
    if b != [] {
      var init := b[..|b| - 1];
      assert (a + b)[..|a + b| - 1] == a + init;
      PoppedAllAppend(a, init);
    }
  }

  /** The cycle edges `remove` returns for atoms i, i + 1, ..., n - 1 in
      turn, starting from the edge list es whose next identity is `next`,
      in the order they are returned. */
  function RemovedFrom(es: seq<PathEdge>, next: nat, i: nat, n: nat, maxLen: int): seq<PathEdge>
    decreases n - i
  {
    if i >= n then []
    else
      CyclesOf(Incident(es, i)) +
      RemovedFrom(EdgesAfterRemove(es, i, maxLen, next), NextIdAfterRemove(es, i, next), i + 1, n, maxLen)
  }

  const PathGraphNotConstructor := "TypeError: RingPathGraph is not a constructor"

  /** `findRings` as written (hanser.js:43-70): path_graph.js names its
      path graph `kemia.ring.PathGraph` and never assigns `module.exports`,
      so the `require` at line 26 gives an empty object and
      `new RingPathGraph(molecule)` at line 49 throws before any atom is
      removed, whatever the molecule.  `FindRings` models the loop the
      function evidently means to run. */
  method FindRingsAsWritten(g: Graph, maxLen: int) returns (r: Result<seq<seq<nat>>>)
    ensures r.Err? && r.error == PathGraphNotConstructor
  {
    return Err(PathGraphNotConstructor);
  }

  /** The cycle edges `findRings` collects: every atom removed in index
      order from the path graph the constructor builds. */
  function HanserRemoved(g: Graph, maxLen: int): seq<PathEdge>
  {
    RemovedFrom(InitialEdges(g), |g.bonds|, 0, g.atomCount, maxLen)
  }

  /** `findRings(molecule, maxLen)` (hanser.js:43-70) as a function: the
      collected cycles with their closing atoms popped, sorted as strings.
      Since longer paths are never kept, every ring has between 2 and
      maxLen atoms, all of them atoms of the molecule. */
  function HanserRings(g: Graph, maxLen: int): (rings: seq<seq<nat>>)
    ensures g.WellFormed() ==>
      forall r :: r in rings ==> 2 <= |r| <= maxLen && forall y :: y in r ==> y < g.atomCount
  {
    var removed := HanserRemoved(g, maxLen);
    var rings := SortAsStrings(PoppedAll(removed));
    if g.WellFormed() then
      HanserRemovedOk(g, maxLen);
      PoppedRingsOk(removed, rings, maxLen, g.atomCount);
      rings
    else rings
  }

  /** Every edge collected from a well-formed edge list over atoms below n
      is a cycle of at most maxLen + 1 atoms, all below n. */
  lemma {:induction false} RemovedFromOk(es: seq<PathEdge>, next: nat, i: nat, n: nat, maxLen: int)
    requires ValidEdges(es, next) && AtomsBelow(es, n)
    requires forall e :: e in es && IsCycle(e) ==> |e.atoms| <= maxLen + 1
    ensures ShortCycles(RemovedFrom(es, next, i, n, maxLen), n, maxLen)
    decreases n - i, 1
  {
    if i < n {
      RemovedFromOkStep(es, next, i, n, maxLen);
    } else {
      RemovedFromEnd(es, next, i, n, maxLen);
    }
  }

  /** `RemovedFromOk` for an atom still to be removed: the cycles through
      it are short, and so, by induction, are those collected after it. */
  lemma {:induction false} RemovedFromOkStep(es: seq<PathEdge>, next: nat, i: nat, n: nat, maxLen: int)
    requires i < n
    requires ValidEdges(es, next) && AtomsBelow(es, n)
    requires forall e :: e in es && IsCycle(e) ==> |e.atoms| <= maxLen + 1
    ensures ShortCycles(RemovedFrom(es, next, i, n, maxLen), n, maxLen)
    decreases n - i, 0
  {
    RemoveStepOk(es, next, i, n, maxLen);
    RemovedFromOk(EdgesAfterRemove(es, i, maxLen, next), NextIdAfterRemove(es, i, next), i + 1, n, maxLen);
    ShortCyclesStep(es, next, i, n, maxLen);
  }

  /** The cycles through atom i and those collected after it are short,
      so all those collected from atom i on are. */
  lemma ShortCyclesStep(es: seq<PathEdge>, next: nat, i: nat, n: nat, maxLen: int)
    requires i < n
    requires ShortCycles(CyclesOf(Incident(es, i)), n, maxLen)
    requires ShortCycles(RemovedFrom(EdgesAfterRemove(es, i, maxLen, next), NextIdAfterRemove(es, i, next), i + 1, n, maxLen), n, maxLen)
    ensures ShortCycles(RemovedFrom(es, next, i, n, maxLen), n, maxLen)
  {
    RemovedFromStep(es, next, i, n, maxLen);
    ShortCyclesConcat(CyclesOf(Incident(es, i)),
      RemovedFrom(EdgesAfterRemove(es, i, maxLen, next), NextIdAfterRemove(es, i, next), i + 1, n, maxLen), n, maxLen);
  }

  /** One call of `remove` on a well-formed edge list over atoms below n
      whose cycles are short: the list it leaves is the same, and the
      cycles it returns are short. */
  lemma RemoveStepOk(es: seq<PathEdge>, next: nat, i: nat, n: nat, maxLen: int)
    requires ValidEdges(es, next) && AtomsBelow(es, n)
    requires forall e :: e in es && IsCycle(e) ==> |e.atoms| <= maxLen + 1
    ensures var after := EdgesAfterRemove(es, i, maxLen, next);
      ValidEdges(after, NextIdAfterRemove(es, i, next)) && AtomsBelow(after, n) &&
      forall e :: e in after && IsCycle(e) ==> |e.atoms| <= maxLen + 1
    ensures ShortCycles(CyclesOf(Incident(es, i)), n, maxLen)
  {
    RemoveKeepsValid(es, i, maxLen, next);
    RemoveRound(es, i, maxLen, next, n, []);
    assert [] + CyclesOf(Incident(es, i)) == CyclesOf(Incident(es, i));
  }

  lemma RemovedFromEnd(es: seq<PathEdge>, next: nat, i: nat, n: nat, maxLen: int)
    requires i >= n
    ensures RemovedFrom(es, next, i, n, maxLen) == []
  {
  }

  /** Collecting the cycles through atom i moves them from the edges
      still to be collected to those collected, and the total stays. */
  lemma CollectStep(removed: seq<PathEdge>, es: seq<PathEdge>, next: nat, i: nat, n: nat, maxLen: int, total: seq<PathEdge>)
    requires i < n
    requires removed + RemovedFrom(es, next, i, n, maxLen) == total
    ensures (removed + CyclesOf(Incident(es, i))) +
      RemovedFrom(EdgesAfterRemove(es, i, maxLen, next), NextIdAfterRemove(es, i, next), i + 1, n, maxLen) == total
  {
    RemovedFromStep(es, next, i, n, maxLen);
    Seqs.AppendAssoc(removed, CyclesOf(Incident(es, i)),
      RemovedFrom(EdgesAfterRemove(es, i, maxLen, next), NextIdAfterRemove(es, i, next), i + 1, n, maxLen));
  }

  /** One step of `RemovedFrom`: the cycles through atom i, then the rest. */
  lemma RemovedFromStep(es: seq<PathEdge>, next: nat, i: nat, n: nat, maxLen: int)
    requires i < n
    ensures RemovedFrom(es, next, i, n, maxLen) ==
      CyclesOf(Incident(es, i)) +
      RemovedFrom(EdgesAfterRemove(es, i, maxLen, next), NextIdAfterRemove(es, i, next), i + 1, n, maxLen)
  {
  }

  /** Short cycles over atoms below n, the property of collected edges. */
  predicate ShortCycles(es: seq<PathEdge>, n: nat, maxLen: int)
  {
    AtomsBelow(es, n) && forall e :: e in es ==> IsCycle(e) && |e.atoms| <= maxLen + 1
  }

  lemma ShortCyclesConcat(a: seq<PathEdge>, b: seq<PathEdge>, n: nat, maxLen: int)
    requires ShortCycles(a, n, maxLen) && ShortCycles(b, n, maxLen)
    ensures ShortCycles(a + b, n, maxLen)
  {
    assert forall e :: e in a + b ==> e in a || e in b;
  }

  /** The edges `findRings` collects are short cycles over the molecule's
      atoms. */
  lemma HanserRemovedOk(g: Graph, maxLen: int)
    requires g.WellFormed()
    ensures ShortCycles(HanserRemoved(g, maxLen), g.atomCount, maxLen)
  {
    var es := InitialEdges(g);
    InitialEdgesValid(g);
    assert AtomsBelow(es, g.atomCount) by {
      forall e | e in es
        ensures forall y :: y in e.atoms ==> y < g.atomCount
      {
        var b :| 0 <= b < |es| && es[b] == e;
      }
    }
    assert forall e :: e in es ==> !IsCycle(e) by {
      forall e | e in es
        ensures !IsCycle(e)
      {
        var b :| 0 <= b < |es| && es[b] == e;
      }
    }
    RemovedFromOk(es, |g.bonds|, 0, g.atomCount, maxLen);
  }

  /** `findRings(molecule, maxLen)` (hanser.js:43-70): `remove` is called
      once per atom, in index order; each cycle edge it returns is one
      ring, its closing atom popped.  `removed` lists those cycle edges in
      the order they were returned.  Since longer paths are never kept,
      every ring has between 2 and maxLen atoms, all of them atoms of the
      molecule.  The final order is the string order of `sort()`, not
      ring size as the comment at line 67 says. */
  method FindRings(g: Graph, maxLen: int) returns (rings: seq<seq<nat>>, ghost removed: seq<PathEdge>)
    requires g.WellFormed()
    ensures removed == HanserRemoved(g, maxLen) && rings == HanserRings(g, maxLen)
    ensures forall e :: e in removed ==> IsCycle(e) && |e.atoms| <= maxLen + 1
    ensures multiset(rings) == multiset(PoppedAll(removed))
    ensures SortedAsStrings(rings)
    ensures forall r :: r in rings ==> 2 <= |r| <= maxLen
    ensures forall r :: r in rings ==> forall y :: y in r ==> y < g.atomCount
  {
    var atomOnlyRings;
    atomOnlyRings, removed := CollectRings(g, maxLen);
    rings := SortAsStrings(atomOnlyRings);
    HanserRemovedOk(g, maxLen);
  }

  /** `findRings`'s fresh path graph (hanser.js:49) and its loop: every
      atom removed in index order, the cycle edges returned collected in
      `removed` and, closing atom popped, in `atomOnlyRings`. */
  method CollectRings(g: Graph, maxLen: int) returns (atomOnlyRings: seq<seq<nat>>, ghost removed: seq<PathEdge>)
    requires g.WellFormed()
    ensures removed == HanserRemoved(g, maxLen)
    ensures atomOnlyRings == PoppedAll(removed)
  {
    var graph := new PathGraph(g);
    atomOnlyRings, removed := RemoveAtoms(graph, g.atomCount, maxLen);
  }

  /** The loop of `findRings` (hanser.js:51-64) on a path graph: atoms 0
      to n - 1 removed in turn, the cycle edges each removal returns
      collected in `removed` and, closing atom popped, in `atomOnlyRings`. */
  method RemoveAtoms(graph: PathGraph, n: nat, maxLen: int) returns (atomOnlyRings: seq<seq<nat>>, ghost removed: seq<PathEdge>)
    requires graph.Valid()
    modifies graph
    ensures graph.Valid()
    ensures removed == RemovedFrom(old(graph.edges), old(graph.nextId), 0, n, maxLen)
    ensures atomOnlyRings == PoppedAll(removed)
  {
    atomOnlyRings := [];
    removed := [];
    ghost var total := RemovedFrom(graph.edges, graph.nextId, 0, n, maxLen);
    for i := 0 to n
      invariant graph.Valid()
      invariant atomOnlyRings == PoppedAll(removed)
      invariant removed + RemovedFrom(graph.edges, graph.nextId, i, n, maxLen) == total
    {
      atomOnlyRings, removed := CollectAt(graph, i, n, maxLen, atomOnlyRings, removed, total);
    }
    RemovedFromEnd(graph.edges, graph.nextId, n, n, maxLen);
    assert removed + [] == removed;
  }

  /** One round of the loop of `findRings` (hanser.js:52-63): atom i is
      removed, and its cycle edges join `removed` and, popped, the rings. */
  method CollectAt(graph: PathGraph, i: nat, n: nat, maxLen: int, atomOnlyRings: seq<seq<nat>>,
                   ghost removed: seq<PathEdge>, ghost total: seq<PathEdge>)
    returns (atomOnlyRings': seq<seq<nat>>, ghost removed': seq<PathEdge>)
    requires graph.Valid() && i < n
    requires atomOnlyRings == PoppedAll(removed)
    requires removed + RemovedFrom(graph.edges, graph.nextId, i, n, maxLen) == total
    modifies graph
    ensures graph.Valid()
    ensures atomOnlyRings' == PoppedAll(removed')
    ensures removed' + RemovedFrom(graph.edges, graph.nextId, i + 1, n, maxLen) == total
  {
    ghost var before, next := graph.edges, graph.nextId;
    var edges := graph.Remove(i, maxLen);
    CollectStep(removed, before, next, i, n, maxLen, total);
    var popped := PopEach(edges);
    PoppedAllAppend(removed, edges);
    atomOnlyRings' := atomOnlyRings + popped;
    removed' := removed + edges;
  }

  /** One call of `remove`: the edges left keep their atoms below n and
      their cycles short, and the cycle edges it returns join `removed`
      with the same two properties. */
  lemma RemoveRound(before: seq<PathEdge>, atom: nat, maxLen: int, next: nat, n: nat, removed: seq<PathEdge>)
    requires ValidEdges(before, next) && AtomsBelow(before, n)
    requires forall e :: e in before && IsCycle(e) ==> |e.atoms| <= maxLen + 1
    requires forall e :: e in removed ==> IsCycle(e) && |e.atoms| <= maxLen + 1
    requires AtomsBelow(removed, n)
    ensures var after := EdgesAfterRemove(before, atom, maxLen, next);
      AtomsBelow(after, n) && forall e :: e in after && IsCycle(e) ==> |e.atoms| <= maxLen + 1
    ensures var all := removed + CyclesOf(Incident(before, atom));
      AtomsBelow(all, n) && forall e :: e in all ==> IsCycle(e) && |e.atoms| <= maxLen + 1
  {
    RemoveKeepsValid(before, atom, maxLen, next);
    RemoveKeepsBelow(before, atom, maxLen, next, n);
    var edges := CyclesOf(Incident(before, atom));
    assert forall e :: e in edges ==> e in before && IsCycle(e);
    assert forall e :: e in removed + edges <==> e in removed || e in edges;
  }

  /** The rings popped from short cycle edges over atoms below n have
      between 2 and maxLen atoms, all below n, in whatever order they are
      listed. */
  lemma PoppedRingsOk(removed: seq<PathEdge>, rings: seq<seq<nat>>, maxLen: int, n: nat)
    requires forall e :: e in removed ==> IsCycle(e) && |e.atoms| <= maxLen + 1
    requires AtomsBelow(removed, n)
    requires multiset(rings) == multiset(PoppedAll(removed))
    ensures forall r :: r in rings ==> 2 <= |r| <= maxLen
    ensures forall r :: r in rings ==> forall y :: y in r ==> y < n
  {
    var popped := PoppedAll(removed);
    forall r | r in rings
      ensures 2 <= |r| <= maxLen
      ensures forall y :: y in r ==> y < n
    {
      assert r in multiset(popped);
      var k :| 0 <= k < |popped| && popped[k] == r;
      var e := removed[k];
      assert e in removed;
      assert r == e.atoms[..|e.atoms| - 1];
      forall y | y in r
        ensures y < n
      {
        assert y in e.atoms;
      }
    }
  }

  /** The string order puts a six-membered ring on atoms 10..15 before a
      three-membered ring on atoms 2..4. */
  lemma StringOrderIsNotSizeOrder()
    ensures StrLt(JoinComma([10, 11, 12, 13, 14, 15]), JoinComma([2, 3, 4]))
  {
    assert DecimalString(10) == DecimalString(1) + [DigitChar(0)];
    assert JoinComma([2, 3, 4]) == DecimalString(2) + "," + JoinComma([3, 4]);
    assert JoinComma([10, 11, 12, 13, 14, 15])[0] == '1';
    assert JoinComma([2, 3, 4])[0] == '2';
  }

  /** The bonds `createRing` collects: for each consecutive pair of the
      atom list, the bond `findBond` finds, skipping pairs with none. */
  function PairBonds(g: Graph, atoms: seq<nat>): (r: seq<nat>)
    ensures |atoms| > 0 ==> |r| <= |atoms| - 1
    ensures forall k :: 0 <= k < |r| ==> r[k] < |g.bonds|
  {
    if |atoms| < 2 then []
    else
      var init := atoms[..|atoms| - 1];
      var b := FindBond(g, atoms[|atoms| - 2], atoms[|atoms| - 1]);
      PairBonds(g, init) + (if b.Some? then [b.value] else [])
  }

  /** `createRing` as written (hanser.js:81-95): after collecting the
      bonds it calls `utilsArray.removeAt`, which src/utils/array.js does
      not define, so every call throws a TypeError. */
  method CreateRingAsWritten(atoms: seq<nat>, g: Graph) returns (r: Result<(seq<nat>, seq<nat>)>)
    ensures r == Err("TypeError: utilsArray.removeAt is not a function")
  {
    var bonds := CollectBonds(atoms, g);
    return Err("TypeError: utilsArray.removeAt is not a function");
  }

  /** `createRing` with the evident intent: the bonds of consecutive
      pairs, then the repeated closing atom dropped. */
  method CreateRing(atoms: seq<nat>, g: Graph) returns (ringAtoms: seq<nat>, bonds: seq<nat>)
    ensures ringAtoms == if atoms == [] then [] else atoms[..|atoms| - 1]
    ensures bonds == PairBonds(g, atoms)
  {
    bonds := CollectBonds(atoms, g);
    ringAtoms := if atoms == [] then [] else atoms[..|atoms| - 1];
  }

  /** The loop at hanser.js:84-89. */
  method CollectBonds(atoms: seq<nat>, g: Graph) returns (bonds: seq<nat>)
    ensures bonds == PairBonds(g, atoms)
  {
    bonds := [];
    var i := 0;
    var il := |atoms| - 1;
    while i < il
      invariant 0 <= i && (il >= 0 ==> i <= il)
      invariant il >= 0 ==> bonds == PairBonds(g, atoms[..i + 1])
      invariant il < 0 ==> bonds == []
    {
      assert atoms[..i + 2][..i + 1] == atoms[..i + 1];
      var bond := FindBond(g, atoms[i], atoms[i + 1]);
      if bond.Some? {
        bonds := bonds + [bond.value];
      }
      i := i + 1;
    }
    if il >= 0 {
      assert atoms[..i + 1] == atoms;
    }
  }

  /** For a closed walk [a0, ..., an-1, a0] along bonds (the form Hanser
      paths take), the corrected `createRing` yields n atoms and one bond
      per ring edge. */
  lemma {:induction false} PairBondsOfBondedWalk(g: Graph, atoms: seq<nat>)
    requires forall k :: 0 <= k < |atoms| - 1 ==> FindBond(g, atoms[k], atoms[k + 1]).Some?
    ensures |atoms| > 0 ==> |PairBonds(g, atoms)| == |atoms| - 1
  {
    if |atoms| >= 2 {
      PairBondsOfBondedWalk(g, atoms[..|atoms| - 1]);
    }
  }
}
