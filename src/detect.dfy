// detectRingAtoms of src/ring/finder.js: a breadth-first search from atom
// 0 that records each atom's depth in the spanning tree and, at every ring
// closure (a bond not yet walked whose far atom is already reached), walks
// back up the tree from both ends and marks the atoms it passes as lying
// in a cycle.

module RingDetect {
  import opened Wrappers
  import opened Seqs
  import opened MolGraph

  // `depth` and `inCycle` stand for the `depth` and `isInCycle` fields of
  // the molecule's atoms (None and false for undefined); `visitedAtoms` and `visitedBonds` are local
  // lists.  `visitedBonds` is created with one entry per atom but indexed
  // by bond: JavaScript reads a missing entry as undefined and grows the
  // list on a write, so it behaves as one entry per bond, which is how it
  // is modelled.

  const PreviousError := "TypeError: Cannot set properties of undefined (setting 'isInCycle')"
  const LoopsForever := "the backtracking loop at finder.js:251-274 never ends"

  /** An atom at a positive depth has a neighbour one level up. */
  ghost predicate HasParent(g: Graph, depth: seq<Option<int>>, a: nat)
    requires g.WellFormed() && |depth| == g.atomCount && a < g.atomCount
  {
    depth[a].Some? && depth[a].value > 0 ==>
      exists x :: x < g.atomCount && x in Neighbors(g, a) && depth[x] == Some(depth[a].value - 1)
  }

  /** Every atom at a positive depth has a neighbour one level up. */
  ghost predicate HasParents(g: Graph, depth: seq<Option<int>>)
    requires g.WellFormed() && |depth| == g.atomCount
  {
    forall a :: 0 <= a < g.atomCount ==> HasParent(g, depth, a)
  }

  /** Only atom 0, the start atom, has depth 0. */
  ghost predicate RootOnly(depth: seq<Option<int>>)
  {
    forall a :: 0 <= a < |depth| && depth[a] == Some(0) ==> a == 0
  }

  /** No atom has a negative depth. */
  predicate DepthsNonNegative(depth: seq<Option<int>>)
  {
    forall a :: 0 <= a < |depth| && depth[a].Some? ==> depth[a].value >= 0
  }

  /** The first of the atoms whose depth is d, or dflt when there is none:
      the searches at finder.js:255-261 and 262-268, which leave
      `previous[i]` as it is when no neighbour is found. */
  function FirstAtDepth(nbrs: seq<nat>, depth: seq<Option<int>>, d: int, dflt: nat): (r: nat)
    requires forall k :: 0 <= k < |nbrs| ==> nbrs[k] < |depth|
    ensures r == dflt || (r in nbrs && depth[r] == Some(d))
  {
    if nbrs == [] then dflt
    else if depth[nbrs[0]] == Some(d) then nbrs[0]
    else FirstAtDepth(nbrs[1..], depth, d, dflt)
  }

  /** The search finds an atom at depth d whenever the list holds one. */
  lemma {:induction false} FirstAtDepthFinds(nbrs: seq<nat>, depth: seq<Option<int>>, d: int, dflt: nat, x: nat)
    requires forall k :: 0 <= k < |nbrs| ==> nbrs[k] < |depth|
    requires x in nbrs && x < |depth| && depth[x] == Some(d)
    ensures var r := FirstAtDepth(nbrs, depth, d, dflt); r in nbrs && depth[r] == Some(d)
  {
    if depth[nbrs[0]] != Some(d) {
      assert x in nbrs[1..];
      FirstAtDepthFinds(nbrs[1..], depth, d, dflt, x);
    }
  }

  /** The atoms of a list whose depth is v, in list order: the loop at
      finder.js:241-246. */
  function AtDepth(nbrs: seq<nat>, depth: seq<Option<int>>, v: int): (r: seq<nat>)
    requires forall k :: 0 <= k < |nbrs| ==> nbrs[k] < |depth|
  {
    if nbrs == [] then []
    else (if depth[nbrs[0]] == Some(v) then [nbrs[0]] else []) + AtDepth(nbrs[1..], depth, v)
  }

  /** What the filter keeps: atoms of the list, each at depth v. */
  lemma {:induction false} AtDepthMembers(nbrs: seq<nat>, depth: seq<Option<int>>, v: int)
    requires forall k :: 0 <= k < |nbrs| ==> nbrs[k] < |depth|
    ensures forall k :: 0 <= k < |AtDepth(nbrs, depth, v)| ==>
      AtDepth(nbrs, depth, v)[k] in nbrs && depth[AtDepth(nbrs, depth, v)[k]] == Some(v)
  {
    if nbrs != [] {
      var head := if depth[nbrs[0]] == Some(v) then [nbrs[0]] else [];
      var tail := AtDepth(nbrs[1..], depth, v);
      AtDepthMembers(nbrs[1..], depth, v);
      var r := head + tail;
      forall k | 0 <= k < |r|
        ensures r[k] in nbrs && depth[r[k]] == Some(v)
      {
        if k >= |head| {
          assert r[k] == tail[k - |head|];
          assert r[k] in nbrs[1..];
        }
      }
    }
  }

  /** Where one cursor of the backtracking loop moves when the level
      drops to d: its first neighbour at depth d, or nowhere. */
  function UpStep(g: Graph, depth: seq<Option<int>>, a: nat, d: int): nat
    requires g.WellFormed() && |depth| == g.atomCount
  {
    FirstAtDepth(Neighbors(g, a), depth, d, a)
  }

  /** One cursor of the backtracking loop moving up a level. */
  method StepDown(g: Graph, depth: seq<Option<int>>, a: nat, d: int) returns (next: nat)
    requires g.WellFormed() && |depth| == g.atomCount && a < g.atomCount
    ensures next == UpStep(g, depth, a, d)
    ensures next < g.atomCount && (next == a || depth[next] == Some(d))
  {
    var nbrs := Neighbors(g, a);
    next := a;
    var j := 0;
    while j < |nbrs|
      invariant j <= |nbrs|
      invariant FirstAtDepth(nbrs, depth, d, a) == FirstAtDepth(nbrs[j..], depth, d, a)
    {
      assert nbrs[j..][1..] == nbrs[j + 1..];
      if depth[nbrs[j]] == Some(d) {
        next := nbrs[j];
        break;
      }
      j := j + 1;
    }
  }

  /** Both cursors moving up to level d (finder.js:255-268). */
  method StepBoth(g: Graph, depth: seq<Option<int>>, a0: nat, a1: nat, d: int) returns (b0: nat, b1: nat)
    requires g.WellFormed() && |depth| == g.atomCount && a0 < g.atomCount && a1 < g.atomCount
    requires depth[a0].Some? && depth[a1].Some?
    ensures b0 < g.atomCount && b1 < g.atomCount && depth[b0].Some? && depth[b1].Some?
    ensures (HasParents(g, depth) && RootOnly(depth) && DepthsNonNegative(depth) &&
             depth[a0] == Some(d + 1) && depth[a1] == Some(d + 1)) ==>
      if d >= 0 then depth[b0] == Some(d) && depth[b1] == Some(d) else b0 == 0 && b1 == 0
  {
    b0 := StepDown(g, depth, a0, d);
    b1 := StepDown(g, depth, a1, d);
    if HasParents(g, depth) && RootOnly(depth) && DepthsNonNegative(depth) &&
       depth[a0] == Some(d + 1) && depth[a1] == Some(d + 1) {
      Climb(g, depth, a0, d + 1);
      Climb(g, depth, a1, d + 1);
    }
  }

  /** The backtracking loop (finder.js:251-274) from the cursors p0 and
      p1 at depth d: it marks both cursors, moves each to its first
      neighbour one level up, and stops when they meet.  Once the level is
      below 0 no atom qualifies, the cursors stay put, and if they differ
      the JavaScript loop never ends: that outcome is `false`.  When every
      atom at a positive depth has a neighbour one level up, only the
      start atom has depth 0, and both cursors are at depth d, the
      cursors climb in step and meet at the latest at the start atom. */
  method Backtrack(g: Graph, depth: seq<Option<int>>, inCycle: array<bool>, p0: nat, p1: nat, d: int) returns (ok: bool)
    requires g.WellFormed() && |depth| == g.atomCount && inCycle.Length == g.atomCount
    requires p0 < g.atomCount && p1 < g.atomCount && d >= 0
    requires depth[p0].Some? && depth[p1].Some?
    requires DepthsNonNegative(depth)
    modifies inCycle
    ensures inCycle[p0] && inCycle[p1]
    ensures forall a :: 0 <= a < inCycle.Length && old(inCycle[a]) ==> inCycle[a]
    ensures forall a :: 0 <= a < inCycle.Length && inCycle[a] && !old(inCycle[a]) ==> depth[a].Some?
    ensures HasParents(g, depth) && RootOnly(depth) && depth[p0] == Some(d) && depth[p1] == Some(d) ==> ok
  {
    ghost var climbs := HasParents(g, depth) && RootOnly(depth) && depth[p0] == Some(d) && depth[p1] == Some(d);
    var a0: nat, a1: nat, level: int := p0, p1, d;
    while true
      invariant 0 <= level <= d
      invariant level == d ==> a0 == p0 && a1 == p1
      invariant a0 < |depth| && a1 < |depth| && a0 < inCycle.Length && a1 < inCycle.Length
      invariant depth[a0].Some? && depth[a1].Some?
      invariant level < d ==> inCycle[p0] && inCycle[p1]
      invariant forall a :: 0 <= a < inCycle.Length && old(inCycle[a]) ==> inCycle[a]
      invariant forall a :: 0 <= a < inCycle.Length && inCycle[a] && !old(inCycle[a]) ==> depth[a].Some?
      invariant climbs ==> depth[a0] == Some(level) && depth[a1] == Some(level)
      decreases level
    {
      inCycle[a0] := true;
      inCycle[a1] := true;
      level := level - 1;
      a0, a1 := StepBoth(g, depth, a0, a1, level);
      if a0 == a1 {
        inCycle[a0] := true;
        return true;
      }
      if level < 0 {
        return false;
      }
    }
  }

  /** One step of the backtracking loop from an atom at depth v lands on
      an atom at depth v - 1, or stays on the start atom when v is 0. */
  lemma Climb(g: Graph, depth: seq<Option<int>>, a: nat, v: int)
    requires g.WellFormed() && |depth| == g.atomCount && a < g.atomCount
    requires HasParent(g, depth, a) && RootOnly(depth) && DepthsNonNegative(depth)
    requires depth[a] == Some(v)
    ensures var next := UpStep(g, depth, a, v - 1);
      if v > 0 then depth[next] == Some(v - 1) else a == 0 && next == 0
  {
    var nbrs := Neighbors(g, a);
    var next := FirstAtDepth(nbrs, depth, v - 1, a);
    if v > 0 {
      var x :| x < g.atomCount && x in nbrs && depth[x] == Some(v - 1);
      FirstAtDepthFinds(nbrs, depth, v - 1, a, x);
    }
  }

  /** The neighbours of nb one level above it (finder.js:240-246). */
  method LowerNeighbors(g: Graph, depth: seq<Option<int>>, nb: nat) returns (previous: seq<nat>)
    requires g.WellFormed() && |depth| == g.atomCount && nb < g.atomCount && depth[nb].Some?
    ensures previous == AtDepth(Neighbors(g, nb), depth, depth[nb].value - 1)
  {
    previous := FilterAtDepth(Neighbors(g, nb), depth, depth[nb].value - 1);
  }

  /** The loop at finder.js:241-246 over a list of atoms. */
  method FilterAtDepth(nbrs: seq<nat>, depth: seq<Option<int>>, v: int) returns (previous: seq<nat>)
    requires forall k :: 0 <= k < |nbrs| ==> nbrs[k] < |depth|
    ensures previous == AtDepth(nbrs, depth, v)
  {
    previous := [];
    for j := 0 to |nbrs|
      invariant previous + AtDepth(nbrs[j..], depth, v) == AtDepth(nbrs, depth, v)
    {
      assert nbrs[j..][1..] == nbrs[j + 1..];
      if depth[nbrs[j]] == Some(v) {
        previous := previous + [nbrs[j]];
      }
    }
  }

  /** A ring closure found from `atom` to the already reached `nb`
      (finder.js:231-274).  Equal depths (an odd ring) start the
      backtracking from the two closure atoms.  Otherwise (an even ring)
      `nb` is marked and the backtracking starts from the first two
      neighbours of `nb` one level above it: when `nb` has three or more
      such neighbours the others are not traced.  Fewer than two throws a
      TypeError. */
  method CloseRing(g: Graph, depth: seq<Option<int>>, inCycle: array<bool>, atom: nat, nb: nat) returns (r: Result<()>)
    requires g.WellFormed() && |depth| == g.atomCount && inCycle.Length == g.atomCount
    requires atom < g.atomCount && nb < g.atomCount
    requires depth[atom].Some? && depth[nb].Some?
    requires DepthsNonNegative(depth)
    modifies inCycle
    ensures inCycle[nb]
    ensures forall a :: 0 <= a < inCycle.Length && old(inCycle[a]) ==> inCycle[a]
    ensures forall a :: 0 <= a < inCycle.Length && inCycle[a] && !old(inCycle[a]) ==> depth[a].Some?
    ensures r.Err? ==> r.error == PreviousError || r.error == LoopsForever
    ensures HasParents(g, depth) && RootOnly(depth) && depth[atom] == depth[nb] ==> r.Ok?
  {
    var previous: seq<nat>;
    if depth[atom] == depth[nb] {
      previous := [atom, nb];
    } else {
      var start := EvenRingStart(g, depth, inCycle, nb);
      if start.Err? {
        return Err(start.error);
      }
      previous := start.value;
    }
    var ok := Backtrack(g, depth, inCycle, previous[0], previous[1], depth[atom].value);
    if !ok {
      return Err(LoopsForever);
    }
    return Ok(());
  }

  /** The start of the backtracking for an even ring (finder.js:237-247):
      nb is marked and the cursors start at its neighbours one level
      above it.  With fewer than two of them the first statement of the
      backtracking loop throws: after marking the only one, if any. */
  method EvenRingStart(g: Graph, depth: seq<Option<int>>, inCycle: array<bool>, nb: nat) returns (r: Result<seq<nat>>)
    requires g.WellFormed() && |depth| == g.atomCount && inCycle.Length == g.atomCount
    requires nb < g.atomCount && depth[nb].Some?
    modifies inCycle
    ensures inCycle[nb]
    ensures forall a :: 0 <= a < inCycle.Length && old(inCycle[a]) ==> inCycle[a]
    ensures forall a :: 0 <= a < inCycle.Length && inCycle[a] && !old(inCycle[a]) ==> depth[a].Some?
    ensures r.Err? ==> r.error == PreviousError
    ensures r.Ok? ==> |r.value| >= 2 && forall k :: 0 <= k < |r.value| ==> r.value[k] < g.atomCount && depth[r.value[k]].Some?
  {
    inCycle[nb] := true;
    var previous := LowerNeighbors(g, depth, nb);
    AtDepthMembers(Neighbors(g, nb), depth, depth[nb].value - 1);
    if |previous| < 2 {
      if |previous| == 1 {
        inCycle[previous[0]] := true;
      }
      return Err(PreviousError);
    }
    return Ok(previous);
  }

  // The breadth-first search (finder.js:194-279).

  /** The search's own lists: `visitedAtoms`, `visitedBonds` and `queue`. */
  datatype Search = Search(visitedAtoms: seq<bool>, visitedBonds: seq<bool>, queue: seq<nat>)

  /** What the search has done so far, kept for the proofs: the atoms in
      the order they were reached, the position in that order of each
      one's tree parent, the bonds walked, in order, and the ring closures
      met, as (atom, far atom) pairs. */
  datatype Trace = Trace(order: seq<nat>, parents: seq<nat>, walked: seq<nat>, closures: seq<(nat, nat)>)

  /** Atom k of the order hangs below its parent: a neighbour reached
      before it, one level up. */
  ghost predicate Parented(g: Graph, depth: seq<Option<int>>, t: Trace, k: nat)
    requires g.WellFormed() && |depth| == g.atomCount
    requires 0 < k < |t.order| == |t.parents|
    requires forall j :: 0 <= j < |t.order| ==> t.order[j] < g.atomCount
  {
    var p := t.parents[k];
    p < k && t.order[p] in Neighbors(g, t.order[k]) &&
    depth[t.order[k]].Some? && depth[t.order[p]].Some? &&
    depth[t.order[k]].value == depth[t.order[p]].value + 1
  }

  /** The tree the search has grown: atom 0 at depth 0 first, every atom
      reached once, `visitedAtoms` and the depths marking exactly the
      reached atoms, and every other atom below its parent. */
  ghost predicate Reached(g: Graph, depth: seq<Option<int>>, visited: seq<bool>, t: Trace)
    requires g.WellFormed()
  {
    |depth| == g.atomCount && |visited| == g.atomCount && |t.parents| == |t.order| && |t.order| > 0 &&
    Distinct(t.order) && (forall j :: 0 <= j < |t.order| ==> t.order[j] < g.atomCount) &&
    t.order[0] == 0 && depth[0] == Some(0) && DepthsNonNegative(depth) &&
    (forall a :: 0 <= a < g.atomCount ==> (visited[a] <==> a in t.order)) &&
    (forall a :: 0 <= a < g.atomCount ==> (depth[a].Some? <==> visited[a])) &&
    forall k :: 0 < k < |t.order| ==> Parented(g, depth, t, k)
  }

  /** `visitedBonds` marks exactly the walked bonds, each walked once and
      joining two reached atoms. */
  ghost predicate Walked(g: Graph, visitedBonds: seq<bool>, t: Trace)
  {
    |visitedBonds| == |g.bonds| && Distinct(t.walked) &&
    (forall j :: 0 <= j < |t.walked| ==> t.walked[j] < |g.bonds|) &&
    (forall j :: 0 <= j < |t.walked| ==> g.bonds[t.walked[j]].0 in t.order && g.bonds[t.walked[j]].1 in t.order) &&
    forall b :: 0 <= b < |g.bonds| ==> (visitedBonds[b] <==> b in t.walked)
  }

  /** Every walked bond either reached a new atom or closed a ring, and
      the far atom of every closure is marked; only reached atoms are. */
  ghost predicate Closed(inCycle: seq<bool>, t: Trace)
  {
    |t.walked| + 1 == |t.order| + |t.closures| &&
    (forall c :: c in t.closures ==> c.0 in t.order && c.1 in t.order && c.1 < |inCycle| && inCycle[c.1]) &&
    forall a :: 0 <= a < |inCycle| && inCycle[a] ==> a in t.order
  }

  ghost predicate Searching(g: Graph, depth: seq<Option<int>>, inCycle: seq<bool>, s: Search, t: Trace)
    requires g.WellFormed()
  {
    Reached(g, depth, s.visitedAtoms, t) && Walked(g, s.visitedBonds, t) && Closed(inCycle, t)
  }

  /** The tree gives every atom at a positive depth a parent, and only
      the start atom depth 0. */
  lemma ReachedParents(g: Graph, depth: seq<Option<int>>, visited: seq<bool>, t: Trace)
    requires g.WellFormed() && Reached(g, depth, visited, t)
    ensures HasParents(g, depth) && RootOnly(depth)
  {
    forall a | 0 <= a < g.atomCount
      ensures HasParent(g, depth, a)
    {
      if depth[a].Some? && depth[a].value > 0 {
        assert a in t.order;
        var k :| 0 <= k < |t.order| && t.order[k] == a;
        assert k != 0;
        assert Parented(g, depth, t, k);
        var x := t.order[t.parents[k]];
        assert x < g.atomCount && x in Neighbors(g, a) && depth[x] == Some(depth[a].value - 1);
      }
    }
    forall k | 0 < k < |t.order|
      ensures depth[t.order[k]].Some? && depth[t.order[k]].value > 0
    {
      assert Parented(g, depth, t, k);
    }
    forall a | 0 <= a < |depth| && depth[a] == Some(0)
      ensures a == 0
    {
      var k :| 0 <= k < |t.order| && t.order[k] == a;
    }
  }

  /** Reaching a new atom nb through bond b from atom order[ai] grows the
      tree by one atom below order[ai]. */
  lemma Enqueue(g: Graph, depth: seq<Option<int>>, visited: seq<bool>, t: Trace, ai: nat, nb: nat, b: nat)
    requires g.WellFormed() && Reached(g, depth, visited, t)
    requires ai < |t.order| && nb < g.atomCount && !visited[nb]
    requires b < |g.bonds| && (g.bonds[b] == (t.order[ai], nb) || g.bonds[b] == (nb, t.order[ai]))
    ensures var t' := t.(order := t.order + [nb], parents := t.parents + [ai]);
      Reached(g, depth[nb := Some(depth[t.order[ai]].value + 1)], visited[nb := true], t')
  {
    var atom := t.order[ai];
    assert depth[atom].Some?;
    var d' := depth[nb := Some(depth[atom].value + 1)];
    var t' := t.(order := t.order + [nb], parents := t.parents + [ai]);
    assert nb !in t.order;
    forall k | 0 < k < |t'.order|
      ensures Parented(g, d', t', k)
    {
      if k < |t.order| {
        assert Parented(g, depth, t, k);
        assert t.order[k] != nb && t.order[t.parents[k]] != nb;
      } else {
        BondedNeighbors(g, b, nb, atom, |g.bonds|);
      }
    }
    forall a | 0 <= a < g.atomCount
      ensures (visited[nb := true][a] <==> a in t'.order)
    {
    }
  }

  /** One bond of the current atom (finder.js:213-277): skipped when
      already walked; otherwise marked, and its far atom is either reached
      anew, one level down and queued, or closes a ring. */
  method VisitBond(g: Graph, depth: array<Option<int>>, inCycle: array<bool>, atom: nat, ghost ai: nat, b: nat,
                   s: Search, ghost t: Trace)
      returns (r: Result<()>, s': Search, ghost t': Trace, ghost added: seq<nat>)
    requires g.WellFormed() && depth.Length == g.atomCount && inCycle.Length == g.atomCount
    requires Searching(g, depth[..], inCycle[..], s, t)
    requires ai < |t.order| && t.order[ai] == atom && b < |g.bonds| && Touches(g, b, atom)
    modifies depth, inCycle
    ensures Searching(g, depth[..], inCycle[..], s', t')
    ensures t'.order == t.order + added && s'.queue == s.queue + added
    ensures s'.visitedBonds[b]
    ensures forall c :: 0 <= c < |g.bonds| && s.visitedBonds[c] ==> s'.visitedBonds[c]
    ensures r.Err? ==> |t'.closures| > 0 && EvenClosure(depth[..], t'.closures[|t'.closures| - 1])
    ensures r.Err? ==> r.error == PreviousError || r.error == LoopsForever
  {
    if s.visitedBonds[b] {
      return Ok(()), s, t, [];
    }
    var nb := OtherAtom(g.bonds[b], atom).value;
    if s.visitedAtoms[nb] {
      r, s', t' := WalkClosure(g, depth, inCycle, atom, ai, b, nb, s, t);
      added := [];
    } else {
      s', t' := WalkTreeBond(g, depth, inCycle, atom, ai, b, nb, s, t);
      r, added := Ok(()), [nb];
    }
  }

  /** A closure whose two atoms lie at different depths: the even case. */
  predicate EvenClosure(depth: seq<Option<int>>, c: (nat, nat))
  {
    c.0 < |depth| && c.1 < |depth| && depth[c.0] != depth[c.1]
  }

  /** A new bond to an atom already reached: a ring closure
      (finder.js:231-274). */
  method WalkClosure(g: Graph, depth: array<Option<int>>, inCycle: array<bool>, atom: nat, ghost ai: nat, b: nat, nb: nat,
                     s: Search, ghost t: Trace)
      returns (r: Result<()>, s': Search, ghost t': Trace)
    requires g.WellFormed() && depth.Length == g.atomCount && inCycle.Length == g.atomCount
    requires Searching(g, depth[..], inCycle[..], s, t)
    requires ai < |t.order| && t.order[ai] == atom && b < |g.bonds| && OtherAtom(g.bonds[b], atom) == Some(nb)
    requires !s.visitedBonds[b] && s.visitedAtoms[nb]
    modifies inCycle
    ensures Searching(g, depth[..], inCycle[..], s', t')
    ensures t'.order == t.order && s'.queue == s.queue
    ensures s'.visitedBonds == s.visitedBonds[b := true]
    ensures t'.closures == t.closures + [(atom, nb)]
    ensures r.Err? ==> EvenClosure(depth[..], (atom, nb))
    ensures r.Err? ==> r.error == PreviousError || r.error == LoopsForever
  {
    assert b !in t.walked;
    ReachedParents(g, depth[..], s.visitedAtoms, t);
    ghost var marks := inCycle[..];
    r := CloseRing(g, depth[..], inCycle, atom, nb);
    s' := s.(visitedBonds := s.visitedBonds[b := true]);
    t' := t.(walked := t.walked + [b], closures := t.closures + [(atom, nb)]);
    assert Reached(g, depth[..], s'.visitedAtoms, t') by {
      assert Reached(g, depth[..], s.visitedAtoms, t);
      forall k | 0 < k < |t.order|
        ensures Parented(g, depth[..], t', k)
      {
        assert Parented(g, depth[..], t, k);
      }
    }
    assert atom in t.order;
    WalkedAdd(g, s.visitedBonds, t, t', b);
    assert Closed(inCycle[..], t') by {
      assert Closed(marks, t);
      forall c | c in t'.closures
        ensures c.0 in t'.order && c.1 in t'.order && c.1 < inCycle.Length && inCycle[c.1]
      {
        if c in t.closures {
          assert marks[c.1];
        }
      }
      forall a | 0 <= a < inCycle.Length && inCycle[a]
        ensures a in t'.order
      {
        if !marks[a] {
          assert depth[a].Some?;
        } else {
          assert a in t.order;
        }
      }
    }
  }

  /** A new bond to an atom not yet reached: the atom joins the tree one
      level below `atom` and is queued (finder.js:275-277). */
  method WalkTreeBond(g: Graph, depth: array<Option<int>>, inCycle: array<bool>, atom: nat, ghost ai: nat, b: nat, nb: nat,
                      s: Search, ghost t: Trace)
      returns (s': Search, ghost t': Trace)
    requires g.WellFormed() && depth.Length == g.atomCount && inCycle.Length == g.atomCount
    requires Searching(g, depth[..], inCycle[..], s, t)
    requires ai < |t.order| && t.order[ai] == atom && b < |g.bonds| && OtherAtom(g.bonds[b], atom) == Some(nb)
    requires !s.visitedBonds[b] && !s.visitedAtoms[nb]
    modifies depth
    ensures Searching(g, depth[..], inCycle[..], s', t')
    ensures t'.order == t.order + [nb] && s'.queue == s.queue + [nb]
    ensures s'.visitedBonds == s.visitedBonds[b := true]
  {
    assert b !in t.walked;
    ghost var before := depth[..];
    depth[nb] := Some(depth[atom].value + 1);
    assert depth[..] == before[nb := Some(before[atom].value + 1)];
    Enqueue(g, before, s.visitedAtoms, t, ai, nb, b);
    s' := Search(s.visitedAtoms[nb := true], s.visitedBonds[b := true], s.queue + [nb]);
    t' := t.(order := t.order + [nb], parents := t.parents + [ai], walked := t.walked + [b]);
    assert Reached(g, depth[..], s'.visitedAtoms, t') by {
      var t0 := t.(order := t.order + [nb], parents := t.parents + [ai]);
      assert Reached(g, depth[..], s'.visitedAtoms, t0);
      forall k | 0 < k < |t'.order|
        ensures Parented(g, depth[..], t', k)
      {
        assert Parented(g, depth[..], t0, k);
      }
    }
    assert atom in t'.order && nb in t'.order;
    WalkedAdd(g, s.visitedBonds, t, t', b);
    assert Closed(inCycle[..], t');
  }

  /** Walking one more bond whose ends are both reached keeps Walked. */
  lemma WalkedAdd(g: Graph, vb: seq<bool>, t: Trace, t': Trace, b: nat)
    requires Walked(g, vb, t) && b < |g.bonds| && !vb[b]
    requires t'.walked == t.walked + [b] && t.order <= t'.order
    requires g.bonds[b].0 in t'.order && g.bonds[b].1 in t'.order
    ensures Walked(g, vb[b := true], t')
  {
    forall j | 0 <= j < |t'.walked|
      ensures g.bonds[t'.walked[j]].0 in t'.order && g.bonds[t'.walked[j]].1 in t'.order
    {
      if j < |t.walked| {
        assert t'.walked[j] == t.walked[j];
        assert g.bonds[t.walked[j]].0 in t.order && g.bonds[t.walked[j]].1 in t.order;
      }
    }
    assert b !in t.walked;
  }

  /** The bonds of one dequeued atom, in bond-set order
      (finder.js:211-278); a throwing closure ends the search. */
  method VisitAtom(g: Graph, depth: array<Option<int>>, inCycle: array<bool>, atom: nat, ghost ai: nat,
                   s: Search, ghost t: Trace)
      returns (r: Result<()>, s': Search, ghost t': Trace, ghost added: seq<nat>)
    requires g.WellFormed() && depth.Length == g.atomCount && inCycle.Length == g.atomCount
    requires Searching(g, depth[..], inCycle[..], s, t)
    requires ai < |t.order| && t.order[ai] == atom
    modifies depth, inCycle
    ensures Searching(g, depth[..], inCycle[..], s', t')
    ensures t'.order == t.order + added && s'.queue == s.queue + added
    ensures forall c :: 0 <= c < |g.bonds| && s.visitedBonds[c] ==> s'.visitedBonds[c]
    ensures r.Ok? ==> forall c :: c in IncidentBonds(g, atom) ==> s'.visitedBonds[c]
    ensures r.Err? ==> |t'.closures| > 0 && EvenClosure(depth[..], t'.closures[|t'.closures| - 1])
    ensures r.Err? ==> r.error == PreviousError || r.error == LoopsForever
  {
    var bonds := IncidentBonds(g, atom);
    s', t', added := s, t, [];
    for i := 0 to |bonds|
      invariant Searching(g, depth[..], inCycle[..], s', t')
      invariant t'.order == t.order + added && s'.queue == s.queue + added
      invariant Grown(g, s.visitedBonds, s'.visitedBonds)
      invariant WalkedFirst(g, atom, s'.visitedBonds, i)
    {
      r, s', t', added := VisitAtomStep(g, depth, inCycle, atom, ai, i, s, t, s', t', added);
      if r.Err? {
        return;
      }
    }
    r := Ok(());
  }

  /** Every bond walked in vb0 is walked in vb. */
  ghost predicate Grown(g: Graph, vb0: seq<bool>, vb: seq<bool>)
  {
    |vb0| == |g.bonds| && |vb| == |g.bonds| &&
    forall c :: 0 <= c < |g.bonds| && vb0[c] ==> vb[c]
  }

  /** The first i bonds of the atom's bond set are walked. */
  ghost predicate WalkedFirst(g: Graph, atom: nat, vb: seq<bool>, i: nat)
  {
    var bonds := IncidentBonds(g, atom);
    i <= |bonds| && |vb| == |g.bonds| && forall j :: 0 <= j < i ==> vb[bonds[j]]
  }

  /** One turn of the loop of VisitAtom: walk bond i of the atom. */
  method VisitAtomStep(g: Graph, depth: array<Option<int>>, inCycle: array<bool>, atom: nat, ghost ai: nat, i: nat,
                       ghost s: Search, ghost t: Trace, s1: Search, ghost t1: Trace, ghost added1: seq<nat>)
      returns (r: Result<()>, s': Search, ghost t': Trace, ghost added: seq<nat>)
    requires g.WellFormed() && depth.Length == g.atomCount && inCycle.Length == g.atomCount
    requires ai < |t.order| && t.order[ai] == atom && i < |IncidentBonds(g, atom)|
    requires Searching(g, depth[..], inCycle[..], s1, t1)
    requires t1.order == t.order + added1 && s1.queue == s.queue + added1
    requires Grown(g, s.visitedBonds, s1.visitedBonds) && WalkedFirst(g, atom, s1.visitedBonds, i)
    modifies depth, inCycle
    ensures Searching(g, depth[..], inCycle[..], s', t')
    ensures t'.order == t.order + added && s'.queue == s.queue + added
    ensures Grown(g, s.visitedBonds, s'.visitedBonds) && WalkedFirst(g, atom, s'.visitedBonds, i + 1)
    ensures r.Err? ==> |t'.closures| > 0 && EvenClosure(depth[..], t'.closures[|t'.closures| - 1])
    ensures r.Err? ==> r.error == PreviousError || r.error == LoopsForever
  {
    var bonds := IncidentBonds(g, atom);
    assert t1.order[ai] == atom;
    ghost var more;
    r, s', t', more := VisitBond(g, depth, inCycle, atom, ai, bonds[i], s1, t1);
    added := added1 + more;
  }

  /** detectRingAtoms (finder.js:190-281), on a molecule whose depths and
      marks `findRings` has just cleared (finder.js:446-447).  The search
      reaches exactly atom 0's connected part of the molecule, each atom
      once, in a tree whose depths grow by one from parent to child; it
      walks every bond of that part once, and each walked bond either
      reaches a new atom or is a ring closure whose far atom is marked.
      Only reached atoms are marked.  A closure that throws is an even
      one.  A molecule without atoms is left as it is. */
  method DetectRingAtoms(g: Graph, depth: array<Option<int>>, inCycle: array<bool>) returns (r: Result<()>, ghost t: Trace)
    requires g.WellFormed() && depth.Length == g.atomCount && inCycle.Length == g.atomCount
    requires forall a :: 0 <= a < g.atomCount ==> depth[a].None? && !inCycle[a]
    modifies depth, inCycle
    ensures g.atomCount == 0 ==> r.Ok? && t.order == []
    ensures g.atomCount > 0 ==> |t.order| > 0 && t.order[0] == 0 && depth[0] == Some(0)
    ensures Distinct(t.order) && forall k :: 0 <= k < |t.order| ==> t.order[k] < g.atomCount
    ensures forall a :: 0 <= a < g.atomCount ==> (depth[a].Some? <==> a in t.order)
    ensures g.atomCount > 0 ==> |t.parents| == |t.order| && forall k :: 0 < k < |t.order| ==> Parented(g, depth[..], t, k)
    ensures forall a :: 0 <= a < g.atomCount && inCycle[a] ==> a in t.order
    ensures forall c :: c in t.closures ==> c.0 in t.order && c.1 in t.order && c.1 < g.atomCount && inCycle[c.1]
    ensures Distinct(t.walked) && forall j :: 0 <= j < |t.walked| ==> t.walked[j] < |g.bonds|
    ensures g.atomCount > 0 ==> |t.walked| + 1 == |t.order| + |t.closures|
    ensures r.Ok? ==> forall b :: 0 <= b < |g.bonds| && (g.bonds[b].0 in t.order || g.bonds[b].1 in t.order) ==>
      b in t.walked && g.bonds[b].0 in t.order && g.bonds[b].1 in t.order
    ensures r.Err? ==> |t.closures| > 0 && EvenClosure(depth[..], t.closures[|t.closures| - 1])
    ensures r.Err? ==> r.error == PreviousError || r.error == LoopsForever
  {
    var n := g.atomCount;
    if n == 0 {
      return Ok(()), Trace([], [], [], []);
    }
    var s;
    s, t := StartSearch(g, depth, inCycle);
    r, s, t := RunSearch(g, depth, inCycle, s, t);
    SearchFacts(g, depth[..], inCycle[..], s, t);
    if r.Ok? {
      SearchCovers(g, depth[..], inCycle[..], s, t);
    }
  }

  /** The main loop (finder.js:207-279): dequeue an atom and walk its
      bonds until the queue is empty or a closure throws. */
  method RunSearch(g: Graph, depth: array<Option<int>>, inCycle: array<bool>, s0: Search, ghost t0: Trace)
      returns (r: Result<()>, s: Search, ghost t: Trace)
    requires g.WellFormed() && depth.Length == g.atomCount && inCycle.Length == g.atomCount
    requires Searching(g, depth[..], inCycle[..], s0, t0) && s0.queue == t0.order
    modifies depth, inCycle
    ensures Searching(g, depth[..], inCycle[..], s, t)
    ensures r.Ok? ==> forall k :: 0 <= k < |t.order| ==> forall c :: c in IncidentBonds(g, t.order[k]) ==> s.visitedBonds[c]
    ensures r.Err? ==> |t.closures| > 0 && EvenClosure(depth[..], t.closures[|t.closures| - 1])
    ensures r.Err? ==> r.error == PreviousError || r.error == LoopsForever
  {
    s, t := s0, t0;
    var n := g.atomCount;
    ghost var head := 0;
    while s.queue != []
      invariant Searching(g, depth[..], inCycle[..], s, t)
      invariant head <= |t.order| && s.queue == t.order[head..]
      invariant BondsWalkedBefore(g, s, t, head)
      decreases n - head
    {
      DistinctBelow(t.order, n);
      r, s, t := SearchStep(g, depth, inCycle, s, t, head);
      head := head + 1;
      if r.Err? {
        return;
      }
    }
    r := Ok(());
  }

  /** One turn of the main loop: dequeue the atom at position `head` of
      the search order and walk its bonds. */
  method SearchStep(g: Graph, depth: array<Option<int>>, inCycle: array<bool>, s0: Search, ghost t0: Trace, ghost head: nat)
      returns (r: Result<()>, s: Search, ghost t: Trace)
    requires g.WellFormed() && depth.Length == g.atomCount && inCycle.Length == g.atomCount
    requires Searching(g, depth[..], inCycle[..], s0, t0)
    requires head < |t0.order| && s0.queue == t0.order[head..]
    modifies depth, inCycle
    ensures Searching(g, depth[..], inCycle[..], s, t)
    ensures |t0.order| <= |t.order| && s.queue == t.order[head + 1..]
    ensures forall k :: 0 <= k < |t0.order| ==> t.order[k] == t0.order[k]
    ensures forall c :: 0 <= c < |g.bonds| && s0.visitedBonds[c] ==> s.visitedBonds[c]
    ensures r.Ok? && BondsWalkedBefore(g, s0, t0, head) ==> BondsWalkedBefore(g, s, t, head + 1)
    ensures r.Err? ==> |t.closures| > 0 && EvenClosure(depth[..], t.closures[|t.closures| - 1])
    ensures r.Err? ==> r.error == PreviousError || r.error == LoopsForever
  {
    var atom := s0.queue[0];
    ghost var added;
    r, s, t, added := VisitAtom(g, depth, inCycle, atom, head, s0.(queue := s0.queue[1..]), t0);
    assert t.order[head + 1..] == t0.order[head + 1..] + added;
    if r.Ok? && BondsWalkedBefore(g, s0, t0, head) {
      forall k | 0 <= k < head + 1
        ensures forall c :: c in IncidentBonds(g, t.order[k]) ==> s.visitedBonds[c]
      {
        assert t.order[k] == t0.order[k];
      }
    }
  }

  /** The atoms before position `head` of the search order have had all
      their bonds walked. */
  ghost predicate BondsWalkedBefore(g: Graph, s: Search, t: Trace, head: nat)
    requires g.WellFormed()
  {
    head <= |t.order| && |s.visitedBonds| == |g.bonds| &&
    forall k :: 0 <= k < head ==> forall c :: c in IncidentBonds(g, t.order[k]) ==> s.visitedBonds[c]
  }

  /** The start of the search (finder.js:195-205): atom 0 at depth 0,
      visited and queued. */
  method StartSearch(g: Graph, depth: array<Option<int>>, inCycle: array<bool>) returns (s: Search, ghost t: Trace)
    requires g.WellFormed() && depth.Length == g.atomCount && inCycle.Length == g.atomCount && g.atomCount > 0
    requires forall a :: 0 <= a < g.atomCount ==> depth[a].None? && !inCycle[a]
    modifies depth
    ensures Searching(g, depth[..], inCycle[..], s, t)
    ensures s.queue == [0] && t.order == [0]
  {
    depth[0] := Some(0);
    s := Search(seq(g.atomCount, a => a == 0), seq(|g.bonds|, _ => false), [0]);
    t := Trace([0], [0], [], []);
    assert Reached(g, depth[..], s.visitedAtoms, t);
    assert Walked(g, s.visitedBonds, t);
  }

  /** What the search state says about the tree, the marks and the
      walked bonds. */
  lemma SearchFacts(g: Graph, depth: seq<Option<int>>, inCycle: seq<bool>, s: Search, t: Trace)
    requires g.WellFormed() && Searching(g, depth, inCycle, s, t) && |inCycle| == g.atomCount
    ensures |t.order| > 0 && t.order[0] == 0 && depth[0] == Some(0)
    ensures Distinct(t.order) && forall k :: 0 <= k < |t.order| ==> t.order[k] < g.atomCount
    ensures forall a :: 0 <= a < g.atomCount ==> (depth[a].Some? <==> a in t.order)
    ensures |t.parents| == |t.order| && forall k :: 0 < k < |t.order| ==> Parented(g, depth, t, k)
    ensures forall a :: 0 <= a < g.atomCount && inCycle[a] ==> a in t.order
    ensures forall c :: c in t.closures ==> c.0 in t.order && c.1 in t.order && c.1 < g.atomCount && inCycle[c.1]
    ensures Distinct(t.walked) && forall j :: 0 <= j < |t.walked| ==> t.walked[j] < |g.bonds|
    ensures |t.walked| + 1 == |t.order| + |t.closures|
  {
  }

  /** When every reached atom has had its bonds walked, the reached atoms
      are closed under bonds. */
  lemma SearchCovers(g: Graph, depth: seq<Option<int>>, inCycle: seq<bool>, s: Search, t: Trace)
    requires g.WellFormed() && Searching(g, depth, inCycle, s, t)
    requires forall k :: 0 <= k < |t.order| ==> forall c :: c in IncidentBonds(g, t.order[k]) ==> s.visitedBonds[c]
    ensures forall b :: 0 <= b < |g.bonds| && (g.bonds[b].0 in t.order || g.bonds[b].1 in t.order) ==>
      b in t.walked && g.bonds[b].0 in t.order && g.bonds[b].1 in t.order
  {
    forall b | 0 <= b < |g.bonds| && (g.bonds[b].0 in t.order || g.bonds[b].1 in t.order)
      ensures b in t.walked && g.bonds[b].0 in t.order && g.bonds[b].1 in t.order
    {
      var a :| a in t.order && (a == g.bonds[b].0 || a == g.bonds[b].1);
      var k :| 0 <= k < |t.order| && t.order[k] == a;
      assert Touches(g, b, a);
      assert b in IncidentBonds(g, t.order[k]);
      var j :| 0 <= j < |t.walked| && t.walked[j] == b;
    }
  }
}
