// src/ring/path_graph.js: the path graph of the Hanser ring finder.  It
// starts with one two-atom edge per bond; removing an atom splices the
// paths that end at it pairwise and reports the closed paths (cycles)
// through it.  Edges are objects compared with `===`: each new edge gets an
// identity (`id`) no other edge has had, drawn from `nextId`.

module RingPathGraph {
  import opened Wrappers
  import opened Seqs
  import opened MolGraph
  import opened RingPathEdge

  /** The test `getEdges` (path_graph.js:97-119) applies to one edge: a
      cycle is picked up if the atom occurs anywhere in it, an open path
      only if the atom is one of its two ends. */
  predicate MatchesAtom(e: PathEdge, atom: nat)
  {
    if IsCycle(e) then atom in e.atoms
    else |e.atoms| > 0 && (e.atoms[0] == atom || Last(e.atoms) == atom)
  }

  /** The edges `getEdges(atom)` returns, in edge order. */
  function Incident(es: seq<PathEdge>, atom: nat): (r: seq<PathEdge>)
    ensures forall e :: e in r <==> e in es && MatchesAtom(e, atom)
    ensures |r| <= |es|
  {
    if es == [] then []
    else
      var e := es[|es| - 1];
      Incident(es[..|es| - 1], atom) + (if MatchesAtom(e, atom) then [e] else [])
  }

  /** The cycle edges of a list, in order. */
  function CyclesOf(es: seq<PathEdge>): (r: seq<PathEdge>)
    ensures forall e :: e in r <==> e in es && IsCycle(e)
  {
    if es == [] then []
    else
      var e := es[|es| - 1];
      CyclesOf(es[..|es| - 1]) + (if IsCycle(e) then [e] else [])
  }

  /** The edges short enough to be kept: at most maxLen + 1 atoms. */
  function ShortEnough(es: seq<PathEdge>, maxLen: int): (r: seq<PathEdge>)
    ensures forall e :: e in r <==> e in es && |e.atoms| <= maxLen + 1
  {
    if es == [] then []
    else
      var e := es[|es| - 1];
      ShortEnough(es[..|es| - 1], maxLen) + (if |e.atoms| <= maxLen + 1 then [e] else [])
  }

  function Prepend(front: seq<PathEdge>, rest: Result<seq<PathEdge>>): Result<seq<PathEdge>>
  {
    match rest
    case Err(m) => Err(m)
    case Ok(r) => Ok(front + r)
  }

  predicate AllHaveAtoms(es: seq<PathEdge>)
  {
    forall k :: 0 <= k < |es| ==> |es[k].atoms| >= 2
  }

  /** What `spliceEdges` (path_graph.js:126-138) computes, from pair (i, j)
      on: every pair i < j is tried once, as `es[j].splice(es[i])`, row by
      row; the non-null results are kept, and they take the identities
      next, next + 1, ... in the order they are made. */
  function SpliceFrom(es: seq<PathEdge>, i: nat, j: nat, next: nat): Result<seq<PathEdge>>
    requires AllHaveAtoms(es)
    decreases |es| - i, |es| - j
  {
    if i >= |es| then Ok([])
    else if j >= |es| then SpliceFrom(es, i + 1, i + 2, next)
    else match Spliced(es[j], es[i], next)
      case Err(m) => Err(m)
      case Ok(None) => SpliceFrom(es, i, j + 1, next)
      case Ok(Some(e)) => Prepend([e], SpliceFrom(es, i, j + 1, next + 1))
  }

  function SpliceAll(es: seq<PathEdge>, next: nat): Result<seq<PathEdge>>
    requires AllHaveAtoms(es)
  {
    SpliceFrom(es, 0, 1, next)
  }

  /** The edges take the identities next, next + 1, ... in order, and
      each has at least three atoms. */
  predicate FreshFrom(rs: seq<PathEdge>, next: nat)
  {
    forall k :: 0 <= k < |rs| ==> rs[k].id == next + k && |rs[k].atoms| >= 3
  }

  /** A splice of two paths of two or more atoms takes the identity it is
      given and has at least three atoms. */
  lemma SplicedShape(me: PathEdge, other: PathEdge, next: nat)
    requires |me.atoms| >= 2 && |other.atoms| >= 2
    ensures var s := Spliced(me, other, next);
      s.Ok? && s.value.Some? ==> s.value.value.id == next && |s.value.value.atoms| >= 3
  {
    if GetIntersection(me.atoms, other.atoms).Ok? {
      JoinedShape(me.atoms, other.atoms);
    }
  }

  /** Spliced edges take consecutive fresh identities and have at least
      three atoms. */
  lemma {:induction false} SpliceFromFacts(es: seq<PathEdge>, i: nat, j: nat, next: nat)
    requires AllHaveAtoms(es)
    ensures SpliceFrom(es, i, j, next).Ok? ==> FreshFrom(SpliceFrom(es, i, j, next).value, next)
    decreases |es| - i, |es| - j
  {
    if i >= |es| {
    } else if j >= |es| {
      SpliceFromFacts(es, i + 1, i + 2, next);
    } else {
      SplicedShape(es[j], es[i], next);
      match Spliced(es[j], es[i], next)
      case Err(_) =>
      case Ok(None) =>
        SpliceFromFacts(es, i, j + 1, next);
      case Ok(Some(e)) =>
        SpliceFromFacts(es, i, j + 1, next + 1);
        var rest := SpliceFrom(es, i, j + 1, next + 1);
        if rest.Ok? {
          var all := [e] + rest.value;
          assert SpliceFrom(es, i, j, next) == Ok(all);
          forall k | 0 <= k < |all|
            ensures all[k].id == next + k && |all[k].atoms| >= 3
          {
            if k > 0 {
              assert all[k] == rest.value[k - 1];
            }
          }
        }
    }
  }

  /** Every atom of every edge is below n. */
  predicate AtomsBelow(es: seq<PathEdge>, n: nat)
  {
    forall e :: e in es ==> forall y :: y in e.atoms ==> y < n
  }

  /** Splicing brings in no atom the spliced paths do not hold. */
  lemma {:induction false} SpliceFromBelow(es: seq<PathEdge>, i: nat, j: nat, next: nat, n: nat)
    requires AllHaveAtoms(es) && AtomsBelow(es, n)
    ensures SpliceFrom(es, i, j, next).Ok? ==> AtomsBelow(SpliceFrom(es, i, j, next).value, n)
    decreases |es| - i, |es| - j
  {
    if i >= |es| {
    } else if j >= |es| {
      SpliceFromBelow(es, i + 1, i + 2, next, n);
    } else {
      SplicedBelow(es[j], es[i], next, n);
      match Spliced(es[j], es[i], next)
      case Err(_) =>
      case Ok(None) =>
        SpliceFromBelow(es, i, j + 1, next, n);
      case Ok(Some(e)) =>
        SpliceFromBelow(es, i, j + 1, next + 1, n);
        var rest := SpliceFrom(es, i, j + 1, next + 1);
        if rest.Ok? {
          assert SpliceFrom(es, i, j, next) == Ok([e] + rest.value);
          assert forall f :: f in [e] + rest.value ==> f == e || f in rest.value;
        }
    }
  }

  /** A splice of two paths whose atoms are below n has its atoms below
      n. */
  lemma SplicedBelow(me: PathEdge, other: PathEdge, next: nat, n: nat)
    requires |me.atoms| > 0 && |other.atoms| > 0
    requires forall y :: y in me.atoms ==> y < n
    requires forall y :: y in other.atoms ==> y < n
    ensures var s := Spliced(me, other, next);
      s.Ok? && s.value.Some? ==> forall y :: y in s.value.value.atoms ==> y < n
  {
    if GetIntersection(me.atoms, other.atoms).Ok? {
      JoinedAtoms(me.atoms, other.atoms, GetIntersection(me.atoms, other.atoms).value);
    }
  }

  /** When every path ends at the same atom, every pair shares an end
      atom, so no splice throws. */
  lemma {:induction false} SpliceFromOk(es: seq<PathEdge>, i: nat, j: nat, next: nat, atom: nat)
    requires AllHaveAtoms(es)
    requires forall k :: 0 <= k < |es| ==> IsEnd(es[k].atoms, atom)
    ensures SpliceFrom(es, i, j, next).Ok?
    decreases |es| - i, |es| - j
  {
    if i >= |es| {
    } else if j >= |es| {
      SpliceFromOk(es, i + 1, i + 2, next, atom);
    } else {
      assert GetIntersection(es[j].atoms, es[i].atoms).Ok?;
      match Spliced(es[j], es[i], next)
      case Err(_) =>
      case Ok(None) =>
        SpliceFromOk(es, i, j + 1, next, atom);
      case Ok(Some(e)) =>
        SpliceFromOk(es, i, j + 1, next + 1, atom);
    }
  }

  /** The edge list the constructor builds (path_graph.js:23-41): edge b
      is [source, target] of bond b, with identity b. */
  function InitialEdges(g: Graph): (es: seq<PathEdge>)
    ensures |es| == |g.bonds|
    ensures forall b :: 0 <= b < |g.bonds| ==> es[b] == PathEdge(b, [g.bonds[b].0, g.bonds[b].1])
  {
    seq(|g.bonds|, b requires 0 <= b < |g.bonds| => PathEdge(b, [g.bonds[b].0, g.bonds[b].1]))
  }

  /** The constructor's edge list is well formed. */
  lemma InitialEdgesValid(g: Graph)
    ensures ValidEdges(InitialEdges(g), |g.bonds|)
  {
    var es := InitialEdges(g);
    forall e1, e2 | e1 in es && e2 in es && e1.id == e2.id
      ensures e1 == e2
    {
      var b1 :| 0 <= b1 < |es| && es[b1] == e1;
      var b2 :| 0 <= b2 < |es| && es[b2] == e2;
    }
  }

  class PathGraph {
    var edges: seq<PathEdge>
    var atoms: seq<nat>
    var nextId: nat

    ghost predicate Valid()
      reads this
    {
      ValidEdges(edges, nextId)
    }

    /** The constructor (path_graph.js:23-41): one edge [source, target]
        per bond in bond order, and the atoms in molecule order. */
    constructor (g: Graph)
      ensures Valid()
      ensures edges == InitialEdges(g) && nextId == |g.bonds|
      ensures |edges| == |g.bonds|
      ensures forall b :: 0 <= b < |g.bonds| ==> edges[b].atoms == [g.bonds[b].0, g.bonds[b].1]
      ensures atoms == seq(g.atomCount, k => k)
    {
      var es: seq<PathEdge> := [];
      var i := 0;
      while i < |g.bonds|
        invariant 0 <= i <= |g.bonds|
        invariant |es| == i
        invariant forall b :: 0 <= b < i ==> es[b] == PathEdge(b, [g.bonds[b].0, g.bonds[b].1])
      {
        es := es + [PathEdge(i, [g.bonds[i].0, g.bonds[i].1])];
        i := i + 1;
      }
      var ats: seq<nat> := [];
      i := 0;
      while i < g.atomCount
        invariant 0 <= i <= g.atomCount
        invariant ats == seq(i, k => k)
      {
        ats := ats + [i];
        i := i + 1;
      }
      edges, atoms, nextId := es, ats, |g.bonds|;
    }

    /** `getEdges(atom)` (path_graph.js:97-119). */
    method GetEdges(atom: nat) returns (result: seq<PathEdge>)
      ensures result == Incident(edges, atom)
    {
      result := [];
      var i := 0;
      while i < |edges|
        invariant 0 <= i <= |edges|
        invariant result == Incident(edges[..i], atom)
      {
        assert edges[..i + 1][..i] == edges[..i];
        var edge := edges[i];
        if IsCycle(edge) {
          if atom in edge.atoms {
            result := result + [edge];
          }
        } else {
          var lastAtomPos := |edge.atoms| - 1;
          if lastAtomPos >= 0 && (edge.atoms[0] == atom || edge.atoms[lastAtomPos] == atom) {
            result := result + [edge];
          }
        }
        i := i + 1;
      }
      assert edges[..i] == edges;
    }

    /** `spliceEdges` (path_graph.js:126-138): the new edges take the
        identities from `next` on. */
    static method SpliceEdges(es: seq<PathEdge>, next: nat) returns (result: Result<seq<PathEdge>>)
      requires AllHaveAtoms(es)
      ensures result == SpliceAll(es, next)
    {
      var acc: seq<PathEdge> := [];
      var id := next;
      PrependNothing(SpliceAll(es, next));
      var i := 0;
      while i < |es|
        invariant 0 <= i <= |es|
        invariant SpliceAll(es, next) == Prepend(acc, SpliceFrom(es, i, i + 1, id))
      {
        var failed;
        failed, acc, id := SpliceRow(es, i, SpliceAll(es, next), acc, id);
        if failed.Some? {
          return Err(failed.value);
        }
        i := i + 1;
      }
      assert acc + [] == acc;
      return Ok(acc);
    }

    /** The inner loop of `spliceEdges` for path i (path_graph.js:129-136):
        each later path j is spliced with it, and a result that is not
        null is appended with the next identity. */
    static method SpliceRow(es: seq<PathEdge>, i: nat, ghost all: Result<seq<PathEdge>>,
                            acc0: seq<PathEdge>, id0: nat)
      returns (failed: Option<string>, acc: seq<PathEdge>, id: nat)
      requires AllHaveAtoms(es) && i < |es|
      requires all == Prepend(acc0, SpliceFrom(es, i, i + 1, id0))
      ensures failed.Some? ==> all == Err(failed.value)
      ensures failed.None? ==> all == Prepend(acc, SpliceFrom(es, i + 1, i + 2, id))
    {
      acc, id := acc0, id0;
      var j := i + 1;
      while j < |es|
        invariant i + 1 <= j <= |es|
        invariant all == Prepend(acc, SpliceFrom(es, i, j, id))
      {
        failed, acc, id := SplicePair(es, i, j, all, acc, id);
        if failed.Some? {
          return;
        }
        j := j + 1;
      }
      RowEnd(es, i, j, id);
      failed := None;
    }

    /** One pair (i, j) of the row (path_graph.js:130-135): `es[j].splice(es[i])`;
        a result that is not null is appended with the next identity. */
    static method SplicePair(es: seq<PathEdge>, i: nat, j: nat, ghost all: Result<seq<PathEdge>>,
                             acc0: seq<PathEdge>, id0: nat)
      returns (failed: Option<string>, acc: seq<PathEdge>, id: nat)
      requires AllHaveAtoms(es) && i < j < |es|
      requires all == Prepend(acc0, SpliceFrom(es, i, j, id0))
      ensures failed.Some? ==> all == Err(failed.value)
      ensures failed.None? ==> all == Prepend(acc, SpliceFrom(es, i, j + 1, id))
      ensures failed.None? ==> |acc0| <= |acc| <= |acc0| + 1 && acc[..|acc0|] == acc0 && id - id0 == |acc| - |acc0|
    {
      acc, id := acc0, id0;
      var spliced := Splice(es[j], es[i], id);
      if spliced.Err? {
        return Some(spliced.error), acc, id;
      }
      if spliced.value.Some? {
        PrependTwice(acc, spliced.value.value, SpliceFrom(es, i, j + 1, id + 1));
        acc := acc + [spliced.value.value];
        id := id + 1;
      }
      failed := None;
    }

    /** The loop at path_graph.js:59-66 (and the one at 71-75): remove each
        listed edge that is present. */
    static method RemoveEach(s: seq<PathEdge>, xs: seq<PathEdge>) returns (r: seq<PathEdge>)
      requires Distinct(s)
      ensures r == Without(s, xs)
    {
      r := s;
      var i := 0;
      while i < |xs|
        invariant 0 <= i <= |xs|
        invariant r == Seqs.RemoveEach(s, xs[..i])
      {
        assert xs[..i + 1][..i] == xs[..i];
        if xs[i] in r {
          r := RemoveFirst(r, xs[i]);
        }
        i := i + 1;
      }
      assert xs[..i] == xs;
      RemoveEachWithout(s, xs);
    }

    /** The cycle edges of a list (path_graph.js:53-57). */
    static method CycleEdges(es: seq<PathEdge>) returns (result: seq<PathEdge>)
      ensures result == CyclesOf(es)
    {
      result := [];
      var i := 0;
      while i < |es|
        invariant 0 <= i <= |es|
        invariant result == CyclesOf(es[..i])
      {
        assert es[..i + 1][..i] == es[..i];
        if IsCycle(es[i]) {
          result := result + [es[i]];
        }
        i := i + 1;
      }
      assert es[..i] == es;
    }

    /** The loop at path_graph.js:82-88: append each new edge that is not
        already present and has at most maxLen + 1 atoms.  New edges carry
        identities from `base` on, above every kept edge, so none of them
        is already present. */
    static method AddShort(kept: seq<PathEdge>, newEdges: seq<PathEdge>, maxLen: int, base: nat)
      returns (r: seq<PathEdge>)
      requires forall e :: e in kept ==> e.id < base
      requires forall k :: 0 <= k < |newEdges| ==> newEdges[k].id == base + k
      ensures r == kept + ShortEnough(newEdges, maxLen)
    {
      r := kept;
      var i := 0;
      while i < |newEdges|
        invariant 0 <= i <= |newEdges|
        invariant r == kept + ShortEnough(newEdges[..i], maxLen)
        invariant forall e :: e in r ==> e.id < base + i
      {
        assert newEdges[..i + 1][..i] == newEdges[..i];
        var ne := newEdges[i];
        if ne !in r && |ne.atoms| <= maxLen + 1 {
          r := r + [ne];
        }
        i := i + 1;
      }
      assert newEdges[..i] == newEdges;
    }

    /** `remove(atom, maxLen)` (path_graph.js:48-91). */
    method Remove(atom: nat, maxLen: int) returns (result: seq<PathEdge>)
      requires Valid()
      modifies this
      ensures result == CyclesOf(Incident(old(edges), atom))
      ensures edges == EdgesAfterRemove(old(edges), atom, maxLen, old(nextId))
      ensures nextId == NextIdAfterRemove(old(edges), atom, old(nextId))
      ensures atoms == RemoveFirst(old(atoms), atom)
      ensures Valid()
    {
      var oldEdges := GetEdges(atom);
      var remaining, count;
      result, remaining, count := RemoveFrom(edges, oldEdges, atom, maxLen, nextId);
      RemoveKeepsValid(edges, atom, maxLen, nextId);
      edges, nextId := remaining, nextId + count;
      atoms := RemoveFirst(atoms, atom);
    }

    /** The body of `remove` on the edge list `es` and the edges `inc`
        that `getEdges` found (path_graph.js:53-88): the cycles through the
        atom, the edge list left, and how many identities the splices
        took. */
    static method RemoveFrom(es: seq<PathEdge>, inc: seq<PathEdge>, atom: nat, maxLen: int, next: nat)
      returns (result: seq<PathEdge>, remaining: seq<PathEdge>, count: nat)
      requires ValidEdges(es, next) && inc == Incident(es, atom)
      ensures result == CyclesOf(inc)
      ensures remaining == EdgesAfterRemove(es, atom, maxLen, next)
      ensures count == SplicedCount(es, atom, next)
    {
      IncidentDistinct(es, atom);
      result := CycleEdges(inc);
      var oldEdges := RemoveEach(inc, result);
      remaining := RemoveEach(es, result);
      NewEdgesFacts(es, atom, next);
      assert oldEdges == PathsThrough(es, atom);
      var spliced := SpliceEdges(oldEdges, next);
      var newEdges := spliced.value;
      assert newEdges == NewEdges(es, atom, next);
      WithoutDistinct(es, result);
      remaining := RemoveEach(remaining, oldEdges);
      RemovedInTwoSteps(es, inc, result);
      assert remaining == Without(es, inc);
      KeptEdges(es, inc);
      remaining := AddShort(remaining, newEdges, maxLen, next);
      count := |newEdges|;
    }
  }

  /** The edge list is well formed: distinct objects, identities below
      `next`, at least two atoms per path. */
  ghost predicate ValidEdges(es: seq<PathEdge>, next: nat)
  {
    Distinct(es) &&
    (forall e1, e2 :: e1 in es && e2 in es && e1.id == e2.id ==> e1 == e2) &&
    (forall e :: e in es ==> e.id < next) &&
    AllHaveAtoms(es)
  }

  /** The open paths through an atom: the edges `getEdges` finds, less the
      cycles. */
  function PathsThrough(es: seq<PathEdge>, atom: nat): seq<PathEdge>
  {
    var inc := Incident(es, atom);
    Without(inc, CyclesOf(inc))
  }

  function NewEdges(es: seq<PathEdge>, atom: nat, next: nat): seq<PathEdge>
  {
    var paths := PathsThrough(es, atom);
    if AllHaveAtoms(paths) && SpliceAll(paths, next).Ok? then SpliceAll(paths, next).value else []
  }

  function SplicedCount(es: seq<PathEdge>, atom: nat, next: nat): nat
  {
    |NewEdges(es, atom, next)|
  }

  /** The `nextId` after `remove`: one identity taken per splice made. */
  function NextIdAfterRemove(es: seq<PathEdge>, atom: nat, next: nat): nat
  {
    next + SplicedCount(es, atom, next)
  }

  /** The edge list `remove` leaves: every edge through the atom is gone,
      and the splices of the open paths through it with at most maxLen + 1
      atoms are appended. */
  function EdgesAfterRemove(es: seq<PathEdge>, atom: nat, maxLen: int, next: nat): seq<PathEdge>
  {
    Without(es, Incident(es, atom)) + ShortEnough(NewEdges(es, atom, next), maxLen)
  }

  /** `remove` keeps the edge list well formed; no edge through the atom
      survives it; every edge it adds has at most maxLen + 1 atoms. */
  lemma RemoveKeepsValid(es: seq<PathEdge>, atom: nat, maxLen: int, next: nat)
    requires ValidEdges(es, next)
    ensures var after := EdgesAfterRemove(es, atom, maxLen, next);
      ValidEdges(after, NextIdAfterRemove(es, atom, next)) &&
      (forall e :: e in Incident(es, atom) ==> e !in after) &&
      (forall e :: e in after && e !in es ==> |e.atoms| <= maxLen + 1)
  {
    var inc := Incident(es, atom);
    var newEdges := NewEdges(es, atom, next);
    NewEdgesFacts(es, atom, next);
    var kept := Without(es, inc);
    KeptEdges(es, inc);
    NewEdgesFresh(kept, newEdges, maxLen, next);
    var after := EdgesAfterRemove(es, atom, maxLen, next);
    assert after == kept + ShortEnough(newEdges, maxLen);
    forall e | e in inc
      ensures e !in after
    {
      assert e.id < next;
    }
  }

  /** `remove` brings in no atom the edges did not already hold. */
  lemma RemoveKeepsBelow(es: seq<PathEdge>, atom: nat, maxLen: int, next: nat, n: nat)
    requires ValidEdges(es, next) && AtomsBelow(es, n)
    ensures AtomsBelow(EdgesAfterRemove(es, atom, maxLen, next), n)
  {
    var inc := Incident(es, atom);
    NewEdgesFacts(es, atom, next);
    var paths := PathsThrough(es, atom);
    forall e | e in paths
      ensures e in es
    {
      WithoutMember(inc, CyclesOf(inc), e);
    }
    SpliceFromBelow(paths, 0, 1, next, n);
    var kept := Without(es, inc);
    forall e | e in kept
      ensures e in es
    {
      WithoutMember(es, inc, e);
    }
  }

  /** The splices of the open paths through an atom never fail; they have
      consecutive identities from `next` on and at least three atoms. */
  lemma NewEdgesFacts(es: seq<PathEdge>, atom: nat, next: nat)
    requires ValidEdges(es, next)
    ensures var paths := PathsThrough(es, atom);
      AllHaveAtoms(paths) && SpliceAll(paths, next).Ok? &&
      NewEdges(es, atom, next) == SpliceAll(paths, next).value
    ensures var n := NewEdges(es, atom, next);
      forall k :: 0 <= k < |n| ==> n[k].id == next + k && |n[k].atoms| >= 3
  {
    var inc := Incident(es, atom);
    var cycles := CyclesOf(inc);
    assert AllHaveAtoms(inc) by {
      forall k | 0 <= k < |inc|
        ensures |inc[k].atoms| >= 2
      {
        assert inc[k] in es;
      }
    }
    PathsEndAtAtom(inc, cycles, atom);
    var paths := PathsThrough(es, atom);
    SpliceFromOk(paths, 0, 1, next, atom);
    SpliceFromFacts(paths, 0, 1, next);
  }

  /** A row whose pairs are all tried hands over to the next row. */
  lemma RowEnd(es: seq<PathEdge>, i: nat, j: nat, next: nat)
    requires AllHaveAtoms(es) && i < |es| <= j
    ensures SpliceFrom(es, i, j, next) == SpliceFrom(es, i + 1, i + 2, next)
  {
  }

  lemma PrependNothing(r: Result<seq<PathEdge>>)
    ensures Prepend([], r) == r
  {
    if r.Ok? {
      assert [] + r.value == r.value;
    }
  }

  lemma PrependTwice(acc: seq<PathEdge>, e: PathEdge, r: Result<seq<PathEdge>>)
    ensures Prepend(acc, Prepend([e], r)) == Prepend(acc + [e], r)
  {
    if r.Ok? {
      assert acc + ([e] + r.value) == (acc + [e]) + r.value;
    }
  }

  /** Edges with distinct identities are distinct, and so are the ones
      that match an atom. */
  lemma {:induction false} IncidentDistinct(es: seq<PathEdge>, atom: nat)
    requires Distinct(es)
    ensures Distinct(Incident(es, atom))
  {
    if es != [] {
      var init := es[..|es| - 1];
      assert Distinct(init);
      IncidentDistinct(init, atom);
    }
  }

  /** The open paths through an atom all have it as an end atom. */
  lemma PathsEndAtAtom(inc: seq<PathEdge>, cycles: seq<PathEdge>, atom: nat)
    requires AllHaveAtoms(inc)
    requires forall e :: e in inc ==> MatchesAtom(e, atom)
    requires forall e :: e in inc && IsCycle(e) ==> e in cycles
    ensures var paths := Without(inc, cycles);
      AllHaveAtoms(paths) && forall k :: 0 <= k < |paths| ==> IsEnd(paths[k].atoms, atom)
  {
    var paths := Without(inc, cycles);
    forall k | 0 <= k < |paths|
      ensures |paths[k].atoms| >= 2 && IsEnd(paths[k].atoms, atom)
    {
      WithoutMember(inc, cycles, paths[k]);
    }
  }

  lemma {:induction false} WithoutTwice<T>(s: seq<T>, a: seq<T>, b: seq<T>)
    ensures Without(Without(s, a), b) == Without(s, a + b)
  {
    if s != [] {
      var t := s[1..];
      WithoutTwice(t, a, b);
      assert (s[0] in a + b) <==> (s[0] in a || s[0] in b);
      if s[0] in a {
        assert Without(s, a) == Without(t, a);
        assert Without(s, a + b) == Without(t, a + b);
      } else {
        var w := Without(s, a);
        assert w == [s[0]] + Without(t, a);
        assert w[1..] == Without(t, a);
        assert Without(w, b) == (if s[0] in b then [] else [s[0]]) + Without(Without(t, a), b);
      }
    }
  }

  /** Removing the cycles and then the open paths removes every edge
      through the atom. */
  lemma RemovedInTwoSteps(e0: seq<PathEdge>, inc: seq<PathEdge>, cycles: seq<PathEdge>)
    requires forall e :: e in cycles ==> e in inc
    ensures Without(Without(e0, cycles), Without(inc, cycles)) == Without(e0, inc)
  {
    WithoutTwice(e0, cycles, Without(inc, cycles));
    forall y | y in e0
      ensures y in cycles + Without(inc, cycles) <==> y in inc
    {
      WithoutMember(inc, cycles, y);
    }
    WithoutSameMembers(e0, cycles + Without(inc, cycles), inc);
  }

  lemma KeptEdges(e0: seq<PathEdge>, inc: seq<PathEdge>)
    requires Distinct(e0)
    ensures Distinct(Without(e0, inc))
    ensures forall e :: e in Without(e0, inc) <==> e in e0 && e !in inc
  {
    WithoutDistinct(e0, inc);
    forall e
      ensures e in Without(e0, inc) <==> e in e0 && e !in inc
    {
      WithoutMember(e0, inc, e);
    }
  }

  /** What the appended edges bring: fresh identities, so the graph stays
      valid, no edge through the atom comes back, and every new edge is
      short enough. */
  lemma NewEdgesFresh(kept: seq<PathEdge>, newEdges: seq<PathEdge>, maxLen: int, base: nat)
    requires Distinct(kept)
    requires forall e1, e2 :: e1 in kept && e2 in kept && e1.id == e2.id ==> e1 == e2
    requires forall e :: e in kept ==> e.id < base
    requires AllHaveAtoms(kept)
    requires forall k :: 0 <= k < |newEdges| ==> newEdges[k].id == base + k && |newEdges[k].atoms| >= 3
    ensures var r := kept + ShortEnough(newEdges, maxLen);
      Distinct(r) &&
      (forall e1, e2 :: e1 in r && e2 in r && e1.id == e2.id ==> e1 == e2) &&
      (forall e :: e in r ==> e.id < base + |newEdges|) &&
      AllHaveAtoms(r) &&
      (forall e :: e in r && e !in kept ==> |e.atoms| <= maxLen + 1 && e.id >= base)
  {
    ShortEnoughFresh(newEdges, maxLen, base);
    var r := kept + ShortEnough(newEdges, maxLen);
    var sh := ShortEnough(newEdges, maxLen);
    forall i, j | 0 <= i < j < |r|
      ensures r[i] != r[j]
    {
      if j >= |kept| && i < |kept| {
        assert r[j] in sh;
        assert r[i] in kept;
      }
    }
  }

  /** The short-enough new edges keep their fresh, increasing identities
      and their three or more atoms. */
  lemma {:induction false} ShortEnoughFresh(newEdges: seq<PathEdge>, maxLen: int, base: nat)
    requires forall k :: 0 <= k < |newEdges| ==> newEdges[k].id == base + k && |newEdges[k].atoms| >= 3
    ensures var sh := ShortEnough(newEdges, maxLen);
      Distinct(sh) &&
      (forall e1, e2 :: e1 in sh && e2 in sh && e1.id == e2.id ==> e1 == e2) &&
      (forall k :: 0 <= k < |sh| ==> base <= sh[k].id < base + |newEdges| && |sh[k].atoms| >= 3)
  {
    ShortEnoughIncreasing(newEdges, maxLen, base);
    var sh := ShortEnough(newEdges, maxLen);
    assert IdsIncreasing(sh);
    forall e1, e2 | e1 in sh && e2 in sh && e1.id == e2.id
      ensures e1 == e2
    {
      var i :| 0 <= i < |sh| && sh[i] == e1;
      var j :| 0 <= j < |sh| && sh[j] == e2;
      assert sh[i].id == sh[j].id;
    }
  }

  /** Identities strictly increase along the list. */
  predicate IdsIncreasing(es: seq<PathEdge>)
  {
    forall i, j :: 0 <= i < j < |es| ==> es[i].id < es[j].id
  }

  /** Every edge has an identity in [lo, hi) and at least three atoms. */
  predicate IdsWithin(es: seq<PathEdge>, lo: nat, hi: nat)
  {
    forall k :: 0 <= k < |es| ==> lo <= es[k].id < hi && |es[k].atoms| >= 3
  }

  /** The identities of the short-enough new edges increase. */
  lemma {:induction false} ShortEnoughIncreasing(newEdges: seq<PathEdge>, maxLen: int, base: nat)
    requires forall k :: 0 <= k < |newEdges| ==> newEdges[k].id == base + k && |newEdges[k].atoms| >= 3
    ensures IdsWithin(ShortEnough(newEdges, maxLen), base, base + |newEdges|)
    ensures IdsIncreasing(ShortEnough(newEdges, maxLen))
  {
    if newEdges != [] {
      var n := |newEdges|;
      var init := newEdges[..n - 1];
      assert forall k :: 0 <= k < |init| ==> init[k] == newEdges[k];
      ShortEnoughIncreasing(init, maxLen, base);
      var last := newEdges[n - 1];
      var tail: seq<PathEdge> := if |last.atoms| <= maxLen + 1 then [last] else [];
      assert ShortEnough(newEdges, maxLen) == ShortEnough(init, maxLen) + tail;
      AppendIncreasing(ShortEnough(init, maxLen), tail, base, base + n - 1);
    }
  }

  /** Appending edges whose identity is the next one keeps the identities
      increasing. */
  lemma AppendIncreasing(a: seq<PathEdge>, t: seq<PathEdge>, lo: nat, hi: nat)
    requires IdsWithin(a, lo, hi) && IdsIncreasing(a) && lo <= hi
    requires |t| <= 1 && forall k :: 0 <= k < |t| ==> t[k].id == hi && |t[k].atoms| >= 3
    ensures IdsWithin(a + t, lo, hi + 1) && IdsIncreasing(a + t)
  {
    assert forall k :: 0 <= k < |a| ==> (a + t)[k] == a[k];
    assert forall k :: |a| <= k < |a + t| ==> (a + t)[k] == t[k - |a|];
  }
}
